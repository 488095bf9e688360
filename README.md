# spot-chart: the data rules of `update.py`, in Dafny

`update.py` keeps a CSV of EC2 spot-price history up to date and draws one
chart per instance type. Each run does the following:

1. Builds a region-to-colour table from a fixed palette.
2. Loads the table and computes the time range it already covers in every
   availability zone.
3. Decides whether to fetch and from which instant.
4. Pages through the price-history API for every region.
5. Appends the new rows and drops exact duplicates.
6. For each instance type, keeps that type's rows inside the three-day
   window.
7. Prices each row at the minimum of its (region, minute) bucket.
8. Orders the legend by the canonical region list.
9. Names the image after the chart title.

This project models those rules and proves what they guarantee. All of
pandas, boto3, matplotlib and the file system stay outside the model.

Rows are `Rows.Row(region, zone, instanceType, price, timestamp)`.
Timestamps are whole seconds since the Unix epoch, in UTC. Prices are
integers (for example micro-dollars), because every rule only compares
them. The API is a given sequence of pages per region, each page holding
records and a `NextToken`. The clock (`now`) and the file's modification
time (`lastUpdate`) are parameters.

Modules, one per rule group of `update.py`:

- `Rows` (rows.dfy): the row type, plus subsequence and first-index helpers
  that the other modules share.
- `Colours` (colours.dfy): the colour loop.
- `Coverage` (coverage.dfy): the per-zone coverage window and the
  `datetime.min`/`datetime.max` fallback.
- `Pagination` (pagination.dfy): the continuation-token loop and the loop
  over regions.
- `Merge` (merge.dfy): append, then drop duplicates.
- `Sync` (sync.dfy): the freshness gate, the start of the requested range,
  and one whole synchronizer run.
- `Chart` (chart.dfy): the per-type row filter and the minute-bucket
  minimum.
- `Legend` (legend.dfy): the legend reordering loop.
- `Filename` (filename.dfy): the title and the image file name.

The three loops that update variables step by step are methods with loop
invariants, each proved against a specification function:

- the colour loop (`AssignColours`);
- the pagination loop (`FetchRegion`, `FetchAll`);
- the legend loop (`SortLegend`).

The pure expressions are functions, and lemmas prove their properties.

Two choices worth knowing:

- **Freshness policy.** The gate is the one in `update.py:55`. It fetches
  when the file was last written more than ten minutes before `now`.
- **Fetch start.** `update.py:56` requests from `max_timestamp` (the
  earliest per-zone latest sample) when `min_timestamp` (the latest
  per-zone earliest sample) lies before the window start. Otherwise it
  requests from the window start. A rule that resumes from `max_timestamp`
  only when that point is recent would read the condition the other way
  round; the model follows the code as written.
  `Sync.StartRequestResumesOnlyWithoutGaps` states what the code's rule
  guarantees: it resumes only when every zone already has a sample before
  the window start, and then every zone also has a sample at or after the
  resume point.
- **Empty fetch.** When the fetch returns no record at all, the frame built
  at update.py:81 has no `Timestamp` column, so update.py:82 raises outside
  any `try`. The run then ends before the merge, and the file is not
  written. `Sync.Synchronize` returns `Aborted` in that case.

## Model

| member | source | states |
|---|---|---|
| `Colours.ColourTable` | update.py:21-24 | every listed region is a key, and each region holds the colour at the position of its last listing (a region listed twice keeps the colour of its later listing, as dict assignment overwrites) |
| `Colours.AssignColours` | update.py:21-24 | the loop succeeds exactly when the palette has at least as many colours as there are regions (otherwise `pop` raises); on success it yields `ColourTable`, and the unpopped palette suffix is left over |
| `Colours.DistinctRegionsGetDistinctColours` | update.py:22-24 | with distinct regions the k-th region gets the k-th colour; with distinct colours too, no two regions share a colour |
| `Colours.ScriptColours` | update.py:18-24 | with the script's six regions and seven colours the loop never runs out, each region gets its own colour in order, and no two regions share one |
| `Coverage.ZoneMin` | update.py:44-45 | the earliest timestamp of a zone: some row of the zone has it and no row of the zone is earlier |
| `Coverage.ZoneMax` | update.py:44-46 | the latest timestamp of a zone: some row of the zone has it and no row of the zone is later |
| `Coverage.LatestZoneMin` | update.py:44-45 | `az_timestamps.min().max()`: it is at least every zone's minimum and equals the minimum of some zone |
| `Coverage.EarliestZoneMax` | update.py:44-46 | `az_timestamps.max().min()`: it is at most every zone's maximum and equals the maximum of some zone |
| `Coverage.CoverageOf` | update.py:44-46 | an empty table has no window (both aggregates are NaT); a non-empty table has one |
| `Coverage.FallbackWindow` | update.py:48-52 | after a failed load, `min_timestamp` is `datetime.max` and `max_timestamp` is `datetime.min`, so the minimum lies after the maximum |
| `Coverage.MinTimestampIsEarliestFullCoverage` | update.py:44-45 | every zone has a sample at or before `t` if and only if `min_timestamp <= t`, so `min_timestamp` is the earliest instant by which every zone has a sample |
| `Coverage.MaxTimestampIsLatestFullCoverage` | update.py:44-46 | every zone has a sample at or after `t` if and only if `t <= max_timestamp`, so `max_timestamp` is the latest instant from which every zone still has a sample |
| `Sync.StartRequest` | update.py:56 | the request starts at the window start, or at `max_timestamp` when `min_timestamp` is before the window start |
| `Sync.StartRequestResumesOnlyWithoutGaps` | update.py:44-56 | the request resumes from `max_timestamp` exactly when every zone has a sample before the window start, and then every zone also has a sample at or after the resume point; an empty table always requests the whole window |
| `Sync.FailedLoadFetchesWholeWindow` | update.py:48-56 | after a failed load (`last_update = datetime.min`) the fetch always happens and it requests from the window start |
| `Sync.ShouldFetch` | update.py:55 | the gate: fetch when the file was last written more than ten minutes before `now` |
| `Sync.Synchronize` | update.py:30-86 | the run keeps the loaded rows exactly when the gate is closed (and then the load cannot have failed); otherwise it requests from `StartRequest`, aborts exactly when no region returned a record (update.py:81-82 raises), and else yields the merge of the loaded rows with every region's collected rows |
| `Pagination.MorePages` | update.py:63 | the loop condition `next != ''`: only a received empty token stops the loop, and the first request (no token yet) always goes out |
| `Pagination.ToRow` | update.py:70-76 | the row appended for one record carries the region, and the record's own fields come back unchanged from it |
| `Pagination.LastPage` | update.py:62-77 | the page where the loop stops is the first page whose `NextToken` is empty: every earlier token is non-empty |
| `Pagination.TaggedRecords` | update.py:69-76 | tagging a page keeps every record in order and sets each row's region |
| `Pagination.CollectedIsTaggedRecords` | update.py:62-77 | the collected rows carry the region, and stripping the region gives back exactly the records of the visited pages, concatenated in order |
| `Pagination.RequestsCarryTokens` | update.py:62-68 | there is one request per page reached; the first request carries no token, and request i carries page i-1's `NextToken` |
| `Pagination.AppendPage` | update.py:69-76 | the list grows by exactly the page's records, each tagged with the region, in order |
| `Pagination.FetchRegion` | update.py:62-77 | the loop sends `Requests` for the pages up to and including the first page with an empty token, and the list grows by exactly the records of those pages, tagged with the region, in order (`Collected`) |
| `Pagination.FetchAll` | update.py:58-78 | the list holds each region's collected rows, region after region |
| `Merge.DropDuplicates` | update.py:84 | no two rows are equal, a row is present exactly when it occurs in the input, the kept rows are in the order of their first occurrences, and the result is a subsequence of the input |
| `Merge.MergeFetched` | update.py:83-86 | with no prior table the fetched rows come through unchanged (not deduplicated); otherwise the result has no duplicates, holds every row of either input and nothing else, and keeps their order |
| `Merge.DropDuplicatesOfDistinct` | update.py:84 | a table without duplicates is left unchanged by deduplication |
| `Merge.DropDuplicatesAbsorbs` | update.py:84 | appending rows that are all already present changes nothing after deduplication |
| `Merge.MergeWithSelf` | update.py:84 | merging a table with itself yields its distinct rows, and a table without duplicates comes back unchanged |
| `Merge.MergeIdempotent` | update.py:83-86 | merging the same fetched rows a second time changes nothing |
| `Chart.Where` | update.py:96-98 | a boolean mask keeps exactly the rows satisfying the condition, each with all its copies, in their original order |
| `Chart.SelectRows` | update.py:96-98 | the three masks applied one after the other; every kept row has the instance type and lies strictly inside the window |
| `Chart.SelectRowsKeepsExactlyWindow` | update.py:94-98 | the three masks keep exactly the rows with the instance type and `start < timestamp < end` (both strict), with all their copies, in their original order |
| `Chart.Minute` | update.py:101 | the minute of a timestamp: the whole minute that contains it, so the timestamp lies within 60 seconds after the minute's start |
| `Chart.BucketMin` | update.py:102 | the least price of a (region, minute) bucket: some row of the bucket has it and no row of the bucket has less |
| `Chart.MinuteMinimum` | update.py:101-102 | the number of rows and every field except the price are unchanged, and each row's new price is the least price among the rows with its region and minute |
| `Chart.BucketMinUnique` | update.py:102 | two rows of one bucket have the same bucket minimum |
| `Chart.MinuteMinimumLowersAndEqualises` | update.py:101-102 | the new price is at most the old one, and all rows of one bucket get the same price |
| `Chart.MinuteMinimumStable` | update.py:102 | after the transform, every row's price is already the least of its bucket, so a second transform keeps each row |
| `Chart.MinuteMinimumIdempotent` | update.py:102 | applying the transform a second time changes nothing |
| `Chart.ChartRows` | update.py:94-102 | the rows one chart is drawn from: the selected rows, each priced at its bucket minimum; every one of them has the instance type and lies strictly inside the window |
| `Legend.Shown` | update.py:135-138 | the lookup `handles[labels.index(region)]` succeeds: the region is a label, and a handle exists at its first position |
| `Legend.LegendRegions` | update.py:134-139 | the legend's regions are a subsequence of the canonical list, and a region is present exactly when it is canonical and its label lookup succeeds; distinct canonical regions give a legend without repeats |
| `Legend.SortLegend` | update.py:131-140 | the loop yields `LegendRegions`, with as many handles as regions, and each handle is the one at the first position of its region's label |
| `Legend.LegendListsEveryLine` | update.py:131-140 | when the lines' labels are distinct canonical regions, the legend lists exactly those labels, reordered |
| `Filename.StripDecorations` | update.py:143 | one left-to-right pass of the substitution: at each position `/UNIX`, then `Amazon`, then a space or a parenthesis is tried; a match is deleted and the scan resumes after it, otherwise the character is kept |
| `Filename.StripDecorationsRemovesDeleted` | update.py:143 | the result contains no space and no parenthesis |
| `Filename.StripDecorationsKeepsOrder` | update.py:143 | the kept characters keep their relative order (the result is a subsequence of the title) |
| `Filename.StripDecorationsKeepsOtherCharacters` | update.py:143 | every character that is not part of the pattern occurs exactly as often in the result as in the title |
| `Filename.StripDecorationsKeepsPrefix` | update.py:143 | a prefix at which no alternative can match is kept unchanged in front of the stripped rest |
| `Filename.Title` | update.py:124 | the chart title: the instance type, ` - `, then the product description |
| `Filename.ChartFilename` | update.py:143 | the file name ends in `.png`, and its stem contains no space or parenthesis |
| `Filename.ScriptFilename` | update.py:124-143 | the title `g2.2xlarge - Linux/UNIX (Amazon VPC)` gives the file `g2.2xlarge-LinuxVPC.png` |

## Left out

- The boto3 client and `describe_spot_price_history` (update.py:61-68) are not modelled. Each region's answers are a given sequence of pages. Missing keys and network failures belong to that foreign code.
- Pagination.FetchRegion: requires that some page carries an empty token. An API that never sends one makes the source loop forever, and a finite model cannot show that.
- CSV reading and writing, `pd.to_datetime` and the `date_format` serialisation (update.py:40-41, 81-82, 87) are not modelled, apart from the abort an empty fetch causes at update.py:82. A load is either `LoadFailed` or the loaded rows with the file's modification time.
- The clocks are not modelled: `datetime.utcnow`, `os.path.getmtime` and `fromtimestamp` (update.py:31, 39). `now` and `lastUpdate` are integer parameters. The source compares a local-time modification time with a UTC clock, and it mixes timezone-naive and timezone-aware instants. The model treats every instant as UTC seconds.
- `datetime.max` is modelled truncated to whole seconds, and `datetime.min` as the matching second count. Only their order against real instants matters.
- Prices are integers. The API sends `SpotPrice` as a decimal string, and the CSV loads it as a float. Whether pandas treats a string price and a float price as equal rows in `drop_duplicates` is therefore not captured.
- Chart.Minute: the source buckets by the string `%m-%d-%y %H:%M`, which has a two-digit year, so instants exactly a century apart would share a bucket. The model buckets by absolute minute. This makes no difference inside the three-day window.
- The float steps are not modelled: `astype(float)` (update.py:89), 60-second resampling with interpolation, the rolling mean (update.py:110-111), and the quantile y-limits (update.py:120).
- All matplotlib calls are not modelled: figure, plotting, axis locators and formatters, labels, figtext, legend drawing and `savefig` (update.py:104-128, 140, 144-145). This includes the `region_color[region]` lookup for a plotted line (update.py:112). `Chart.ChartRows` gives the rows one chart is drawn from.
- Progress printing and warning suppression (update.py:12-13, 34, 47, 57, 60, 67, 78, 92, 147) are not modelled.
