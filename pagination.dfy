/** Following the price-history API's continuation tokens for each region and
    collecting every returned record as a row (update.py:58-78). The API
    itself is replaced by the sequence of pages it answers with. */
module Pagination {
  import opened Rows

  /** One record of a price-history page; the region is not part of it. */
  datatype Item = Item(zone: string, instanceType: string, price: int, timestamp: int)

  /** One answer of the API: its records and its `NextToken`. */
  datatype Page = Page(items: seq<Item>, nextToken: string)

  /** What a request carries: no token (the first request of a region) or the
      previous page's `NextToken`. */
  datatype Cursor = Initial | Next(token: string)

  /** The loop condition `next != ''`: only a received empty token ends it. */
  predicate MorePages(next: Cursor)
  {
    next != Next("")
  }

  /** The answers end: some page carries the empty token. */
  predicate Terminates(pages: seq<Page>)
  {
    exists i :: 0 <= i < |pages| && pages[i].nextToken == ""
  }

  /** The page on which the loop stops: the first one with an empty token. */
  function LastPage(pages: seq<Page>): (k: nat)
    requires Terminates(pages)
    ensures k < |pages| && pages[k].nextToken == ""
    ensures forall i :: 0 <= i < k ==> pages[i].nextToken != ""
  {
    if pages[0].nextToken == "" then 0
    else
      assert Terminates(pages[1..]) by {
        var i :| 0 <= i < |pages| && pages[i].nextToken == "";
        assert pages[1..][i - 1] == pages[i];
      }
      1 + LastPage(pages[1..])
  }

  /** The row the loop appends for one record. */
  function ToRow(region: string, item: Item): (row: Row)
    ensures row.region == region && ToItem(row) == item
  {
    Row(region, item.zone, item.instanceType, item.price, item.timestamp)
  }

  /** The record a row was made from. */
  function ToItem(row: Row): Item
  {
    Item(row.zone, row.instanceType, row.price, row.timestamp)
  }

  /** The records of a page, each tagged with the region. */
  function Tagged(region: string, items: seq<Item>): (rows: seq<Row>)
  {
    if items == [] then []
    else Tagged(region, items[..|items| - 1]) + [ToRow(region, items[|items| - 1])]
  }

  /** Tagging keeps every record and sets the region of each. */
  lemma {:induction false} TaggedRecords(region: string, items: seq<Item>)
    ensures |Tagged(region, items)| == |items|
    ensures forall i :: 0 <= i < |items| ==>
      Tagged(region, items)[i].region == region && ToItem(Tagged(region, items)[i]) == items[i]
  {
    if items != [] {
      TaggedRecords(region, items[..|items| - 1]);
    }
  }

  /** The records of pages[..k] in order, each tagged with the region. */
  function Collected(region: string, pages: seq<Page>, k: nat): seq<Row>
    requires k <= |pages|
  {
    if k == 0 then [] else Collected(region, pages, k - 1) + Tagged(region, pages[k - 1].items)
  }

  /** The records of pages[..k] in order. */
  function Flatten(pages: seq<Page>, k: nat): seq<Item>
    requires k <= |pages|
  {
    if k == 0 then [] else Flatten(pages, k - 1) + pages[k - 1].items
  }

  /** The rows of every region, region after region, each region's pages up
      to and including its last one. */
  function AllCollected(regions: seq<string>, answers: seq<seq<Page>>): seq<Row>
    requires |answers| == |regions|
    requires forall r :: 0 <= r < |answers| ==> Terminates(answers[r])
  {
    if regions == [] then []
    else
      var n := |regions| - 1;
      AllCollected(regions[..n], answers[..n])
        + Collected(regions[n], answers[n], LastPage(answers[n]) + 1)
  }

  /** Stripping the region off the collected rows gives back exactly the
      records of the visited pages, in order, and every row carries the
      region. */
  lemma {:induction false} CollectedIsTaggedRecords(region: string, pages: seq<Page>, k: nat)
    requires k <= |pages|
    ensures |Collected(region, pages, k)| == |Flatten(pages, k)|
    ensures forall i :: 0 <= i < |Flatten(pages, k)| ==>
      Collected(region, pages, k)[i].region == region
      && ToItem(Collected(region, pages, k)[i]) == Flatten(pages, k)[i]
  {
    if k > 0 {
      CollectedIsTaggedRecords(region, pages, k - 1);
      var before, items := Collected(region, pages, k - 1), pages[k - 1].items;
      var tagged := Tagged(region, items);
      TaggedRecords(region, items);
      assert Collected(region, pages, k) == before + tagged;
      assert Flatten(pages, k) == Flatten(pages, k - 1) + items;
      forall i | |before| <= i < |before| + |tagged|
        ensures (before + tagged)[i] == tagged[i - |before|]
      {
      }
    }
  }

  /** The inner loop of update.py:69-76: one row per record of a page,
      appended in order. */
  method AppendPage(region: string, items: seq<Item>, acc: seq<Row>) returns (rows: seq<Row>)
    ensures rows == acc + Tagged(region, items)
  {
    rows := acc;
    for j := 0 to |items|
      invariant rows == acc + Tagged(region, items[..j])
    {
      assert items[..j + 1][..j] == items[..j];
      assert Tagged(region, items[..j + 1]) == Tagged(region, items[..j]) + [ToRow(region, items[j])];
      rows := rows + [ToRow(region, items[j])];
    }
    assert items[..|items|] == items;
  }

  /** The cursor of request k: none for the first request, then the token
      of the page before. */
  function CursorOf(pages: seq<Page>, k: nat): Cursor
    requires k <= |pages|
  {
    if k == 0 then Initial else Next(pages[k - 1].nextToken)
  }

  /** The cursors of the first k requests. */
  function Requests(pages: seq<Page>, k: nat): seq<Cursor>
    requires k <= |pages|
  {
    if k == 0 then [] else Requests(pages, k - 1) + [CursorOf(pages, k - 1)]
  }

  /** The first request carries no token and request i carries page i-1's
      token. */
  lemma {:induction false} RequestsCarryTokens(pages: seq<Page>, k: nat)
    requires 0 < k <= |pages|
    ensures |Requests(pages, k)| == k
    ensures Requests(pages, k)[0] == Initial
    ensures forall i :: 0 < i < k ==> Requests(pages, k)[i] == Next(pages[i - 1].nextToken)
  {
    if k > 1 {
      RequestsCarryTokens(pages, k - 1);
    }
  }

  /** A page before the last one has a non-empty token, so the loop has not
      yet passed the last page. */
  lemma NotPastLastPage(pages: seq<Page>, i: nat)
    requires Terminates(pages) && i <= LastPage(pages) + 1
    requires 0 < i ==> pages[i - 1].nextToken != ""
    ensures i <= LastPage(pages)
  {
  }

  /** The request loop of one region: it starts without a token, passes on
      each page's `NextToken`, appends the page's records tagged with the
      region to `acc`, and stops right after the first page whose token is
      empty. */
  method FetchRegion(region: string, pages: seq<Page>, acc: seq<Row>)
    returns (rows: seq<Row>, requests: seq<Cursor>)
    requires Terminates(pages)
    ensures rows == acc + Collected(region, pages, LastPage(pages) + 1)
    ensures requests == Requests(pages, LastPage(pages) + 1)
  {
    var last := LastPage(pages);
    rows, requests := acc, [];
    var next := Initial;
    var i := 0;
    while MorePages(next)
      invariant 0 <= i <= last + 1
      invariant next == CursorOf(pages, i)
      invariant rows == acc + Collected(region, pages, i)
      invariant requests == Requests(pages, i)
      decreases last + 1 - i
    {
      NotPastLastPage(pages, i);
      requests := requests + [next];
      var page := pages[i];
      rows := AppendPage(region, page.items, rows);
      next := Next(page.nextToken);
      i := i + 1;
    }
  }

  /** One more region appends that region's collected rows. */
  lemma AllCollectedStep(regions: seq<string>, answers: seq<seq<Page>>, r: nat)
    requires |answers| == |regions| && r < |regions|
    requires forall k :: 0 <= k < |answers| ==> Terminates(answers[k])
    ensures AllCollected(regions[..r + 1], answers[..r + 1])
      == AllCollected(regions[..r], answers[..r]) + Collected(regions[r], answers[r], LastPage(answers[r]) + 1)
  {
    var rs, ans := regions[..r + 1], answers[..r + 1];
    assert rs[..r] == regions[..r] && ans[..r] == answers[..r];
    assert rs[r] == regions[r] && ans[r] == answers[r];
  }

  /** The loop over regions: one `FetchRegion` per region, all rows in one
      list, in region order. */
  method FetchAll(regions: seq<string>, answers: seq<seq<Page>>)
    returns (rows: seq<Row>)
    requires |answers| == |regions|
    requires forall r :: 0 <= r < |answers| ==> Terminates(answers[r])
    ensures rows == AllCollected(regions, answers)
  {
    rows := [];
    for r := 0 to |regions|
      invariant rows == AllCollected(regions[..r], answers[..r])
    {
      var requests;
      rows, requests := FetchRegion(regions[r], answers[r], rows);
      AllCollectedStep(regions, answers, r);
    }
    assert regions[..|regions|] == regions;
    assert answers[..|answers|] == answers;
  }
}
