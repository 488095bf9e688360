/** Reordering the legend of a chart into the canonical region order
    (update.py:130-140). The plot's lines are given as `handles` with their
    `labels`; a handle is opaque here. */
module Legend {
  import opened Rows

  /** `handles[labels.index(region)]` succeeds: the region is a label and the
      handle at its first position exists. Otherwise the lookup raises and
      the bare `except` skips the region. */
  predicate Shown<H>(region: string, handles: seq<H>, labels: seq<string>)
  {
    region in labels && FirstIndex(labels, region) < |handles|
  }

  /** The canonical regions that the legend lists, in canonical order. */
  function LegendRegions<H>(regions: seq<string>, handles: seq<H>, labels: seq<string>): (r: seq<string>)
    ensures IsSubsequence(r, regions)
    ensures forall x :: x in r <==> x in regions && Shown(x, handles, labels)
    ensures NoDuplicates(regions) ==> NoDuplicates(r)
  {
    if regions == [] then []
    else
      var n := |regions| - 1;
      var before := LegendRegions(regions[..n], handles, labels);
      assert regions == regions[..n] + [regions[n]];
      SubsequenceExtend(before, regions[..n], regions[n]);
      assert forall x :: x in regions <==> x in regions[..n] || x == regions[n];
      assert NoDuplicates(regions) ==> NoDuplicates(regions[..n]) && regions[n] !in regions[..n];
      if Shown(regions[n], handles, labels) then before + [regions[n]] else before
  }

  /** The loop of update.py:134-139: for each canonical region, look up its
      handle and append both, or skip the region when the lookup fails. */
  method SortLegend<H>(regions: seq<string>, handles: seq<H>, labels: seq<string>)
    returns (sortedHandles: seq<H>, sortedRegions: seq<string>)
    ensures sortedRegions == LegendRegions(regions, handles, labels)
    ensures |sortedHandles| == |sortedRegions|
    ensures forall k :: 0 <= k < |sortedRegions| ==>
      Shown(sortedRegions[k], handles, labels)
      && sortedHandles[k] == handles[FirstIndex(labels, sortedRegions[k])]
  {
    sortedHandles, sortedRegions := [], [];
    for i := 0 to |regions|
      invariant sortedRegions == LegendRegions(regions[..i], handles, labels)
      invariant |sortedHandles| == |sortedRegions|
      invariant forall k :: 0 <= k < |sortedRegions| ==>
        Shown(sortedRegions[k], handles, labels)
        && sortedHandles[k] == handles[FirstIndex(labels, sortedRegions[k])]
    {
      var region := regions[i];
      assert regions[..i + 1][..i] == regions[..i];
      if region in labels {
        var position := FirstIndex(labels, region);
        if position < |handles| {
          sortedHandles := sortedHandles + [handles[position]];
          sortedRegions := sortedRegions + [region];
        }
      }
    }
    assert regions[..|regions|] == regions;
  }

  /** When every line's label is a distinct canonical region, the legend
      lists every line exactly once: its regions are the labels, reordered. */
  lemma LegendListsEveryLine<H>(regions: seq<string>, handles: seq<H>, labels: seq<string>)
    requires |handles| == |labels|
    requires NoDuplicates(regions) && NoDuplicates(labels)
    requires forall l :: l in labels ==> l in regions
    ensures multiset(LegendRegions(regions, handles, labels)) == multiset(labels)
  {
    var r := LegendRegions(regions, handles, labels);
    assert forall x :: x in r <==> x in labels;
    DistinctMultiset(r);
    DistinctMultiset(labels);
  }

  /** The multiset of a sequence without duplicates counts each element once. */
  lemma {:induction false} DistinctMultiset(s: seq<string>)
    requires NoDuplicates(s)
    ensures forall x :: multiset(s)[x] == if x in s then 1 else 0
  {
    if s != [] {
      var n := |s| - 1;
      DistinctMultiset(s[..n]);
      assert s == s[..n] + [s[n]];
      assert s[n] !in s[..n];
    }
  }
}
