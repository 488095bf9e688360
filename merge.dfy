/** Merging freshly fetched rows into the persisted table: append, then drop
    exact duplicate rows keeping the first occurrence (update.py:83-86). */
module Merge {
  import opened Rows

  /** Exact-row deduplication that keeps the first occurrence of each row, in
      the order of those first occurrences (the default of `drop_duplicates`). */
  function DropDuplicates(s: seq<Row>): (r: seq<Row>)
    ensures NoDuplicates(r)
    ensures forall x :: x in r <==> x in s
    ensures forall i, j :: 0 <= i < j < |r| ==> FirstIndex(s, r[i]) < FirstIndex(s, r[j])
    ensures IsSubsequence(r, s)
    decreases |s|
  {
    if s == [] then []
    else
      var n := |s| - 1;
      var d := DropDuplicates(s[..n]);
      assert forall x :: x in s <==> x in s[..n] || x == s[n] by {
        assert s == s[..n] + [s[n]];
      }
      SubsequenceExtend(d, s[..n], s[n]);
      assert s[..n] + [s[n]] == s;
      forall i | 0 <= i < |d|
        ensures FirstIndex(s, d[i]) == FirstIndex(s[..n], d[i])
      {
        FirstIndexPrefix(s, n, d[i]);
      }
      if s[n] in d then d
      else
        assert FirstIndex(s, s[n]) == n by {
          assert s[n] !in s[..n];
        }
        d + [s[n]]
  }

  /** The table after a fetch: the prior rows with the fetched rows appended
      and duplicates dropped; with no prior table (`None`, a failed load) the
      fetched rows become the table as they are, without deduplication. */
  function MergeFetched(prior: Option<seq<Row>>, fetched: seq<Row>): (r: seq<Row>)
    ensures prior.None? ==> r == fetched
    ensures prior.Some? ==> NoDuplicates(r)
    ensures prior.Some? ==> forall x :: x in r <==> x in prior.value || x in fetched
    ensures prior.Some? ==> IsSubsequence(r, prior.value + fetched)
  {
    match prior
    case None => fetched
    case Some(rows) =>
      var r := DropDuplicates(rows + fetched);
      assert forall x :: x in rows + fetched <==> x in rows || x in fetched;
      r
  }

  /** A table without duplicate rows is left unchanged by deduplication. */
  lemma {:induction false} DropDuplicatesOfDistinct(s: seq<Row>)
    requires NoDuplicates(s)
    ensures DropDuplicates(s) == s
    decreases |s|
  {
    if s != [] {
      var n := |s| - 1;
      DropDuplicatesOfDistinct(s[..n]);
      assert s[..n] + [s[n]] == s;
    }
  }

  /** A last row that already occurs earlier is dropped. */
  lemma DropDuplicatesSkipsRepeat(s: seq<Row>, x: Row)
    requires x in s
    ensures DropDuplicates(s + [x]) == DropDuplicates(s)
  {
    var t := s + [x];
    assert t[..|t| - 1] == s && t[|t| - 1] == x;
  }

  /** Appending rows that are all already present changes nothing after
      deduplication. */
  lemma {:induction false} DropDuplicatesAbsorbs(s: seq<Row>, e: seq<Row>)
    requires forall x :: x in e ==> x in s
    ensures DropDuplicates(s + e) == DropDuplicates(s)
    decreases |e|
  {
    if e == [] {
      assert s + e == s;
    } else {
      var m := |e| - 1;
      DropDuplicatesAbsorbs(s, e[..m]);
      assert s + e == (s + e[..m]) + [e[m]];
      assert e[m] in s + e[..m];
      DropDuplicatesSkipsRepeat(s + e[..m], e[m]);
    }
  }

  /** Merging a table with itself yields its distinct rows; a table that
      already has no duplicates (every merged table) comes back unchanged. */
  lemma MergeWithSelf(d: seq<Row>)
    ensures MergeFetched(Some(d), d) == DropDuplicates(d)
    ensures NoDuplicates(d) ==> MergeFetched(Some(d), d) == d
  {
    DropDuplicatesAbsorbs(d, d);
    if NoDuplicates(d) {
      DropDuplicatesOfDistinct(d);
    }
  }

  /** Merging the same fetch twice gives the same table as merging it once. */
  lemma MergeIdempotent(prior: seq<Row>, fetched: seq<Row>)
    ensures MergeFetched(Some(MergeFetched(Some(prior), fetched)), fetched)
         == MergeFetched(Some(prior), fetched)
  {
    var once := MergeFetched(Some(prior), fetched);
    DropDuplicatesAbsorbs(once, fetched);
    DropDuplicatesOfDistinct(once);
  }
}
