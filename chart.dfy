/** The data side of drawing one chart: the rows of one instance type inside
    the display window (update.py:94-98), each priced at the minimum of its
    region's rows in the same minute (update.py:100-102). */
module Chart {
  import opened Rows

  /** The rows of `rows` that satisfy `keep`, in their original order (a
      boolean mask applied to a frame). */
  function Where(rows: seq<Row>, keep: Row -> bool): (r: seq<Row>)
    ensures forall x :: x in r ==> keep(x)
    ensures forall x :: multiset(r)[x] == if keep(x) then multiset(rows)[x] else 0
    ensures IsSubsequence(r, rows)
  {
    if rows == [] then []
    else
      var n := |rows| - 1;
      var before := Where(rows[..n], keep);
      assert rows == rows[..n] + [rows[n]];
      SubsequenceExtend(before, rows[..n], rows[n]);
      if keep(rows[n]) then before + [rows[n]] else before
  }

  /** The three masks of update.py:96-98, applied one after the other. */
  function SelectRows(rows: seq<Row>, instanceType: string, start: int, end: int): (r: seq<Row>)
    ensures forall x :: x in r ==> x.instanceType == instanceType && start < x.timestamp < end
  {
    var byType := Where(rows, (x: Row) => x.instanceType == instanceType);
    var afterStart := Where(byType, (x: Row) => x.timestamp > start);
    Where(afterStart, (x: Row) => x.timestamp < end)
  }

  /** A row is kept exactly when it has the instance type and lies strictly
      inside (start, end); kept rows keep their order and their number of
      copies. */
  lemma SelectRowsKeepsExactlyWindow(rows: seq<Row>, instanceType: string, start: int, end: int)
    ensures var r := SelectRows(rows, instanceType, start, end);
      && IsSubsequence(r, rows)
      && forall x :: multiset(r)[x] ==
           if x.instanceType == instanceType && start < x.timestamp < end then multiset(rows)[x] else 0
  {
    var byType := Where(rows, (x: Row) => x.instanceType == instanceType);
    var afterStart := Where(byType, (x: Row) => x.timestamp > start);
    var r := Where(afterStart, (x: Row) => x.timestamp < end);
    SubsequenceTransitive(afterStart, byType, rows);
    SubsequenceTransitive(r, afterStart, rows);
  }

  /** The bucket key: the timestamp truncated to the minute. Timestamps are
      seconds, so this is floor division by 60 (Dafny's `/` floors for a
      positive divisor). */
  function Minute(timestamp: int): (m: int)
    ensures m * 60 <= timestamp < m * 60 + 60
  {
    timestamp / 60
  }

  /** Same region and same minute. */
  predicate SameBucket(a: Row, b: Row)
  {
    a.region == b.region && Minute(a.timestamp) == Minute(b.timestamp)
  }

  /** `p` is the least price among the rows of `rows` in the bucket of `x`:
      some row of the bucket has it and none has less. */
  ghost predicate IsBucketMin(rows: seq<Row>, x: Row, p: int)
  {
    && (exists j :: 0 <= j < |rows| && SameBucket(x, rows[j]) && rows[j].price == p)
    && (forall j :: 0 <= j < |rows| && SameBucket(x, rows[j]) ==> p <= rows[j].price)
  }

  /** The least price among the rows in the bucket of `x`, over rows[..k]. */
  function BucketMin(rows: seq<Row>, k: nat, x: Row): (p: int)
    requires k <= |rows|
    requires exists i :: 0 <= i < k && SameBucket(x, rows[i])
    ensures IsBucketMin(rows[..k], x, p)
  {
    var n := k - 1;
    assert forall i :: 0 <= i < n ==> rows[..k][i] == rows[..n][i] == rows[i];
    if !exists i :: 0 <= i < n && SameBucket(x, rows[i]) then
      assert rows[..k][n] == rows[n];
      rows[n].price
    else
      var p := BucketMin(rows, n, x);
      assert rows[..k][n] == rows[n];
      if SameBucket(x, rows[n]) && rows[n].price < p then rows[n].price else p
  }

  /** `groupby(['Region', 'Timeminute']).transform(min)`: every row keeps its
      place and its other fields, and its price becomes the least price in
      its (region, minute) bucket. */
  function MinuteMinimum(rows: seq<Row>): (r: seq<Row>)
    ensures |r| == |rows|
    ensures forall i :: 0 <= i < |rows| ==> r[i] == rows[i].(price := r[i].price)
    ensures forall i :: 0 <= i < |rows| ==> IsBucketMin(rows, rows[i], r[i].price)
  {
    assert rows[..|rows|] == rows;
    seq(|rows|, i requires 0 <= i < |rows| =>
      assert SameBucket(rows[i], rows[i]);
      rows[i].(price := BucketMin(rows, |rows|, rows[i])))
  }

  /** The transform changes no field but the price. */
  lemma MinuteMinimumKeepsFields(rows: seq<Row>, i: nat)
    requires i < |rows|
    ensures MinuteMinimum(rows)[i] == rows[i].(price := MinuteMinimum(rows)[i].price)
  {
  }

  /** Two rows of one bucket have one bucket minimum. */
  lemma BucketMinUnique(rows: seq<Row>, x: Row, y: Row, p: int, q: int)
    requires SameBucket(x, y) && IsBucketMin(rows, x, p) && IsBucketMin(rows, y, q)
    ensures p == q
  {
    var k :| 0 <= k < |rows| && SameBucket(x, rows[k]) && rows[k].price == p;
    var l :| 0 <= l < |rows| && SameBucket(y, rows[l]) && rows[l].price == q;
    assert SameBucket(y, rows[k]) && SameBucket(x, rows[l]);
  }

  /** The new price is at most the old one, and rows of one bucket end with
      one price. */
  lemma MinuteMinimumLowersAndEqualises(rows: seq<Row>, i: nat, j: nat)
    requires i < |rows| && j < |rows|
    ensures MinuteMinimum(rows)[i].price <= rows[i].price
    ensures SameBucket(rows[i], rows[j]) ==> MinuteMinimum(rows)[i].price == MinuteMinimum(rows)[j].price
  {
    var r := MinuteMinimum(rows);
    var p, q := r[i].price, r[j].price;
    assert IsBucketMin(rows, rows[i], p) && IsBucketMin(rows, rows[j], q);
    assert SameBucket(rows[i], rows[i]);
    if SameBucket(rows[i], rows[j]) {
      BucketMinUnique(rows, rows[i], rows[j], p, q);
    }
  }

  /** A row of the bucket that has its least price. */
  lemma BucketWitness(rows: seq<Row>, x: Row, p: int) returns (j: nat)
    requires IsBucketMin(rows, x, p)
    ensures j < |rows| && SameBucket(x, rows[j]) && rows[j].price == p
  {
    j :| 0 <= j < |rows| && SameBucket(x, rows[j]) && rows[j].price == p;
  }

  /** A row's bucket minimum is already the least price of its bucket after
      the transform. */
  lemma MinuteMinimumStable(rows: seq<Row>, i: nat)
    requires i < |rows|
    ensures MinuteMinimum(MinuteMinimum(rows))[i] == MinuteMinimum(rows)[i]
  {
    var r := MinuteMinimum(rows);
    var rr := MinuteMinimum(r);
    var p := rr[i].price;
    var j := BucketWitness(r, r[i], p);
    assert r[i] == rows[i].(price := r[i].price) && r[j] == rows[j].(price := r[j].price);
    MinuteMinimumLowersAndEqualises(rows, i, j);
    assert rr[i] == r[i].(price := p);
  }

  /** Applying the transform again changes nothing. */
  lemma MinuteMinimumIdempotent(rows: seq<Row>)
    ensures MinuteMinimum(MinuteMinimum(rows)) == MinuteMinimum(rows)
  {
    forall i | 0 <= i < |rows|
      ensures MinuteMinimum(MinuteMinimum(rows))[i] == MinuteMinimum(rows)[i]
    {
      MinuteMinimumStable(rows, i);
    }
  }

  /** The rows drawn for one instance type. */
  function ChartRows(rows: seq<Row>, instanceType: string, start: int, end: int): (r: seq<Row>)
    ensures forall i :: 0 <= i < |r| ==> r[i].instanceType == instanceType && start < r[i].timestamp < end
  {
    var selected := SelectRows(rows, instanceType, start, end);
    forall i | 0 <= i < |selected|
      ensures MinuteMinimum(selected)[i].instanceType == instanceType
      ensures start < MinuteMinimum(selected)[i].timestamp < end
    {
      MinuteMinimumKeepsFields(selected, i);
      assert selected[i] in selected;
    }
    MinuteMinimum(selected)
  }
}
