/** The time range the persisted table already covers, per availability zone
    (update.py:43-46), and the fixed fallback used when loading fails
    (update.py:48-52). */
module Coverage {
  import opened Rows

  /** `datetime.min` (0001-01-01T00:00:00) in seconds since the Unix epoch. */
  const MinInstant: int := -62135596800
  /** `datetime.max` (9999-12-31T23:59:59.999999) truncated to whole seconds. */
  const MaxInstant: int := 253402300799

  /** The two aggregates of the loaded table: the latest of the per-zone
      earliest timestamps and the earliest of the per-zone latest timestamps.
      `NoSamples` is what an empty table yields (both aggregates are NaT). */
  datatype Window = NoSamples | Window(minTimestamp: int, maxTimestamp: int)

  predicate HasZone(rows: seq<Row>, zone: string)
  {
    exists i :: 0 <= i < |rows| && rows[i].zone == zone
  }

  /** Earliest timestamp recorded for `zone`. */
  function ZoneMin(rows: seq<Row>, zone: string): (t: int)
    requires HasZone(rows, zone)
    ensures exists i :: 0 <= i < |rows| && rows[i].zone == zone && rows[i].timestamp == t
    ensures forall i :: 0 <= i < |rows| && rows[i].zone == zone ==> t <= rows[i].timestamp
    decreases |rows|
  {
    var n := |rows| - 1;
    if !HasZone(rows[..n], zone) then rows[n].timestamp
    else
      var t := ZoneMin(rows[..n], zone);
      if rows[n].zone == zone && rows[n].timestamp < t then rows[n].timestamp else t
  }

  /** Latest timestamp recorded for `zone`. */
  function ZoneMax(rows: seq<Row>, zone: string): (t: int)
    requires HasZone(rows, zone)
    ensures exists i :: 0 <= i < |rows| && rows[i].zone == zone && rows[i].timestamp == t
    ensures forall i :: 0 <= i < |rows| && rows[i].zone == zone ==> rows[i].timestamp <= t
    decreases |rows|
  {
    var n := |rows| - 1;
    if !HasZone(rows[..n], zone) then rows[n].timestamp
    else
      var t := ZoneMax(rows[..n], zone);
      if rows[n].zone == zone && t < rows[n].timestamp then rows[n].timestamp else t
  }

  /** `zone` occurs among rows[..k]. */
  predicate ZoneAmong(rows: seq<Row>, k: nat, zone: string)
  {
    exists i :: 0 <= i < k && i < |rows| && rows[i].zone == zone
  }

  /** The zones of rows[..k] are those of rows[..k-1] and the zone of row k-1,
      and each of them is a zone of the table. */
  lemma ZoneAmongStep(rows: seq<Row>, k: nat)
    requires 0 < k <= |rows|
    ensures forall y :: ZoneAmong(rows, k, y) <==> ZoneAmong(rows, k - 1, y) || y == rows[k - 1].zone
    ensures forall y :: ZoneAmong(rows, k, y) ==> HasZone(rows, y)
  {
    assert ZoneAmong(rows, k, rows[k - 1].zone);
  }

  /** The greatest per-zone minimum over the zones of rows[..k]. */
  function LatestZoneMin(rows: seq<Row>, k: nat): (t: int)
    requires 0 < k <= |rows|
    ensures forall z :: ZoneAmong(rows, k, z) ==> HasZone(rows, z) && ZoneMin(rows, z) <= t
    ensures exists z :: ZoneAmong(rows, k, z) && HasZone(rows, z) && ZoneMin(rows, z) == t
  {
    var z := rows[k - 1].zone;
    assert ZoneAmong(rows, k, z) && HasZone(rows, z);
    var here := ZoneMin(rows, z);
    if k == 1 then here
    else
      var before := LatestZoneMin(rows, k - 1);
      ZoneAmongStep(rows, k);
      if before < here then here else before
  }

  /** The least per-zone maximum over the zones of rows[..k]. */
  function EarliestZoneMax(rows: seq<Row>, k: nat): (t: int)
    requires 0 < k <= |rows|
    ensures forall z :: ZoneAmong(rows, k, z) ==> HasZone(rows, z) && t <= ZoneMax(rows, z)
    ensures exists z :: ZoneAmong(rows, k, z) && HasZone(rows, z) && ZoneMax(rows, z) == t
  {
    var z := rows[k - 1].zone;
    assert ZoneAmong(rows, k, z) && HasZone(rows, z);
    var here := ZoneMax(rows, z);
    if k == 1 then here
    else
      var before := EarliestZoneMax(rows, k - 1);
      ZoneAmongStep(rows, k);
      if here < before then here else before
  }

  /** `min_timestamp` and `max_timestamp` of a successfully loaded table. */
  function CoverageOf(rows: seq<Row>): (w: Window)
    ensures w.NoSamples? <==> rows == []
  {
    if rows == [] then NoSamples
    else Window(LatestZoneMin(rows, |rows|), EarliestZoneMax(rows, |rows|))
  }

  /** The aggregates used after a failed load: `datetime.max` as the minimum
      and `datetime.min` as the maximum. */
  function FallbackWindow(): (w: Window)
    ensures w.Window? && w.maxTimestamp < w.minTimestamp
  {
    Window(MaxInstant, MinInstant)
  }

  /** Every zone of the table has a sample at or before `t`. */
  ghost predicate EveryZoneSampledBy(rows: seq<Row>, t: int)
  {
    forall z :: HasZone(rows, z) ==>
      exists j :: 0 <= j < |rows| && rows[j].zone == z && rows[j].timestamp <= t
  }

  /** Every zone of the table has a sample at or after `t`. */
  ghost predicate EveryZoneSampledFrom(rows: seq<Row>, t: int)
  {
    forall z :: HasZone(rows, z) ==>
      exists j :: 0 <= j < |rows| && rows[j].zone == z && t <= rows[j].timestamp
  }

  lemma ZoneAmongAll(rows: seq<Row>, z: string)
    ensures ZoneAmong(rows, |rows|, z) <==> HasZone(rows, z)
  {
  }

  /** `min_timestamp` is the earliest instant by which every zone has a
      sample: every zone has one at or before it, and at any earlier instant
      some zone has none yet. */
  lemma MinTimestampIsEarliestFullCoverage(rows: seq<Row>, t: int)
    requires rows != []
    ensures EveryZoneSampledBy(rows, t) <==> CoverageOf(rows).minTimestamp <= t
  {
    var m := LatestZoneMin(rows, |rows|);
    if m <= t {
      forall z | HasZone(rows, z)
        ensures exists j :: 0 <= j < |rows| && rows[j].zone == z && rows[j].timestamp <= t
      {
        ZoneAmongAll(rows, z);
        assert ZoneMin(rows, z) <= m;
      }
    }
    if EveryZoneSampledBy(rows, t) {
      var z :| ZoneAmong(rows, |rows|, z) && HasZone(rows, z) && ZoneMin(rows, z) == m;
      var j :| 0 <= j < |rows| && rows[j].zone == z && rows[j].timestamp <= t;
      assert ZoneMin(rows, z) <= rows[j].timestamp;
    }
  }

  /** `max_timestamp` is the latest instant from which every zone still has a
      sample: every zone has one at or after it, and at any later instant
      some zone has none. */
  lemma MaxTimestampIsLatestFullCoverage(rows: seq<Row>, t: int)
    requires rows != []
    ensures EveryZoneSampledFrom(rows, t) <==> t <= CoverageOf(rows).maxTimestamp
  {
    var m := EarliestZoneMax(rows, |rows|);
    if t <= m {
      forall z | HasZone(rows, z)
        ensures exists j :: 0 <= j < |rows| && rows[j].zone == z && t <= rows[j].timestamp
      {
        ZoneAmongAll(rows, z);
        assert m <= ZoneMax(rows, z);
      }
    }
    if EveryZoneSampledFrom(rows, t) {
      var z :| ZoneAmong(rows, |rows|, z) && HasZone(rows, z) && ZoneMax(rows, z) == m;
      var j :| 0 <= j < |rows| && rows[j].zone == z && t <= rows[j].timestamp;
      assert rows[j].timestamp <= ZoneMax(rows, z);
    }
  }
}
