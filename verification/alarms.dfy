/** Alarm counting: per station and pollutant, how many hourly readings
    exceed the pollutant's threshold. */
module Alarms {
  import opened Results
  import opened Seqs
  import opened Counting
  import opened Frames
  import opened Thresholds

  /** A blank cell is read as 0 (`fillna(0)`). */
  function FillMissing(v: Option<real>): real {
    match v
    case None => 0.0
    case Some(x) => x
  }

  /** A present reading strictly above `t`. */
  function Exceeds(t: real): Option<real> -> bool {
    (v: Option<real>) => v.Some? && v.value > t
  }

  /** A present reading above `lo` and at most `hi`. */
  function InBand(lo: real, hi: real): Option<real> -> bool {
    (v: Option<real>) => v.Some? && lo < v.value <= hi
  }

  /** The mark a cell ends up with: blanks are filled with 0, values at or
      below `t` are set to 0, and then values above `t` are set to 1. A
      reading above `t` always marks 1; with a negative `t` the zeroed cells
      are above `t` too, so every cell marks 1. */
  function Mark(v: Option<real>, t: real): (m: real)
    ensures m == (if Exceeds(t)(v) || t < 0.0 then 1.0 else 0.0)
  {
    var filled := FillMissing(v);
    var zeroed := if filled <= t then 0.0 else filled;
    if zeroed > t then 1.0 else zeroed
  }

  /** What a station's column tallies against threshold `t`: with `t >= 0`
      the present readings strictly above `t`; with `t < 0` every row. */
  function AlarmTally(col: seq<Option<real>>, t: real): (n: nat)
    ensures n <= |col|
  {
    HitsBounded(col, Exceeds(t));
    if t < 0.0 then |col| else |Hits(col, Exceeds(t))|
  }

  /** The column sum of the marks. */
  function MarkSum(col: seq<Option<real>>, t: real): (r: real)
    ensures r == AlarmTally(col, t) as real
    decreases |col|
  {
    if |col| == 0 then 0.0
    else
      HitsOfSnoc(col, Exceeds(t));
      MarkSum(col[..|col| - 1], t) + Mark(col[|col| - 1], t)
  }

  /** One station's row of the alarm table: for each dictionary entry, the
      marks of its column summed. */
  function AlarmRow(t: Table, rows: seq<Row>, m: ThresholdMap): (r: seq<int>)
    requires forall k :: 0 <= k < |m| ==> m[k].0 in t.columns
    requires forall x :: x in rows ==> |x.values| == |t.columns|
    ensures |r| == |m|
    ensures forall k :: 0 <= k < |m| ==> r[k] == AlarmTally(Column(rows, FirstIndex(t.columns, m[k].0)), m[k].1)
  {
    seq(|m|, k requires 0 <= k < |m| => MarkSum(Column(rows, FirstIndex(t.columns, m[k].0)), m[k].1).Floor)
  }

  /** The alarm table: for every station and every dictionary entry, the
      number of the station's readings that exceed the entry's threshold,
      a blank reading never counting when the threshold is not negative.
      A dictionary name that is not a column of `t` raises a KeyError as
      soon as there is a station to count. */
  function CountAlarm(t: Table, stations: seq<string>, m: ThresholdMap): (r: Result<Grid<int>, Error>)
    requires WellFormed(t)
    ensures r.Failure? <==> |stations| > 0 && !AllIn(Names(m), t.columns)
    ensures r.Failure? ==> r.error.KeyNotFound? && r.error.name in Names(m) && r.error.name !in t.columns
    ensures r.Success? ==> Shaped(r.value) && r.value.stations == stations && r.value.pollutants == Names(m)
    ensures r.Success? ==>
      forall i, k :: 0 <= i < |stations| && 0 <= k < |m| ==>
        r.value.cells[i][k] == AlarmTally(Column(RowsOf(t.rows, stations[i]), FirstIndex(t.columns, m[k].0)), m[k].1)
  {
    match if |stations| == 0 then None else FirstAbsent(Names(m), t.columns)
    case Some(k) => Failure(KeyNotFound(m[k].0))
    case None =>
      assert forall k :: 0 <= k < |m| ==> m[k].0 == Names(m)[k];
      var cells := seq(|stations|, i requires 0 <= i < |stations| => AlarmRow(t, RowsOf(t.rows, stations[i]), m));
      assert forall i :: 0 <= i < |stations| ==> cells[i] == AlarmRow(t, RowsOf(t.rows, stations[i]), m);
      Success(Grid(stations, Names(m), cells))
  }

  /** Lowering a threshold never lowers the tally. */
  lemma AlarmTallyMonotone(col: seq<Option<real>>, lower: real, upper: real)
    requires lower <= upper
    ensures AlarmTally(col, upper) <= AlarmTally(col, lower)
  {
    if lower >= 0.0 {
      CountMonotone(col, Exceeds(upper), Exceeds(lower));
    }
  }

  /** Between two nonnegative thresholds, the tally against the lower one
      exceeds the tally against the higher one by exactly the readings in
      the band above the lower and at most the higher threshold. */
  lemma AlarmTallyBand(col: seq<Option<real>>, lower: real, upper: real)
    requires 0.0 <= lower <= upper
    ensures AlarmTally(col, lower) - AlarmTally(col, upper) == |Hits(col, InBand(lower, upper))|
  {
    CountDifference(col, Exceeds(lower), Exceeds(upper));
    CountCongruent(col, Without(Exceeds(lower), Exceeds(upper)), InBand(lower, upper));
  }

  /** The alarm table is monotone in the thresholds: a dictionary with the
      same names and pointwise lower thresholds gives every station at least
      as many alarms for every pollutant. */
  lemma CountAlarmMonotone(t: Table, stations: seq<string>, lower: ThresholdMap, upper: ThresholdMap)
    requires WellFormed(t)
    requires Names(lower) == Names(upper)
    requires forall k :: 0 <= k < |lower| ==> lower[k].1 <= upper[k].1
    ensures CountAlarm(t, stations, lower).Success? == CountAlarm(t, stations, upper).Success?
    ensures CountAlarm(t, stations, upper).Success? ==>
      var lo, hi := CountAlarm(t, stations, lower).value, CountAlarm(t, stations, upper).value;
      forall i, k :: 0 <= i < |stations| && 0 <= k < |upper| ==> lo.cells[i][k] >= hi.cells[i][k]
  {
    assert forall k :: 0 <= k < |lower| ==> lower[k].0 == Names(lower)[k] == upper[k].0;
    if CountAlarm(t, stations, upper).Success? {
      forall i, k | 0 <= i < |stations| && 0 <= k < |upper|
        ensures CountAlarm(t, stations, lower).value.cells[i][k] >= CountAlarm(t, stations, upper).value.cells[i][k]
      {
        var col := Column(RowsOf(t.rows, stations[i]), FirstIndex(t.columns, upper[k].0));
        AlarmTallyMonotone(col, lower[k].1, upper[k].1);
      }
    }
  }
}
