/** Data validity: how many readings of each pollutant a station has, and
    what fraction of the station's rows that is. */
module Validity {
  import opened Results
  import opened Counting
  import opened Frames

  /** A reading counts as valid when it is present (`notnull`). */
  predicate IsPresent(v: Option<real>) {
    v.Some?
  }

  /** The valid-reading count for every station and pollutant. Pollutant
      `j` of the list is read from column position `j + 2` of the table,
      whatever its name; a list longer than the table's pollutant columns
      raises an IndexError as soon as there is a station to count. */
  function CountEff(t: Table, stations: seq<string>, pollutants: seq<string>): (r: Result<Grid<nat>, Error>)
    requires WellFormed(t)
    ensures r.Failure? <==> |stations| > 0 && |pollutants| > |t.columns|
    ensures r.Failure? ==> r.error == ColumnOutOfRange(|t.columns| + 2)
    ensures r.Success? ==> Shaped(r.value) && r.value.stations == stations && r.value.pollutants == pollutants
    ensures r.Success? ==>
      forall i, j :: 0 <= i < |stations| && 0 <= j < |pollutants| ==>
        var rows := RowsOf(t.rows, stations[i]);
        && r.value.cells[i][j] == |Hits(Column(rows, j), IsPresent)|
        && r.value.cells[i][j] <= |rows|
  {
    if |stations| > 0 && |pollutants| > |t.columns| then
      Failure(ColumnOutOfRange(|t.columns| + 2))
    else
      Success(Grid(stations, pollutants,
        seq(|stations|, i requires 0 <= i < |stations| =>
          var rows := RowsOf(t.rows, stations[i]);
          seq(|pollutants|, j requires 0 <= j < |pollutants| => Count(Column(rows, j), IsPresent)))))
  }

  /** `valid / total` as the script computes it: a station with no rows
      divides 0 by 0, which gives NaN, modelled as `None`. */
  function Ratio(valid: nat, total: nat): (r: Option<real>)
    requires valid <= total
    ensures r.None? <==> total == 0
    ensures r.Some? ==> 0.0 <= r.value <= 1.0 && r.value == (valid as real) / (total as real)
  {
    if total == 0 then None
    else
      QuotientAtMostOne(valid as real, total as real);
      Some((valid as real) / (total as real))
  }

  lemma QuotientAtMostOne(a: real, b: real)
    requires 0.0 <= a <= b && 0.0 < b
    ensures 0.0 <= a / b <= 1.0
  {
    assert b / b == 1.0;
  }

  /** The validity ratio for every station and pollutant: the valid count
      over the number of the station's rows, a divisor shared by all of the
      station's pollutants. It fails exactly when `CountEff` does. */
  function CalEffRatio(t: Table, stations: seq<string>, pollutants: seq<string>): (r: Result<Grid<Option<real>>, Error>)
    requires WellFormed(t)
    ensures r.Failure? <==> |stations| > 0 && |pollutants| > |t.columns|
    ensures r.Failure? ==> r.error == ColumnOutOfRange(|t.columns| + 2)
    ensures r.Success? ==> Shaped(r.value) && r.value.stations == stations && r.value.pollutants == pollutants
    ensures r.Success? ==>
      forall i, j :: 0 <= i < |stations| && 0 <= j < |pollutants| ==>
        var rows := RowsOf(t.rows, stations[i]);
        var cell := r.value.cells[i][j];
        && (cell.None? <==> |rows| == 0)
        && (cell.Some? ==>
              && 0.0 <= cell.value <= 1.0
              && cell.value == (|Hits(Column(rows, j), IsPresent)| as real) / (|rows| as real))
  {
    if |stations| > 0 && |pollutants| > |t.columns| then
      Failure(ColumnOutOfRange(|t.columns| + 2))
    else
      var cells := seq(|stations|, i requires 0 <= i < |stations| =>
        RatioRow(RowsOf(t.rows, stations[i]), |pollutants|));
      assert forall i :: 0 <= i < |stations| ==> cells[i] == RatioRow(RowsOf(t.rows, stations[i]), |pollutants|);
      Success(Grid(stations, pollutants, cells))
  }

  /** One station's row of the ratio table, over its first `n` columns. */
  function RatioRow(rows: seq<Row>, n: nat): (r: seq<Option<real>>)
    requires forall x :: x in rows ==> n <= |x.values|
    ensures |r| == n
    ensures forall j :: 0 <= j < n ==>
      && (r[j].None? <==> |rows| == 0)
      && (r[j].Some? ==>
            && 0.0 <= r[j].value <= 1.0
            && r[j].value == (|Hits(Column(rows, j), IsPresent)| as real) / (|rows| as real))
  {
    seq(n, j requires 0 <= j < n => Ratio(Count(Column(rows, j), IsPresent), |rows|))
  }

  /** The ratio table agrees with the count table: both fail together, and
      each defined ratio is the valid count over the station's row count. */
  lemma RatioScalesCount(t: Table, stations: seq<string>, pollutants: seq<string>)
    requires WellFormed(t)
    ensures CalEffRatio(t, stations, pollutants).Success? == CountEff(t, stations, pollutants).Success?
    ensures CalEffRatio(t, stations, pollutants).Success? ==>
      var ratio, count := CalEffRatio(t, stations, pollutants).value, CountEff(t, stations, pollutants).value;
      forall i, j :: 0 <= i < |stations| && 0 <= j < |pollutants| && ratio.cells[i][j].Some? ==>
        ratio.cells[i][j].value == (count.cells[i][j] as real) / (|RowsOf(t.rows, stations[i])| as real)
  {
  }

  /** Over the script's own station list every station has rows, so no
      validity ratio is NaN. */
  lemma StationListRatiosDefined(t: Table, pollutants: seq<string>)
    requires WellFormed(t)
    requires |pollutants| <= |t.columns|
    ensures CalEffRatio(t, StationList(t), pollutants).Success?
    ensures var g := CalEffRatio(t, StationList(t), pollutants).value;
      forall i, j :: 0 <= i < |g.stations| && 0 <= j < |pollutants| ==> g.cells[i][j].Some?
  {
  }

  /** The pollutant names only label the result: two lists of the same
      length give the same counts. */
  lemma CountEffIsPositional(t: Table, stations: seq<string>, p1: seq<string>, p2: seq<string>)
    requires WellFormed(t)
    requires |p1| == |p2|
    ensures CountEff(t, stations, p1).Success? == CountEff(t, stations, p2).Success?
    ensures CountEff(t, stations, p1).Success? ==>
      CountEff(t, stations, p1).value.cells == CountEff(t, stations, p2).value.cells
  {
  }
}
