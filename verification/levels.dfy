/** The two-level alarm report: level-2 counts over the level-2 pollutants,
    and level-3 counts from which, for the pollutants that also have a
    level-2 threshold, the level-2 counts are subtracted. */
module Levels {
  import opened Results
  import opened Seqs
  import opened Counting
  import opened Frames
  import opened Thresholds
  import opened Alarms

  /** One pollutant column of a result table, over the stations. */
  function GridColumn(g: Grid<int>, k: nat): (r: seq<int>)
    requires Shaped(g) && k < |g.pollutants|
    ensures |r| == |g.stations|
    ensures forall i :: 0 <= i < |g.stations| ==> r[i] == g.cells[i][k]
  {
    seq(|g.stations|, i requires 0 <= i < |g.stations| => g.cells[i][k])
  }

  /** Column `c` of `g` with `sub` subtracted station by station; every
      other cell is left as it was. */
  function SubtractColumn(g: Grid<int>, c: nat, sub: seq<int>): (r: Grid<int>)
    requires Shaped(g) && c < |g.pollutants| && |sub| == |g.stations|
    ensures Shaped(r) && r.stations == g.stations && r.pollutants == g.pollutants
    ensures forall i, k :: 0 <= i < |g.stations| && 0 <= k < |g.pollutants| ==>
      r.cells[i][k] == if k == c then g.cells[i][k] - sub[i] else g.cells[i][k]
  {
    g.(cells := seq(|g.cells|, i requires 0 <= i < |g.cells| => g.cells[i][c := g.cells[i][c] - sub[i]]))
  }

  /** The level-3 table after the first `n` level-2 pollutants have been
      subtracted, in level-2 order; a level-2 pollutant with no level-3
      column raises a KeyError. */
  function SubtractFirst(level3: Grid<int>, level2: Grid<int>, n: nat): (r: Result<Grid<int>, Error>)
    requires Shaped(level3) && Shaped(level2) && level3.stations == level2.stations
    requires NoDuplicates(level3.pollutants) && NoDuplicates(level2.pollutants)
    requires n <= |level2.pollutants|
    ensures r.Failure? <==> !AllIn(level2.pollutants[..n], level3.pollutants)
    ensures r.Failure? ==> r.error.KeyNotFound? && r.error.name in level2.pollutants && r.error.name !in level3.pollutants
    ensures r.Success? ==> Shaped(r.value) && r.value.stations == level3.stations && r.value.pollutants == level3.pollutants
    ensures r.Success? ==>
      forall i, c :: 0 <= i < |level3.stations| && 0 <= c < |level3.pollutants| ==>
        r.value.cells[i][c] ==
          if level3.pollutants[c] in level2.pollutants[..n]
          then level3.cells[i][c] - level2.cells[i][FirstIndex(level2.pollutants, level3.pollutants[c])]
          else level3.cells[i][c]
    decreases n
  {
    if n == 0 then Success(level3)
    else
      AllInPrefix(level2.pollutants, n, level3.pollutants);
      match SubtractFirst(level3, level2, n - 1)
      case Failure(e) => Failure(e)
      case Success(g) =>
        var name := level2.pollutants[n - 1];
        if name !in g.pollutants then Failure(KeyNotFound(name))
        else
          SubtractStep(level3, level2, n, g);
          Success(SubtractColumn(g, FirstIndex(g.pollutants, name), GridColumn(level2, n - 1)))
  }

  /** Subtracting the `n`-th level-2 column from a table in which the first
      `n - 1` have been subtracted gives the table for the first `n`. */
  lemma SubtractStep(level3: Grid<int>, level2: Grid<int>, n: nat, g: Grid<int>)
    requires Shaped(level3) && Shaped(level2) && level3.stations == level2.stations
    requires NoDuplicates(level3.pollutants) && NoDuplicates(level2.pollutants)
    requires 0 < n <= |level2.pollutants|
    requires level2.pollutants[n - 1] in level3.pollutants
    requires Shaped(g) && g.stations == level3.stations && g.pollutants == level3.pollutants
    requires forall i, c :: 0 <= i < |level3.stations| && 0 <= c < |level3.pollutants| ==>
      g.cells[i][c] ==
        if level3.pollutants[c] in level2.pollutants[..n - 1]
        then level3.cells[i][c] - level2.cells[i][FirstIndex(level2.pollutants, level3.pollutants[c])]
        else level3.cells[i][c]
    ensures var r := SubtractColumn(g, FirstIndex(g.pollutants, level2.pollutants[n - 1]), GridColumn(level2, n - 1));
      forall i, c :: 0 <= i < |level3.stations| && 0 <= c < |level3.pollutants| ==>
        r.cells[i][c] ==
          if level3.pollutants[c] in level2.pollutants[..n]
          then level3.cells[i][c] - level2.cells[i][FirstIndex(level2.pollutants, level3.pollutants[c])]
          else level3.cells[i][c]
  {
    var p := level2.pollutants;
    var name := p[n - 1];
    var c0 := FirstIndex(g.pollutants, name);
    assert p[..n] == p[..n - 1] + [p[n - 1]];
    assert FirstIndex(p, name) == n - 1;
    assert name !in p[..n - 1];
    var r := SubtractColumn(g, c0, GridColumn(level2, n - 1));
    forall i, c | 0 <= i < |level3.stations| && 0 <= c < |level3.pollutants|
      ensures r.cells[i][c] ==
          if level3.pollutants[c] in p[..n]
          then level3.cells[i][c] - level2.cells[i][FirstIndex(p, level3.pollutants[c])]
          else level3.cells[i][c]
    {
      if c != c0 {
        assert level3.pollutants[c] != name;
      }
    }
  }

  /** `level3[pp] = level3[pp] - level2[pp]` for every level-2 pollutant:
      each level-3 column that has a level-2 column loses the level-2
      count station by station, and every other column and every station
      row is unchanged. */
  function SubtractLevel2(level3: Grid<int>, level2: Grid<int>): (r: Result<Grid<int>, Error>)
    requires Shaped(level3) && Shaped(level2) && level3.stations == level2.stations
    requires NoDuplicates(level3.pollutants) && NoDuplicates(level2.pollutants)
    ensures r.Failure? <==> !AllIn(level2.pollutants, level3.pollutants)
    ensures r.Failure? ==> r.error.KeyNotFound? && r.error.name in level2.pollutants && r.error.name !in level3.pollutants
    ensures r.Success? ==> Shaped(r.value) && r.value.stations == level3.stations && r.value.pollutants == level3.pollutants
    ensures r.Success? ==>
      forall i, c :: 0 <= i < |level3.stations| && 0 <= c < |level3.pollutants| ==>
        r.value.cells[i][c] ==
          if level3.pollutants[c] in level2.pollutants
          then level3.cells[i][c] - level2.cells[i][FirstIndex(level2.pollutants, level3.pollutants[c])]
          else level3.cells[i][c]
  {
    assert level2.pollutants[..|level2.pollutants|] == level2.pollutants;
    SubtractFirst(level3, level2, |level2.pollutants|)
  }

  /** One threshold level, from its dictionary: the readings subset of the
      dictionary's pollutants and the alarm table counted on that subset.
      Each cell is the tally of the station's readings of that pollutant in
      the full table against the pollutant's threshold. */
  function LevelAlarms(t: Table, stations: seq<string>, m: ThresholdMap): (r: Result<Grid<int>, Error>)
    requires WellFormed(t) && NoDuplicates(Names(m))
    ensures r.Success? <==> AllIn(Names(m), t.columns)
    ensures r.Failure? ==> r.error.KeyNotFound? && r.error.name in Names(m) && r.error.name !in t.columns
    ensures r.Success? ==> Shaped(r.value) && r.value.stations == stations && r.value.pollutants == Names(m)
    ensures r.Success? ==>
      forall i, k :: 0 <= i < |stations| && 0 <= k < |m| ==>
        m[k].0 in t.columns &&
        r.value.cells[i][k] == AlarmTally(Column(RowsOf(t.rows, stations[i]), FirstIndex(t.columns, m[k].0)), m[k].1)
  {
    var subset :- SelectColumns(t, Names(m));
    LevelAlarmsCells(t, stations, m, subset);
    CountAlarm(subset, stations, m)
  }

  /** The alarm table of the subset, cell by cell, in terms of the full
      table. */
  lemma LevelAlarmsCells(t: Table, stations: seq<string>, m: ThresholdMap, subset: Table)
    requires WellFormed(t) && NoDuplicates(Names(m))
    requires SelectColumns(t, Names(m)) == Success(subset)
    ensures WellFormed(subset)
    ensures CountAlarm(subset, stations, m).Success?
    ensures var g := CountAlarm(subset, stations, m).value;
      forall i, k :: 0 <= i < |stations| && 0 <= k < |m| ==>
        m[k].0 in t.columns &&
        g.cells[i][k] == AlarmTally(Column(RowsOf(t.rows, stations[i]), FirstIndex(t.columns, m[k].0)), m[k].1)
  {
    assert AllIn(Names(m), subset.columns);
    forall i, k | 0 <= i < |stations| && 0 <= k < |m|
      ensures m[k].0 in t.columns &&
        CountAlarm(subset, stations, m).value.cells[i][k] ==
          AlarmTally(Column(RowsOf(t.rows, stations[i]), FirstIndex(t.columns, m[k].0)), m[k].1)
    {
      LevelCell(t, stations, m, subset, i, k);
    }
  }

  lemma LevelCell(t: Table, stations: seq<string>, m: ThresholdMap, subset: Table, i: nat, k: nat)
    requires WellFormed(t)
    requires NoDuplicates(Names(m))
    requires SelectColumns(t, Names(m)) == Success(subset)
    requires CountAlarm(subset, stations, m).Success?
    requires i < |stations| && k < |m|
    ensures m[k].0 in t.columns
    ensures CountAlarm(subset, stations, m).value.cells[i][k] ==
      AlarmTally(Column(RowsOf(t.rows, stations[i]), FirstIndex(t.columns, m[k].0)), m[k].1)
  {
    assert m[k].0 == Names(m)[k];
    SelectedColumnOfStation(t, Names(m), subset, stations[i], k);
    assert FirstIndex(subset.columns, m[k].0) == k;
  }

  /** The two alarm tables the script writes. */
  datatype AlarmReport = AlarmReport(level2: Grid<int>, level3Only: Grid<int>)

  /** The script from the two threshold dictionaries to the two alarm
      tables: the level-3 and level-2 alarm tables, then the level-2 counts
      subtracted from the level-3 counts of the pollutants that have both. */
  function AlarmLevels(t: Table, stations: seq<string>, level3: ThresholdMap, level2: ThresholdMap)
    : (r: Result<AlarmReport, Error>)
    requires WellFormed(t) && NoDuplicates(Names(level3)) && NoDuplicates(Names(level2))
    ensures r.Success? <==>
      && AllIn(Names(level3), t.columns)
      && AllIn(Names(level2), t.columns)
      && AllIn(Names(level2), Names(level3))
    ensures r.Success? ==>
      && r.value.level2 == LevelAlarms(t, stations, level2).value
      && Shaped(r.value.level3Only) && r.value.level3Only.stations == stations
      && r.value.level3Only.pollutants == Names(level3)
  {
    var alarms3 :- LevelAlarms(t, stations, level3);
    var alarms2 :- LevelAlarms(t, stations, level2);
    var level3Only :- SubtractLevel2(alarms3, alarms2);
    Success(AlarmReport(alarms2, level3Only))
  }

  /** The report built from the two limits tables fails exactly when a
      limits name is not a column or a level-2 name has no level-3 limit. */
  lemma ReportFromLimits(t: Table, stations: seq<string>, level3Limits: seq<(string, real)>, level2Limits: seq<(string, real)>)
    requires WellFormed(t)
    ensures NoDuplicates(Names(BuildThresholds(level3Limits))) && NoDuplicates(Names(BuildThresholds(level2Limits)))
    ensures AlarmLevels(t, stations, BuildThresholds(level3Limits), BuildThresholds(level2Limits)).Success? <==>
      && AllIn(Names(level3Limits), t.columns)
      && AllIn(Names(level2Limits), t.columns)
      && AllIn(Names(level2Limits), Names(level3Limits))
  {
    AllInDistinct(Names(level3Limits), t.columns);
    AllInDistinct(Names(level2Limits), t.columns);
    AllInDistinct(Names(level2Limits), Names(level3Limits));
    AllInDistinct(Names(level2Limits), Distinct(Names(level3Limits)));
  }

  /** Each level-3-only cell is the station's level-3 tally of that
      pollutant, less its level-2 tally when the pollutant has a level-2
      threshold. */
  lemma Level3OnlyCell(t: Table, stations: seq<string>, level3: ThresholdMap, level2: ThresholdMap, i: nat, c: nat)
    requires WellFormed(t) && NoDuplicates(Names(level3)) && NoDuplicates(Names(level2))
    requires AlarmLevels(t, stations, level3, level2).Success?
    requires i < |stations| && c < |level3|
    ensures var name := level3[c].0;
      && name in t.columns
      && var col := Column(RowsOf(t.rows, stations[i]), FirstIndex(t.columns, name));
         AlarmLevels(t, stations, level3, level2).value.level3Only.cells[i][c] ==
           AlarmTally(col, level3[c].1) - (if name in Names(level2) then AlarmTally(col, Lookup(level2, name)) else 0)
  {
    var alarms3 := LevelAlarms(t, stations, level3).value;
    var alarms2 := LevelAlarms(t, stations, level2).value;
    var name := level3[c].0;
    assert AlarmLevels(t, stations, level3, level2).value.level3Only == SubtractLevel2(alarms3, alarms2).value;
    assert alarms3.pollutants[c] == Names(level3)[c] == name;
    var col := Column(RowsOf(t.rows, stations[i]), FirstIndex(t.columns, name));
    assert alarms3.cells[i][c] == AlarmTally(col, level3[c].1);
    if name in Names(level2) {
      var k := FirstIndex(Names(level2), name);
      assert level2[k].0 == name;
      assert alarms2.cells[i][k] == AlarmTally(col, Lookup(level2, name));
    }
  }

  /** With thresholds 0 <= level-3 <= level-2, the level-3-only count of a
      pollutant with both thresholds is the number of the station's readings
      above the level-3 and at most the level-2 threshold. */
  lemma Level3OnlyIsBand(t: Table, stations: seq<string>, level3: ThresholdMap, level2: ThresholdMap, i: nat, c: nat)
    requires WellFormed(t) && NoDuplicates(Names(level3)) && NoDuplicates(Names(level2))
    requires AlarmLevels(t, stations, level3, level2).Success?
    requires i < |stations| && c < |level3|
    requires level3[c].0 in Names(level2) && 0.0 <= level3[c].1 <= Lookup(level2, level3[c].0)
    ensures level3[c].0 in t.columns
    ensures AlarmLevels(t, stations, level3, level2).value.level3Only.cells[i][c] ==
      |Hits(Column(RowsOf(t.rows, stations[i]), FirstIndex(t.columns, level3[c].0)),
            InBand(level3[c].1, Lookup(level2, level3[c].0)))|
  {
    Level3OnlyCell(t, stations, level3, level2, i, c);
    var col := Column(RowsOf(t.rows, stations[i]), FirstIndex(t.columns, level3[c].0));
    AlarmTallyBand(col, level3[c].1, Lookup(level2, level3[c].0));
  }

  /** A level-3 threshold at or below the level-2 threshold never yields a
      negative level-3-only count, whatever the signs of the thresholds. */
  lemma Level3OnlyNonnegative(t: Table, stations: seq<string>, level3: ThresholdMap, level2: ThresholdMap, i: nat, c: nat)
    requires WellFormed(t) && NoDuplicates(Names(level3)) && NoDuplicates(Names(level2))
    requires AlarmLevels(t, stations, level3, level2).Success?
    requires i < |stations| && c < |level3|
    requires level3[c].0 in Names(level2) ==> level3[c].1 <= Lookup(level2, level3[c].0)
    ensures AlarmLevels(t, stations, level3, level2).value.level3Only.cells[i][c] >= 0
  {
    Level3OnlyCell(t, stations, level3, level2, i, c);
    if level3[c].0 in Names(level2) {
      var col := Column(RowsOf(t.rows, stations[i]), FirstIndex(t.columns, level3[c].0));
      AlarmTallyMonotone(col, level3[c].1, Lookup(level2, level3[c].0));
    }
  }

  /** The subtraction does not check the thresholds: with a level-3
      threshold `hi` above a level-2 threshold `lo` and `hi >= 0`, one
      station with one reading equal to `hi` gets a level-3-only count of -1. */
  lemma InvertedLimitsGoNegative(lo: real, hi: real, pollutant: string, station: string, time: string)
    requires lo < hi && 0.0 <= hi
    ensures var t := Table([pollutant], [Row(station, time, [Some(hi)])]);
      && WellFormed(t)
      && AlarmLevels(t, [station], [(pollutant, hi)], [(pollutant, lo)]).Success?
      && AlarmLevels(t, [station], [(pollutant, hi)], [(pollutant, lo)]).value.level3Only.cells[0][0] == -1
  {
    var t := Table([pollutant], [Row(station, time, [Some(hi)])]);
    var m3, m2 := [(pollutant, hi)], [(pollutant, lo)];
    assert WellFormed(t);
    assert Names(m3) == [pollutant] && Names(m2) == [pollutant];
    assert AllIn([pollutant], [pollutant]);
    assert Lookup(m2, pollutant) == lo;
    InvertedLimitsCell(t, station, pollutant, hi, lo);
    Level3OnlyCell(t, [station], m3, m2, 0, 0);
  }

  lemma InvertedLimitsCell(t: Table, station: string, pollutant: string, hi: real, lo: real)
    requires lo < hi && 0.0 <= hi
    requires t.columns == [pollutant] && |t.rows| == 1
    requires t.rows[0].station == station && t.rows[0].values == [Some(hi)]
    ensures forall x :: x in t.rows ==> 0 < |x.values|
    ensures var col := Column(RowsOf(t.rows, station), FirstIndex(t.columns, pollutant));
      AlarmTally(col, hi) == 0 && AlarmTally(col, lo) == 1
  {
    assert RowsOf(t.rows, station) == t.rows by {
      assert t.rows[..0] == [];
    }
    var col := Column(t.rows, 0);
    assert col == [Some(hi)];
    assert Hits(col, Exceeds(hi)) == {};
    assert Hits(col, Exceeds(lo)) == {0};
  }
}
