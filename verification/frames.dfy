/** The in-memory tables of the script: hourly readings and the
    station-by-pollutant result tables, with the glue that derives the
    station list and the per-subset readings tables. */
module Frames {
  import opened Results
  import opened Seqs
  import opened Counting

  /** One hourly reading: the station (column 0), the timestamp (column 1)
      and one optional value per pollutant column, in column order. A blank
      cell is `None`, which is distinct from a reading of zero. */
  datatype Row = Row(station: string, time: string, values: seq<Option<real>>)

  /** A readings table. `columns` names the pollutant columns that follow the
      station and time columns, so pandas position `jj + 2` is `values[jj]`. */
  datatype Table = Table(columns: seq<string>, rows: seq<Row>)

  /** A result table indexed by station (rows) and pollutant (columns). */
  datatype Grid<+T> = Grid(stations: seq<string>, pollutants: seq<string>, cells: seq<seq<T>>)

  /** The exceptions the script can raise once its tables are loaded. */
  datatype Error =
    | ColumnOutOfRange(position: nat)   // a column position past the last column (IndexError)
    | KeyNotFound(name: string)         // a label that is not a column (KeyError)

  /** Every row has one cell per pollutant column, as in a DataFrame. */
  predicate WellFormed(t: Table) {
    forall r :: r in t.rows ==> |r.values| == |t.columns|
  }

  /** One cell per (station, pollutant) pair. */
  predicate Shaped<T>(g: Grid<T>) {
    && |g.cells| == |g.stations|
    && forall i :: 0 <= i < |g.cells| ==> |g.cells[i]| == |g.pollutants|
  }

  /** The station column. */
  function StationColumn(rows: seq<Row>): (r: seq<string>)
    ensures |r| == |rows|
    ensures forall i :: 0 <= i < |rows| ==> r[i] == rows[i].station
  {
    seq(|rows|, i requires 0 <= i < |rows| => rows[i].station)
  }

  /** Whether a station name is `s`. */
  function AtStation(s: string): string -> bool {
    (x: string) => x == s
  }

  /** The rows of one station, in table order. */
  function RowsOf(rows: seq<Row>, s: string): (r: seq<Row>)
    ensures |r| <= |rows|
    ensures forall x :: x in r ==> x in rows && x.station == s
    ensures |r| == 0 <==> forall i :: 0 <= i < |rows| ==> rows[i].station != s
    decreases |rows|
  {
    if |rows| == 0 then []
    else
      var n := |rows| - 1;
      var before := RowsOf(rows[..n], s);
      assert forall i :: 0 <= i < n ==> rows[..n][i] == rows[i];
      if rows[n].station == s then before + [rows[n]] else before
  }

  /** The station filter keeps every row of the station. */
  lemma {:induction false} RowsOfKeepsAll(rows: seq<Row>, s: string)
    ensures forall i :: 0 <= i < |rows| && rows[i].station == s ==> rows[i] in RowsOf(rows, s)
    decreases |rows|
  {
    if |rows| > 0 {
      var n := |rows| - 1;
      var before := RowsOf(rows[..n], s);
      RowsOfKeepsAll(rows[..n], s);
      forall i | 0 <= i < |rows| && rows[i].station == s
        ensures rows[i] in RowsOf(rows, s)
      {
        if i < n {
          assert rows[..n][i] == rows[i];
          assert rows[i] in before;
        }
      }
    }
  }

  /** The station filter keeps as many rows as the station column has
      entries equal to `s`. */
  lemma {:induction false} RowsOfCount(rows: seq<Row>, s: string)
    ensures |RowsOf(rows, s)| == |Hits(StationColumn(rows), AtStation(s))|
    decreases |rows|
  {
    if |rows| > 0 {
      var n := |rows| - 1;
      var names := StationColumn(rows);
      var before := Hits(names[..n], AtStation(s));
      RowsOfCount(rows[..n], s);
      assert names[..n] == StationColumn(rows[..n]);
      assert |RowsOf(rows[..n], s)| == |before|;
      HitsOfSnoc(names, AtStation(s));
      if rows[n].station == s {
        assert AtStation(s)(names[n]);
        assert Hits(names, AtStation(s)) == before + {n};
        assert |before + {n}| == |before| + 1;
        assert RowsOf(rows, s) == RowsOf(rows[..n], s) + [rows[n]];
      } else {
        assert !AtStation(s)(names[n]);
        assert Hits(names, AtStation(s)) == before;
        assert RowsOf(rows, s) == RowsOf(rows[..n], s);
      }
    }
  }

  /** A row predicate restricted to the rows of station `s`. */
  function AtStationAnd(s: string, p: Row -> bool): Row -> bool {
    (x: Row) => x.station == s && p(x)
  }

  /** The station filter keeps each row of the station exactly once: for any
      row predicate, the station's rows that satisfy it are as many as the
      table's rows that belong to the station and satisfy it. */
  lemma {:induction false} RowsOfHits(rows: seq<Row>, s: string, p: Row -> bool)
    ensures |Hits(RowsOf(rows, s), p)| == |Hits(rows, AtStationAnd(s, p))|
    decreases |rows|
  {
    if |rows| > 0 {
      var n := |rows| - 1;
      var q := AtStationAnd(s, p);
      var before := RowsOf(rows[..n], s);
      RowsOfHits(rows[..n], s, p);
      assert Count(rows, q) == Count(rows[..n], q) + (if q(rows[n]) then 1 else 0);
      if rows[n].station == s {
        var r := before + [rows[n]];
        assert RowsOf(rows, s) == r;
        assert r[..|r| - 1] == before;
        assert Count(r, p) == Count(before, p) + (if p(rows[n]) then 1 else 0);
        assert q(rows[n]) == p(rows[n]);
      } else {
        assert RowsOf(rows, s) == before;
        assert !q(rows[n]);
      }
    }
  }

  /** The values of one pollutant column. */
  function Column(rows: seq<Row>, j: nat): (c: seq<Option<real>>)
    requires forall x :: x in rows ==> j < |x.values|
    ensures |c| == |rows|
  {
    seq(|rows|, i requires 0 <= i < |rows| => rows[i].values[j])
  }

  /** The station list: the distinct station names in first-seen order. */
  function StationList(t: Table): (r: seq<string>)
    ensures NoDuplicates(r)
    ensures forall i :: 0 <= i < |t.rows| ==> t.rows[i].station in r
    ensures forall i :: 0 <= i < |r| ==> |RowsOf(t.rows, r[i])| > 0
    ensures FirstSeenOrder(r, StationColumn(t.rows))
  {
    var names := StationColumn(t.rows);
    var r := Distinct(names);
    DistinctOrdered(names);
    assert forall i :: 0 <= i < |t.rows| ==> names[i] in r;
    forall i | 0 <= i < |r|
      ensures |RowsOf(t.rows, r[i])| > 0
    {
      var k :| 0 <= k < |names| && names[k] == r[i];
    }
    r
  }

  /** A row restricted to the given column positions. */
  function ProjectRow(row: Row, positions: seq<nat>): (r: Row)
    requires forall k :: 0 <= k < |positions| ==> positions[k] < |row.values|
  {
    Row(row.station, row.time, seq(|positions|, k requires 0 <= k < |positions| => row.values[positions[k]]))
  }

  /** A readings table holding the station and time columns plus the named
      pollutant columns, in the order named; a name that is not a column of
      `t` raises a KeyError. */
  function SelectColumns(t: Table, names: seq<string>): (r: Result<Table, Error>)
    requires WellFormed(t)
    ensures r.Failure? <==> !AllIn(names, t.columns)
    ensures r.Failure? ==> r.error.KeyNotFound? && r.error.name in names && r.error.name !in t.columns
    ensures r.Success? ==>
      && WellFormed(r.value)
      && r.value.columns == names
      && |r.value.rows| == |t.rows|
      && forall i :: 0 <= i < |t.rows| ==>
           && r.value.rows[i].station == t.rows[i].station
           && r.value.rows[i].time == t.rows[i].time
    ensures r.Success? ==>
      forall i, k :: 0 <= i < |t.rows| && 0 <= k < |names| ==>
        r.value.rows[i].values[k] == t.rows[i].values[FirstIndex(t.columns, names[k])]
  {
    match FirstAbsent(names, t.columns)
    case Some(k) => Failure(KeyNotFound(names[k]))
    case None =>
      var positions := seq(|names|, k requires 0 <= k < |names| => FirstIndex(t.columns, names[k]));
      assert forall i :: 0 <= i < |t.rows| ==> t.rows[i] in t.rows;
      var rows := seq(|t.rows|, i requires 0 <= i < |t.rows| => ProjectRow(t.rows[i], positions));
      assert forall x :: x in rows ==> |x.values| == |names|;
      Success(Table(names, rows))
  }

  /** The column of a station's rows grows by the last row exactly when
      that row belongs to the station. */
  lemma ColumnOfRowsOfUnfold(rows: seq<Row>, s: string, j: nat)
    requires |rows| > 0
    requires forall x :: x in rows ==> j < |x.values|
    ensures forall x :: x in rows[..|rows| - 1] ==> j < |x.values|
    ensures Column(RowsOf(rows, s), j) ==
      Column(RowsOf(rows[..|rows| - 1], s), j) + (if rows[|rows| - 1].station == s then [rows[|rows| - 1].values[j]] else [])
  {
    var n := |rows| - 1;
    assert forall x :: x in rows[..n] ==> x in rows;
    var before := RowsOf(rows[..n], s);
    if rows[n].station == s {
      assert RowsOf(rows, s) == before + [rows[n]];
      assert rows[n] in rows;
      assert Column(before + [rows[n]], j) == Column(before, j) + [rows[n].values[j]];
    } else {
      assert RowsOf(rows, s) == before;
    }
  }

  /** Two row sequences that agree on stations and on one column each give
      each station the same values in that column. */
  lemma {:induction false} RowsOfColumnTransfer(a: seq<Row>, ka: nat, b: seq<Row>, kb: nat, s: string)
    requires |a| == |b|
    requires forall x :: x in a ==> ka < |x.values|
    requires forall x :: x in b ==> kb < |x.values|
    requires forall i :: 0 <= i < |a| ==> a[i].station == b[i].station && a[i].values[ka] == b[i].values[kb]
    ensures Column(RowsOf(a, s), ka) == Column(RowsOf(b, s), kb)
    decreases |a|
  {
    if |a| > 0 {
      var n := |a| - 1;
      ColumnOfRowsOfUnfold(a, s, ka);
      ColumnOfRowsOfUnfold(b, s, kb);
      RowsOfColumnTransfer(a[..n], ka, b[..n], kb, s);
    }
  }

  /** A column of a readings subset holds, station by station, the values of
      the original column of the same name. */
  lemma SelectedColumnOfStation(t: Table, names: seq<string>, subset: Table, s: string, k: nat)
    requires WellFormed(t)
    requires SelectColumns(t, names) == Success(subset)
    requires k < |names|
    ensures WellFormed(subset) && subset.columns == names
    ensures names[k] in t.columns
    ensures forall x :: x in t.rows ==> FirstIndex(t.columns, names[k]) < |x.values|
    ensures Column(RowsOf(subset.rows, s), k) == Column(RowsOf(t.rows, s), FirstIndex(t.columns, names[k]))
  {
    var c := FirstIndex(t.columns, names[k]);
    RowsOfColumnTransfer(subset.rows, k, t.rows, c, s);
  }

  /** The merged readings table: every column of `a`, then the pollutant
      columns of `b` (its station and time columns dropped), rows paired by
      position. A row of `a` with no partner in `b` gets blanks in `b`'s
      columns. */
  function Merge(a: Table, b: Table): (r: Table)
    requires WellFormed(a) && WellFormed(b)
    requires |b.rows| <= |a.rows|
    ensures WellFormed(r)
    ensures r.columns == a.columns + b.columns
    ensures |r.rows| == |a.rows|
    ensures forall i :: 0 <= i < |a.rows| ==>
      && r.rows[i].station == a.rows[i].station
      && r.rows[i].time == a.rows[i].time
      && r.rows[i].values[..|a.columns|] == a.rows[i].values
      && r.rows[i].values[|a.columns|..] ==
           if i < |b.rows| then b.rows[i].values else seq(|b.columns|, _ => None)
  {
    assert forall i :: 0 <= i < |a.rows| ==> a.rows[i] in a.rows;
    assert forall i :: 0 <= i < |b.rows| ==> b.rows[i] in b.rows;
    var blanks: seq<Option<real>> := seq(|b.columns|, _ => None);
    var rows := seq(|a.rows|, i requires 0 <= i < |a.rows| =>
      Row(a.rows[i].station, a.rows[i].time, a.rows[i].values + (if i < |b.rows| then b.rows[i].values else blanks)));
    assert forall x :: x in rows ==> |x.values| == |a.columns| + |b.columns|;
    Table(a.columns + b.columns, rows)
  }

  /** Merging keeps each station's readings of the first table's pollutants. */
  lemma MergeKeepsFirstTable(a: Table, b: Table, s: string, j: nat)
    requires WellFormed(a) && WellFormed(b)
    requires |b.rows| <= |a.rows|
    requires j < |a.columns|
    ensures forall x :: x in a.rows ==> j < |x.values|
    ensures Column(RowsOf(Merge(a, b).rows, s), j) == Column(RowsOf(a.rows, s), j)
  {
    var m := Merge(a, b);
    forall i | 0 <= i < |a.rows|
      ensures m.rows[i].values[j] == a.rows[i].values[j]
    {
      assert m.rows[i].values[..|a.columns|][j] == m.rows[i].values[j];
    }
    RowsOfColumnTransfer(m.rows, j, a.rows, j, s);
  }
}
