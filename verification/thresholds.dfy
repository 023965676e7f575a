/** The pollutant-to-threshold dictionaries the script builds from the two
    limits tables, one row per pollutant: name, threshold. */
module Thresholds {
  import opened Seqs

  /** An insertion-ordered dictionary from pollutant name to threshold. */
  type ThresholdMap = seq<(string, real)>

  /** The names of a dictionary, or the first column of a limits table. */
  function Names(pairs: seq<(string, real)>): (r: seq<string>)
    ensures |r| == |pairs|
    ensures forall i :: 0 <= i < |pairs| ==> r[i] == pairs[i].0
  {
    seq(|pairs|, i requires 0 <= i < |pairs| => pairs[i].0)
  }

  /** The threshold a limits table gives a name: its last row for that name. */
  function LimitOf(limits: seq<(string, real)>, name: string): real
    requires name in Names(limits)
  {
    limits[LastIndex(Names(limits), name)].1
  }

  /** Dictionary lookup `m[name]`. */
  function Lookup(m: ThresholdMap, name: string): real
    requires name in Names(m)
  {
    m[FirstIndex(Names(m), name)].1
  }

  /** Dictionary assignment `m[name] = value`: an existing entry keeps its
      position and takes the new value; a new name goes at the end. */
  function Assign(m: ThresholdMap, name: string, value: real): (r: ThresholdMap)
    requires NoDuplicates(Names(m))
    ensures Names(r) == if name in Names(m) then Names(m) else Names(m) + [name]
    ensures forall i :: 0 <= i < |r| ==> r[i].1 == if r[i].0 == name then value else m[i].1
  {
    if name in Names(m) then
      var k := FirstIndex(Names(m), name);
      var r := m[k := (name, value)];
      assert Names(r) == Names(m);
      r
    else
      var r := m + [(name, value)];
      assert Names(r) == Names(m) + [name];
      r
  }

  /** The dictionary filled row by row from a limits table: one entry per
      distinct name, in first-seen order, holding the threshold of the last
      row for that name. */
  function BuildThresholds(limits: seq<(string, real)>): (m: ThresholdMap)
    ensures Names(m) == Distinct(Names(limits))
    ensures forall i :: 0 <= i < |m| ==> m[i].0 in Names(limits) && m[i].1 == LimitOf(limits, m[i].0)
    decreases |limits|
  {
    if |limits| == 0 then []
    else
      var n := |limits| - 1;
      var before := BuildThresholds(limits[..n]);
      AssignLastRow(limits, before);
      Assign(before, limits[n].0, limits[n].1)
  }

  /** Assigning the last row of a limits table to the dictionary built from
      the rows before it gives the dictionary of the whole table. */
  lemma AssignLastRow(limits: seq<(string, real)>, before: ThresholdMap)
    requires |limits| > 0
    requires Names(before) == Distinct(Names(limits[..|limits| - 1]))
    requires forall i :: 0 <= i < |before| ==>
      before[i].0 in Names(limits[..|limits| - 1]) && before[i].1 == LimitOf(limits[..|limits| - 1], before[i].0)
    ensures NoDuplicates(Names(before))
    ensures var m := Assign(before, limits[|limits| - 1].0, limits[|limits| - 1].1);
      && Names(m) == Distinct(Names(limits))
      && forall i :: 0 <= i < |m| ==> m[i].0 in Names(limits) && m[i].1 == LimitOf(limits, m[i].0)
  {
    var n := |limits| - 1;
    var names := Names(limits);
    assert names[..n] == Names(limits[..n]);
    DistinctOfSnoc(names);
    var m := Assign(before, limits[n].0, limits[n].1);
    forall i | 0 <= i < |m|
      ensures m[i].0 in names && m[i].1 == LimitOf(limits, m[i].0)
    {
      assert Names(m)[i] == m[i].0;
      if m[i].0 != names[n] {
        assert i < |before| && Names(before)[i] == m[i].0;
        LastIndexOfSnoc(names, m[i].0);
      }
    }
  }
}