/** Sequence facts shared by the table operations: duplicates, first and
    last occurrences, and the first name missing from a list. */
module Seqs {
  import opened Results

  predicate NoDuplicates<T(==)>(s: seq<T>) {
    forall i, j :: 0 <= i < j < |s| ==> s[i] != s[j]
  }

  /** Every element of `xs` occurs in `ys`. */
  predicate AllIn<T(==)>(xs: seq<T>, ys: seq<T>) {
    forall k :: 0 <= k < |xs| ==> xs[k] in ys
  }

  /** Position of the first occurrence of `x`, as pandas finds a label. */
  function FirstIndex<T(==)>(s: seq<T>, x: T): (i: nat)
    requires x in s
    ensures i < |s| && s[i] == x
    ensures forall k :: 0 <= k < i ==> s[k] != x
  {
    if s[0] == x then 0 else 1 + FirstIndex(s[1..], x)
  }

  /** Position of the last occurrence of `x`. */
  function LastIndex<T(==)>(s: seq<T>, x: T): (i: nat)
    requires x in s
    ensures i < |s| && s[i] == x
    ensures forall k :: i < k < |s| ==> s[k] != x
  {
    if s[|s| - 1] == x then |s| - 1
    else
      assert x in s[..|s| - 1] by {
        var k :| 0 <= k < |s| && s[k] == x;
        assert s[..|s| - 1][k] == x;
      }
      LastIndex(s[..|s| - 1], x)
  }

  /** The distinct elements of `s`, each kept at its first occurrence
      (pandas `drop_duplicates`). */
  function Distinct<T(==)>(s: seq<T>): (r: seq<T>)
    ensures NoDuplicates(r)
    ensures forall i :: 0 <= i < |r| ==> r[i] in s
    ensures forall i :: 0 <= i < |s| ==> s[i] in r
    decreases |s|
  {
    if |s| == 0 then []
    else
      var d := Distinct(s[..|s| - 1]);
      assert s == s[..|s| - 1] + [s[|s| - 1]];
      if s[|s| - 1] in d then d else d + [s[|s| - 1]]
  }

  /** `Distinct` of a non-empty sequence, one step back from its end. */
  lemma DistinctOfSnoc<T>(s: seq<T>)
    requires |s| > 0
    ensures Distinct(s) == if s[|s| - 1] in Distinct(s[..|s| - 1]) then Distinct(s[..|s| - 1])
                           else Distinct(s[..|s| - 1]) + [s[|s| - 1]]
    ensures forall k :: 0 <= k < |Distinct(s)| ==> Distinct(s)[k] in s[..|s| - 1] || Distinct(s)[k] == s[|s| - 1]
  {
    var p := s[..|s| - 1];
    forall k | 0 <= k < |Distinct(s)|
      ensures Distinct(s)[k] in p || Distinct(s)[k] == s[|s| - 1]
    {
      var j :| 0 <= j < |s| && s[j] == Distinct(s)[k];
      if j < |s| - 1 { assert p[j] == s[j]; }
    }
  }

  /** An element other than the last has the same last index with or
      without the last element. */
  lemma LastIndexOfSnoc<T>(s: seq<T>, x: T)
    requires |s| > 0 && x in s && x != s[|s| - 1]
    ensures x in s[..|s| - 1]
    ensures LastIndex(s, x) == LastIndex(s[..|s| - 1], x)
  {
  }

  lemma {:induction false} FirstIndexOfPrefix<T>(s: seq<T>, k: nat, x: T)
    requires k <= |s| && x in s[..k]
    ensures FirstIndex(s, x) == FirstIndex(s[..k], x)
    decreases k
  {
    assert s[..k][0] == s[0];
    if s[0] != x {
      assert s[..k][1..] == s[1..][..k - 1];
      FirstIndexOfPrefix(s[1..], k - 1, x);
    }
  }

  /** Membership in `Distinct(s)` is membership in `s`. */
  lemma DistinctMember<T>(s: seq<T>, x: T)
    ensures x in Distinct(s) <==> x in s
  {
    var r := Distinct(s);
    if x in s {
      var i :| 0 <= i < |s| && s[i] == x;
      assert s[i] in r;
    }
    if x in r {
      var i :| 0 <= i < |r| && r[i] == x;
      assert r[i] in s;
    }
  }

  /** The elements of `r` all occur in `s`, and `r` lists them in the order
      of their first occurrence in `s`. */
  predicate FirstSeenOrder<T(==)>(r: seq<T>, s: seq<T>) {
    && (forall i :: 0 <= i < |r| ==> r[i] in s)
    && forall i, j :: 0 <= i < j < |r| ==> FirstIndex(s, r[i]) < FirstIndex(s, r[j])
  }

  /** `Distinct(s)` lists the elements of `s` in first-seen order. */
  lemma DistinctOrdered<T>(s: seq<T>)
    ensures FirstSeenOrder(Distinct(s), s)
  {
    forall i, j | 0 <= i < j < |Distinct(s)|
      ensures FirstIndex(s, Distinct(s)[i]) < FirstIndex(s, Distinct(s)[j])
    {
      DistinctKeepsFirstSeenOrder(s, i, j);
    }
  }

  /** Distinct keeps the first-seen order of `s`. */
  lemma {:induction false} DistinctKeepsFirstSeenOrder<T>(s: seq<T>, i: nat, j: nat)
    requires i < j < |Distinct(s)|
    ensures FirstIndex(s, Distinct(s)[i]) < FirstIndex(s, Distinct(s)[j])
    decreases |s|
  {
    var n := |s| - 1;
    var p := s[..n];
    var d := Distinct(p);
    var r := Distinct(s);
    assert r[i] in p by {
      if s[n] in d {
        assert r == d;
      } else {
        assert r == d + [s[n]];
        assert r[i] == d[i];
      }
      assert r[i] in d;
    }
    FirstIndexOfPrefix(s, n, r[i]);
    if s[n] in d || j < |d| {
      assert r[j] == d[j];
      FirstIndexOfPrefix(s, n, r[j]);
      DistinctKeepsFirstSeenOrder(p, i, j);
    } else {
      assert r[j] == s[n] && s[n] !in p;
      assert FirstIndex(s, r[j]) == n;
      assert FirstIndex(p, r[i]) < n;
    }
  }

  /** The position of the first element of `names` that is not in `known`,
      where a lookup by label would raise a KeyError. */
  function FirstAbsent<T(==)>(names: seq<T>, known: seq<T>): (r: Option<nat>)
    ensures r.None? <==> AllIn(names, known)
    ensures r.Some? ==> r.value < |names| && names[r.value] !in known
    ensures r.Some? ==> forall k :: 0 <= k < r.value ==> names[k] in known
  {
    if |names| == 0 then None
    else if names[0] !in known then Some(0)
    else
      match FirstAbsent(names[1..], known)
      case None =>
        assert names == [names[0]] + names[1..];
        None
      case Some(k) => Some(k + 1)
  }

  /** Dropping duplicates on either side does not change containment. */
  lemma AllInDistinct<T>(xs: seq<T>, ys: seq<T>)
    ensures AllIn(Distinct(xs), ys) <==> AllIn(xs, ys)
    ensures AllIn(xs, Distinct(ys)) <==> AllIn(xs, ys)
  {
    var dx, dy := Distinct(xs), Distinct(ys);
    if AllIn(xs, ys) {
      forall k | 0 <= k < |dx|
        ensures dx[k] in ys
      {
        DistinctMember(xs, dx[k]);
      }
    }
    if AllIn(dx, ys) {
      forall k | 0 <= k < |xs|
        ensures xs[k] in ys
      {
        DistinctMember(xs, xs[k]);
        var j :| 0 <= j < |dx| && dx[j] == xs[k];
      }
    }
    forall k | 0 <= k < |xs|
      ensures xs[k] in dy <==> xs[k] in ys
    {
      DistinctMember(ys, xs[k]);
    }
  }

  /** Containment of a prefix one element longer. */
  lemma AllInPrefix<T>(xs: seq<T>, n: nat, ys: seq<T>)
    requires 0 < n <= |xs|
    ensures AllIn(xs[..n], ys) <==> AllIn(xs[..n - 1], ys) && xs[n - 1] in ys
  {
    assert forall k :: 0 <= k < n - 1 ==> xs[..n][k] == xs[..n - 1][k];
    assert xs[..n][n - 1] == xs[n - 1];
  }
}
