/** Counting the elements of a sequence that satisfy a predicate, and the
    positions they occupy. */
module Counting {

  /** The positions of `s` whose element satisfies `p`. */
  function Hits<T>(s: seq<T>, p: T -> bool): set<int> {
    set i | 0 <= i < |s| && p(s[i])
  }

  lemma HitsOfSnoc<T>(s: seq<T>, p: T -> bool)
    requires |s| > 0
    ensures Hits(s, p) == Hits(s[..|s| - 1], p) + (if p(s[|s| - 1]) then {|s| - 1} else {})
    ensures |s| - 1 !in Hits(s[..|s| - 1], p)
  {
    var n := |s| - 1;
    forall i | i in Hits(s, p)
      ensures i in Hits(s[..n], p) + (if p(s[n]) then {n} else {})
    {
      if i < n {
        assert s[..n][i] == s[i];
      }
    }
  }

  /** How many elements of `s` satisfy `p`, accumulated left to right as a
      column sum is. */
  function Count<T>(s: seq<T>, p: T -> bool): (n: nat)
    ensures n == |Hits(s, p)|
    ensures n <= |s|
    decreases |s|
  {
    if |s| == 0 then 0
    else
      HitsOfSnoc(s, p);
      Count(s[..|s| - 1], p) + (if p(s[|s| - 1]) then 1 else 0)
  }

  /** Counting a predicate that holds wherever a second one holds never
      yields more. */
  lemma {:induction false} CountMonotone<T>(s: seq<T>, p: T -> bool, q: T -> bool)
    requires forall i :: 0 <= i < |s| ==> p(s[i]) ==> q(s[i])
    ensures Count(s, p) <= Count(s, q)
    decreases |s|
  {
    if |s| > 0 {
      CountMonotone(s[..|s| - 1], p, q);
    }
  }

  /** The elements satisfying `p` but not `q`. */
  function Without<T>(p: T -> bool, q: T -> bool): T -> bool {
    x => p(x) && !q(x)
  }

  /** When `q` implies `p`, the difference of the counts is the count of
      the elements satisfying `p` but not `q`. */
  lemma {:induction false} CountDifference<T>(s: seq<T>, p: T -> bool, q: T -> bool)
    requires forall i :: 0 <= i < |s| ==> q(s[i]) ==> p(s[i])
    ensures Count(s, p) - Count(s, q) == Count(s, Without(p, q))
    decreases |s|
  {
    if |s| > 0 {
      CountDifference(s[..|s| - 1], p, q);
    }
  }

  /** Counts depend only on where the predicates agree. */
  lemma {:induction false} CountCongruent<T>(s: seq<T>, p: T -> bool, q: T -> bool)
    requires forall i :: 0 <= i < |s| ==> p(s[i]) == q(s[i])
    ensures Count(s, p) == Count(s, q)
  {
    CountMonotone(s, p, q);
    CountMonotone(s, q, p);
  }

  /** At most every position is a hit. */
  lemma HitsBounded<T>(s: seq<T>, p: T -> bool)
    ensures |Hits(s, p)| <= |s|
  {
    assert Count(s, p) == |Hits(s, p)|;
  }
}
