/** Counting: sequences without repeats against the sets of their elements. */
module Counting {

  predicate NoRepeats<T(==)>(s: seq<T>) { forall i, j :: 0 <= i < j < |s| ==> s[i] != s[j] }

  ghost function Elements<T>(s: seq<T>): set<T> { set x | x in s }

  lemma {:induction false} SubsetCount<T>(a: set<T>, b: set<T>)
    requires a <= b
    ensures |a| <= |b| && (|a| == |b| ==> a == b)
  {
    if a != {} {
      var x :| x in a;
      SubsetCount(a - {x}, b - {x});
    }
  }

  /** A sequence has as many elements as places exactly when nothing repeats. */
  lemma {:induction false} ElementCount<T>(s: seq<T>)
    ensures |Elements(s)| <= |s| && (|Elements(s)| == |s| <==> NoRepeats(s))
  {
    if s != [] {
      ElementCount(s[1..]);
      assert s == [s[0]] + s[1..];
      assert Elements(s) == Elements(s[1..]) + {s[0]};
    }
  }

  /** Pigeonhole: a repeat-free sequence inside another is no longer, and misses someone if it is shorter. */
  lemma DistinctWithin<T>(s: seq<T>, t: seq<T>)
    requires NoRepeats(s) && NoRepeats(t) && forall x :: x in s ==> x in t
    ensures |s| <= |t|
    ensures |s| < |t| ==> exists x :: x in t && x !in s
  {
    ElementCount(s);
    ElementCount(t);
    SubsetCount(Elements(s), Elements(t));
    if |s| < |t| && forall x :: x in t ==> x in s {
      SubsetCount(Elements(t), Elements(s));
    }
  }
}
