// Counting by injections.
module Finite {

  ghost function Range(lo: int, hi: int): (s: set<int>)
    requires lo <= hi
    ensures forall x :: x in s <==> lo <= x < hi
    ensures |s| == hi - lo
    decreases hi - lo
  {
    if lo == hi then {} else {hi - 1} + Range(lo, hi - 1)
  }

  /** A set that f maps injectively into `into` is no larger than `into`. */
  lemma {:induction false} InjectionBound<A(!new), B(!new)>(s: set<A>, f: A -> B, into: set<B>)
    requires forall x :: x in s ==> f(x) in into
    requires forall x, y :: x in s && y in s && f(x) == f(y) ==> x == y
    ensures |s| <= |into|
  {
    if s != {} {
      var x :| x in s;
      InjectionBound(s - {x}, f, into - {f(x)});
    }
  }

  lemma SubsetSize<A(!new)>(s: set<A>, into: set<A>)
    requires s <= into
    ensures |s| <= |into|
  {
    InjectionBound(s, x => x, into);
  }
}
