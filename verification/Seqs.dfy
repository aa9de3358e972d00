// Sequences: regrouping, filtering, reversing.
module Seqs {
  lemma Assoc<E>(a: seq<E>, b: seq<E>, c: seq<E>)
    ensures a + b + c == a + (b + c)
  {
  }

  lemma AppendNothing<E>(s: seq<E>)
    ensures s + [] == s
  {
  }

  lemma Around<E>(s: seq<E>, i: nat, x: E)
    requires i < |s|
    ensures s == s[..i] + [s[i]] + s[i + 1..] && s[i := x] == s[..i] + [x] + s[i + 1..]
  {
  }

  /** A concatenation takes its head from the front. */
  lemma HeadOf<E>(b: seq<E>, s: seq<E>)
    ensures b != [] ==> (b + s)[0] == b[0] && (b + s)[1..] == b[1..] + s
    ensures [] + s == s
  {
  }

  lemma ConsEqual<E>(x: E, later: seq<E>, s: seq<E>)
    requires s != []
    ensures [x] + later == s <==> s[0] == x && later == s[1..]
  {
  }

  lemma DropTwice<E>(s: seq<E>, i: nat, j: nat)
    requires i + j <= |s|
    ensures s[i..][j..] == s[i + j..]
  {
  }

  /** A loop that has collected done and still has rest before it is to collect goal. */
  ghost predicate Adds<E>(done: seq<E>, rest: seq<E>, goal: seq<E>) {
    done + rest == goal
  }

  lemma Nothing<E>(s: seq<E>)
    ensures Adds([], s, s)
  {
  }

  lemma AddOne<E>(done: seq<E>, rest: seq<E>, goal: seq<E>)
    requires Adds(done, rest, goal)
    ensures rest == [] ==> done == goal
    ensures rest != [] ==> Adds(done + [rest[0]], rest[1..], goal)
  {
    assert rest != [] ==> done + rest == done + [rest[0]] + rest[1..];
  }

  function Filter<E>(s: seq<E>, p: E -> bool): seq<E> {
    if s == [] then [] else (if p(s[0]) then [s[0]] else []) + Filter(s[1..], p)
  }

  lemma FilterHead<E>(s: seq<E>, p: E -> bool)
    requires s != []
    ensures Filter(s, p) == (if p(s[0]) then [s[0]] else []) + Filter(s[1..], p)
  {
  }

  lemma FilterStep<E>(s: seq<E>, p: E -> bool)
    ensures s == [] ==> Filter(s, p) == []
    ensures s != [] && p(s[0]) ==>
      Filter(s, p) != [] && Filter(s, p)[0] == s[0] && Filter(s, p)[1..] == Filter(s[1..], p)
    ensures s != [] && !p(s[0]) ==> Filter(s, p) == Filter(s[1..], p)
  {
    if s != [] {
      HeadOf(if p(s[0]) then [s[0]] else [], Filter(s[1..], p));
    }
  }

  lemma FilterOne<E>(x: E, p: E -> bool)
    ensures Filter([x], p) == if p(x) then [x] else []
  {
  }

  lemma {:induction false} FilterHolds<E>(s: seq<E>, p: E -> bool, x: E)
    ensures x in Filter(s, p) <==> x in s && p(x)
  {
    if s != [] {
      FilterHolds(s[1..], p, x);
      assert s == [s[0]] + s[1..];
    }
  }

  lemma {:induction false} FilterConcat<E>(s: seq<E>, t: seq<E>, p: E -> bool)
    ensures Filter(s + t, p) == Filter(s, p) + Filter(t, p)
  {
    HeadOf(s, t);
    if s == [] {
      HeadOf([], Filter(t, p));
    } else {
      hide Filter;
      FilterHead(s, p);
      FilterHead(s + t, p);
      FilterConcat(s[1..], t, p);
      Assoc(if p(s[0]) then [s[0]] else [], Filter(s[1..], p), Filter(t, p));
    }
  }

  lemma {:induction false} FilterAll<E>(s: seq<E>, p: E -> bool)
    requires forall i :: 0 <= i < |s| ==> p(s[i])
    ensures Filter(s, p) == s
  {
    if s != [] {
      FilterAll(s[1..], p);
    }
  }

  lemma {:induction false} FilterNone<E>(s: seq<E>, p: E -> bool)
    requires forall i :: 0 <= i < |s| ==> !p(s[i])
    ensures Filter(s, p) == []
  {
    if s != [] {
      FilterNone(s[1..], p);
    }
  }

  function Reverse<E>(s: seq<E>): (r: seq<E>)
    ensures |r| == |s|
  {
    if s == [] then [] else Reverse(s[1..]) + [s[0]]
  }

  lemma {:induction false} ReverseAt<E>(s: seq<E>)
    ensures forall i :: 0 <= i < |s| ==> Reverse(s)[i] == s[|s| - 1 - i]
  {
    if s != [] {
      ReverseAt(s[1..]);
    }
  }

  lemma {:induction false} ReverseConcat<E>(s: seq<E>, t: seq<E>)
    ensures Reverse(s + t) == Reverse(t) + Reverse(s)
  {
    if s == [] {
      assert s + t == t;
    } else {
      assert (s + t)[1..] == s[1..] + t;
      ReverseConcat(s[1..], t);
    }
  }
}
