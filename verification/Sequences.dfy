// What each iterator adaptor is documented to compute, as functions on sequences, and the laws they obey.
module Sequences {
  import opened Memory
  import opened Seqs

  /** An iterator's element: the caller's own, a zipped pair, or the view that window and chunks yield. */
  datatype Val<T> = Elem(elem: T) | Pair(left: Val<T>, right: Val<T>) | View(items: seq<Val<T>>)

  /** The answers of a source before its first false. */
  function Until<E>(polls: seq<Option<E>>): seq<E> {
    if polls == [] || polls[0].None? then [] else [polls[0].value] + Until(polls[1..])
  }

  /** A source that says nothing but false once it has. */
  predicate Latched<E>(polls: seq<Option<E>>) {
    forall i, j :: 0 <= i < j < |polls| && polls[i].None? ==> polls[j].None?
  }

  lemma LatchedStep<E>(polls: seq<Option<E>>)
    requires Latched(polls) && polls != []
    ensures Latched(polls[1..]) && (polls[0].None? ==> Until(polls[1..]) == [])
  {
  }

  function Mapped<E, F>(s: seq<E>, f: E -> F): seq<F> {
    seq(|s|, i requires 0 <= i < |s| => f(s[i]))
  }

  function Taken<E>(s: seq<E>, n: nat): seq<E> {
    if n <= |s| then s[..n] else s
  }

  function Skipped<E>(s: seq<E>, n: nat): seq<E> {
    if n <= |s| then s[n..] else []
  }

  function ItemsOf<T>(v: Val<T>): seq<Val<T>> {
    if v.View? then v.items else []
  }

  /** Memory c after writing items to its front. */
  function Overwrite<E>(c: seq<E>, items: seq<E>): seq<E> {
    items + Skipped(c, |items|)
  }

  function TakenWhile<E>(s: seq<E>, p: E -> bool): seq<E> {
    if s == [] || !p(s[0]) then [] else [s[0]] + TakenWhile(s[1..], p)
  }

  function SkippedWhile<E>(s: seq<E>, p: E -> bool): seq<E> {
    if s == [] || !p(s[0]) then s else SkippedWhile(s[1..], p)
  }

  function Zipped<T>(a: seq<Val<T>>, b: seq<Val<T>>): seq<Val<T>> {
    seq(if |a| <= |b| then |a| else |b|, i requires 0 <= i < |a| && i < |b| => Pair(a[i], b[i]))
  }

  lemma MappedStep<E, F>(s: seq<E>, f: E -> F)
    ensures s == [] ==> Mapped(s, f) == []
    ensures s != [] ==> Mapped(s, f) != [] && Mapped(s, f)[0] == f(s[0]) && Mapped(s, f)[1..] == Mapped(s[1..], f)
  {
  }

  /** All runs of n neighbours; none when n is 0. */
  function Windows<T>(s: seq<Val<T>>, n: nat): seq<Val<T>> {
    if n == 0 || |s| < n then [] else seq(|s| - n + 1, i requires 0 <= i <= |s| - n => View(s[i..i + n]))
  }

  /** Runs of n, the last one possibly shorter; none when n is 0. */
  function Chunks<T>(s: seq<Val<T>>, n: nat): seq<Val<T>>
    decreases |s|
  {
    if n == 0 || s == [] then [] else [View(Taken(s, n))] + Chunks(Skipped(s, n), n)
  }

  /** Drop each element that compares equal to the last one kept. */
  function Deduped<E>(s: seq<E>, cmp: (E, E) -> int, last: Option<E>): seq<E> {
    if s == [] then []
    else if last.None? || cmp(s[0], last.value) != 0 then [s[0]] + Deduped(s[1..], cmp, Some(s[0]))
    else Deduped(s[1..], cmp, last)
  }

  function FlatMapped<E, F>(s: seq<E>, f: E -> seq<F>): seq<F> {
    if s == [] then [] else f(s[0]) + FlatMapped(s[1..], f)
  }

  // ----- One step

  lemma MoveOver<E>(buf: seq<E>, s: seq<E>)
    requires s != []
    ensures buf + s == (buf + [s[0]]) + s[1..]
  {
  }

  lemma ZippedStep<T>(a: seq<Val<T>>, b: seq<Val<T>>)
    ensures a == [] || b == [] ==> Zipped(a, b) == []
    ensures a != [] && b != [] ==>
      Zipped(a, b) != [] && Zipped(a, b)[0] == Pair(a[0], b[0]) && Zipped(a, b)[1..] == Zipped(a[1..], b[1..])
  {
  }

  lemma SkippedWhileStep<E>(s: seq<E>, p: E -> bool)
    ensures s == [] ==> SkippedWhile(s, p) == []
    ensures s != [] ==> SkippedWhile(s, p) == if p(s[0]) then SkippedWhile(s[1..], p) else s
  {
  }

  lemma FlatMapStep<E, F>(s: seq<E>, f: E -> seq<F>)
    ensures FlatMapped([], f) == []
    ensures s != [] ==> FlatMapped(s, f) == f(s[0]) + FlatMapped(s[1..], f)
  {
  }

  lemma Shifted<E>(s: seq<E>, lo: nat, hi: nat)
    requires 0 < lo <= hi <= |s|
    ensures s[lo..hi] == s[1..][lo - 1..hi - 1]
  {
    var a, b := s[lo..hi], s[1..][lo - 1..hi - 1];
    forall k | 0 <= k < |a| ensures a[k] == b[k] {
      assert a[k] == s[lo + k];
    }
  }

  lemma WindowsStep<T>(buf: seq<Val<T>>, s: seq<Val<T>>)
    requires buf != []
    ensures Windows(buf + s, |buf|) == [View(buf)] + Windows(buf[1..] + s, |buf|)
  {
    var n, all, next := |buf|, buf + s, buf[1..] + s;
    var windows, later := Windows(all, n), Windows(next, n);
    assert all[1..] == next && all[..n] == buf;
    assert |windows| == 1 + |later| && windows[0] == View(all[0..0 + n]);
    forall i | 0 < i < |windows| ensures windows[i] == later[i - 1] {
      Shifted(all, i, i + n);
    }
  }

  lemma ChunksStep<T>(buf: seq<Val<T>>, s: seq<Val<T>>, n: nat)
    requires buf != []
    ensures |buf| == n ==> Chunks(buf + s, n) == [View(buf)] + Chunks(s, n)
    ensures |buf| < n ==> Chunks(buf, n) == [View(buf)]
  {
    if |buf| == n {
      assert Taken(buf + s, n) == buf && Skipped(buf + s, n) == s;
    }
  }

  lemma DedupedStep<E>(s: seq<E>, cmp: (E, E) -> int, last: Option<E>)
    ensures s == [] ==> Deduped(s, cmp, last) == []
    ensures s != [] && (last.None? || cmp(s[0], last.value) != 0) ==>
      var t := Deduped(s, cmp, last); t != [] && t[0] == s[0] && t[1..] == Deduped(s[1..], cmp, Some(s[0]))
    ensures s != [] && !(last.None? || cmp(s[0], last.value) != 0) ==>
      Deduped(s, cmp, last) == Deduped(s[1..], cmp, last)
  {
  }

  // ----- Laws

  /** Concatenating the chunks gives back the sequence; all are of size n but the last, which is not empty. */
  lemma {:induction false} ChunksPartition<T>(s: seq<Val<T>>, n: nat)
    requires n > 0
    ensures FlatMapped(Chunks(s, n), ItemsOf) == s
    ensures var c := Chunks(s, n);
      && (forall i :: 0 <= i < |c| ==> c[i].View? && 0 < |c[i].items| <= n)
      && (forall i :: 0 <= i < |c| - 1 ==> |c[i].items| == n)
    decreases |s|
  {
    if s != [] {
      hide Chunks;
      hide FlatMapped;
      ChunksHead(s, n);
      TakenSkipped(s, n);
      ChunksPartition(Skipped(s, n), n);
      FlatMapStep(Chunks(s, n), ItemsOf);
    } else {
      FlatMapStep<Val<T>, Val<T>>([], ItemsOf);
    }
  }

  lemma TakenSkipped<E>(s: seq<E>, n: nat)
    requires n > 0 && s != []
    ensures Taken(s, n) + Skipped(s, n) == s && 0 < |Taken(s, n)| <= n && |Skipped(s, n)| < |s|
    ensures Skipped(s, n) != [] ==> |Taken(s, n)| == n
  {
  }

  lemma ChunksHead<T>(s: seq<Val<T>>, n: nat)
    requires n > 0 && s != []
    ensures var c := Chunks(s, n);
      c != [] && c[0] == View(Taken(s, n)) && c[1..] == Chunks(Skipped(s, n), n)
    ensures Skipped(s, n) == [] ==> |Chunks(s, n)| == 1
  {
    hide Taken;
    hide Skipped;
    TakenSkipped(s, n);
    HeadOf([View(Taken(s, n))], Chunks(Skipped(s, n), n));
  }

  /** The two halves of a pivot: what take_while yields, then what skip_while yields. */
  lemma {:induction false} WhilesPartition<E>(s: seq<E>, p: E -> bool)
    ensures TakenWhile(s, p) + SkippedWhile(s, p) == s
    ensures forall x :: x in TakenWhile(s, p) ==> p(x)
    ensures SkippedWhile(s, p) != [] ==> !p(SkippedWhile(s, p)[0])
  {
    if s != [] && p(s[0]) {
      WhilesPartition(s[1..], p);
      var taken, skipped := TakenWhile(s[1..], p), SkippedWhile(s[1..], p);
      assert TakenWhile(s, p) == [s[0]] + taken && SkippedWhile(s, p) == skipped;
      hide TakenWhile, SkippedWhile;
      assert [s[0]] + taken + skipped == [s[0]] + s[1..] == s;
    }
  }

  lemma {:induction false} FirstFailure<E>(s: seq<E>, p: E -> bool)
    ensures var n := |TakenWhile(s, p)|;
      && n <= |s| && SkippedWhile(s, p) == s[n..]
      && (forall i :: 0 <= i < n ==> p(s[i])) && (n < |s| ==> !p(s[n]))
  {
    if s != [] && p(s[0]) {
      FirstFailure(s[1..], p);
    }
  }

  ghost predicate NoEqualNeighbours<E>(s: seq<E>, cmp: (E, E) -> int) {
    forall i :: 0 < i < |s| ==> cmp(s[i], s[i - 1]) != 0
  }

  lemma {:induction false} DedupNeighbours<E>(s: seq<E>, cmp: (E, E) -> int, last: Option<E>)
    ensures NoEqualNeighbours(Deduped(s, cmp, last), cmp)
    ensures Deduped(s, cmp, last) != [] && last.Some? ==> cmp(Deduped(s, cmp, last)[0], last.value) != 0
  {
    if s != [] {
      if last.None? || cmp(s[0], last.value) != 0 {
        DedupNeighbours(s[1..], cmp, Some(s[0]));
      } else {
        DedupNeighbours(s[1..], cmp, last);
      }
    }
  }

  /** A sequence is its own dedup exactly when no two neighbours are equal; so dedup is idempotent. */
  lemma {:induction false} DedupFixpoint<E>(s: seq<E>, cmp: (E, E) -> int, last: Option<E>)
    requires NoEqualNeighbours(s, cmp)
    requires s != [] && last.Some? ==> cmp(s[0], last.value) != 0
    ensures Deduped(s, cmp, last) == s
  {
    if s != [] {
      DedupFixpoint(s[1..], cmp, Some(s[0]));
    }
  }

  lemma DedupIdempotent<E>(s: seq<E>, cmp: (E, E) -> int)
    ensures (Deduped(s, cmp, None) == s) <==> NoEqualNeighbours(s, cmp)
    ensures Deduped(Deduped(s, cmp, None), cmp, None) == Deduped(s, cmp, None)
  {
    DedupNeighbours(s, cmp, None);
    DedupFixpoint(Deduped(s, cmp, None), cmp, None);
    if NoEqualNeighbours(s, cmp) {
      DedupFixpoint(s, cmp, None);
    }
  }

  /** flat_map subsumes filter and map, and distributes over chain. */
  lemma {:induction false} FlatMapSubsumes<E>(s: seq<E>, p: E -> bool, f: E -> E)
    ensures FlatMapped(s, x => if p(x) then [x] else []) == Filter(s, p)
    ensures FlatMapped(s, x => [f(x)]) == Mapped(s, f)
  {
    if s != [] {
      FlatMapSubsumes(s[1..], p, f);
      assert Mapped(s, f) == [f(s[0])] + Mapped(s[1..], f);
    }
  }

  /** Flattening twice is flattening once, with the second function inside the first. */
  lemma {:induction false} FlatMapNests<E, F, G>(s: seq<E>, f: E -> seq<F>, g: F -> seq<G>, h: E -> seq<G>)
    requires forall x :: x in s ==> h(x) == FlatMapped(f(x), g)
    ensures FlatMapped(FlatMapped(s, f), g) == FlatMapped(s, h)
  {
    if s != [] {
      FlatMapNests(s[1..], f, g, h);
      FlatMapChain(f(s[0]), FlatMapped(s[1..], f), g);
    }
  }

  lemma {:induction false} FlatMapChain<E, F>(s: seq<E>, t: seq<E>, f: E -> seq<F>)
    ensures FlatMapped(s + t, f) == FlatMapped(s, f) + FlatMapped(t, f)
  {
    hide FlatMapped;
    HeadOf(s, t);
    FlatMapStep(s, f);
    FlatMapStep(s + t, f);
    HeadOf([], FlatMapped(t, f));
    if s != [] {
      FlatMapChain(s[1..], t, f);
      Assoc(f(s[0]), FlatMapped(s[1..], f), FlatMapped(t, f));
    }
  }
}
