// What each adaptor is documented to yield (docs/iter.md), element by element.
module PlanLaws {
  import opened Memory
  import opened Seqs
  import opened Sequences
  import opened Plans

  // ----- Sources

  lemma OfItems<T>(s: seq<Val<T>>)
    ensures |Meaning(Items(s))| == |s| && forall i :: 0 <= i < |s| ==> Meaning(Items(s))[i] == s[i]
    ensures |Meaning(ItemsRev(s))| == |s| && forall i :: 0 <= i < |s| ==> Meaning(ItemsRev(s))[i] == s[|s| - 1 - i]
  {
    ReverseAt(s);
  }

  /** A generator is asked up to its first false. */
  lemma OfAnswers<T>(polls: seq<Option<Val<T>>>)
    ensures var out := Meaning(Answers(polls));
      && |out| <= |polls| && (|out| < |polls| ==> polls[|out|] == None)
      && forall i :: 0 <= i < |out| ==> polls[i] == Some(out[i])
  {
    UntilAt(polls);
  }

  lemma {:induction false} UntilAt<E>(polls: seq<Option<E>>)
    ensures var out := Until(polls);
      && |out| <= |polls| && (|out| < |polls| ==> polls[|out|] == None)
      && forall i :: 0 <= i < |out| ==> polls[i] == Some(out[i])
  {
    if polls != [] && polls[0].Some? {
      UntilAt(polls[1..]);
    }
  }

  // ----- One element for each, or none

  lemma OfMap<T>(of: Plan<T>, f: Val<T> -> Val<T>, copies: bool)
    ensures var s, out := Meaning(of), Meaning(MapBy(of, f, copies));
      |out| == |s| && forall i :: 0 <= i < |s| ==> out[i] == f(s[i])
  {
  }

  lemma OfZip<T>(a: Plan<T>, b: Plan<T>)
    ensures var s, t, out := Meaning(a), Meaning(b), Meaning(ZipWith(a, b));
      && |out| == (if |s| <= |t| then |s| else |t|)
      && forall i :: 0 <= i < |out| ==> out[i] == Pair(s[i], t[i])
  {
  }

  lemma OfPeekable<T>(of: Plan<T>)
    ensures Meaning(PeekableOf(of)) == Meaning(of)
  {
  }

  /** The positions of the elements that pass, in order, and of no others. */
  lemma OfFilter<T>(of: Plan<T>, pred: Val<T> -> bool) returns (at: seq<nat>)
    ensures var s, out := Meaning(of), Meaning(FilterBy(of, pred));
      && |at| == |out| && (forall j, k :: 0 <= j < k < |at| ==> at[j] < at[k])
      && (forall j :: 0 <= j < |at| ==> at[j] < |s| && out[j] == s[at[j]])
      && forall i: nat :: i < |s| ==> (i in at <==> pred(s[i]))
  {
    at := FilteredFrom(Meaning(of), pred, 0);
    assert Meaning(of)[0..] == Meaning(of);
    assert Meaning(FilterBy(of, pred)) == Filter(Meaning(of), pred);
    hide Meaning, Filter;
    forall i: nat | i < |Meaning(of)| && i in at
      ensures pred(Meaning(of)[i])
    {
      var j :| 0 <= j < |at| && at[j] == i;
    }
  }

  ghost predicate PassAt<E>(s: seq<E>, p: E -> bool, k: nat, out: seq<E>, at: seq<nat>) {
    && |at| == |out| && (forall j, l :: 0 <= j < l < |at| ==> at[j] < at[l])
    && (forall j :: 0 <= j < |at| ==> k <= at[j] < |s| && p(s[at[j]]) && out[j] == s[at[j]])
    && forall i: nat :: k <= i < |s| && p(s[i]) ==> i in at
  }

  lemma {:induction false} FilteredFrom<E>(s: seq<E>, p: E -> bool, k: nat) returns (at: seq<nat>)
    requires k <= |s|
    ensures PassAt(s, p, k, Filter(s[k..], p), at)
    decreases |s| - k
  {
    at := [];
    if k < |s| {
      var rest := FilteredFrom(s, p, k + 1);
      assert s[k..][1..] == s[k + 1..];
      FilterStep(s[k..], p);
      hide Filter;
      at := if p(s[k]) then [k] + rest else rest;
      PassCons(s, p, k, Filter(s[k..], p), Filter(s[k + 1..], p), rest);
    }
  }

  lemma PassCons<E>(s: seq<E>, p: E -> bool, k: nat, out: seq<E>, later: seq<E>, rest: seq<nat>)
    requires k < |s| && PassAt(s, p, k + 1, later, rest)
    requires if p(s[k]) then out != [] && out[0] == s[k] && out[1..] == later else out == later
    ensures PassAt(s, p, k, out, if p(s[k]) then [k] + rest else rest)
  {
    if p(s[k]) {
      var at := [k] + rest;
      InCons(k, rest);
      assert forall j :: 0 < j < |at| ==> at[j] == rest[j - 1];
      forall j | 0 <= j < |at|
        ensures k <= at[j] < |s| && p(s[at[j]]) && out[j] == s[at[j]]
      {
        assert j > 0 ==> out[j] == later[j - 1];
      }
    }
  }

  lemma InCons(k: nat, rest: seq<nat>)
    ensures forall i: nat :: i in [k] + rest <==> i == k || i in rest
  {
  }

  // ----- Prefixes and suffixes

  lemma OfTake<T>(of: Plan<T>, n: nat)
    ensures var s, out := Meaning(of), Meaning(TakeN(of, n));
      && |out| == (if n <= |s| then n else |s|)
      && forall i :: 0 <= i < |out| ==> out[i] == s[i]
  {
  }

  lemma OfSkip<T>(of: Plan<T>, n: nat)
    ensures var s, out := Meaning(of), Meaning(SkipN(of, n));
      && |out| == (if n <= |s| then |s| - n else 0)
      && forall i :: 0 <= i < |out| ==> out[i] == s[n + i]
  {
  }

  /** All before the first element that fails. */
  lemma OfTakeWhile<T>(of: Plan<T>, pred: Val<T> -> bool)
    ensures var s, out := Meaning(of), Meaning(TakeWhileBy(of, pred));
      && |out| <= |s| && (forall i :: 0 <= i < |out| ==> out[i] == s[i] && pred(s[i]))
      && (|out| < |s| ==> !pred(s[|out|]))
  {
    WhilesPartition(Meaning(of), pred);
    FirstFailure(Meaning(of), pred);
    assert TakenWhile(Meaning(of), pred) == Meaning(of)[..|TakenWhile(Meaning(of), pred)|];
  }

  /** That element and all after it. */
  lemma OfSkipWhile<T>(of: Plan<T>, pred: Val<T> -> bool)
    ensures var s, out := Meaning(of), Meaning(SkipWhileBy(of, pred));
      var n := |s| - |out|;
      && n >= 0 && (forall i :: 0 <= i < n ==> pred(s[i])) && (out != [] ==> !pred(out[0]))
      && forall i :: 0 <= i < |out| ==> out[i] == s[n + i]
  {
    FirstFailure(Meaning(of), pred);
  }

  lemma OfAppend<T>(a: Plan<T>, b: Plan<T>)
    ensures var s, t, out := Meaning(a), Meaning(b), Meaning(Append(a, b));
      && |out| == |s| + |t|
      && forall i :: 0 <= i < |out| ==> out[i] == if i < |s| then s[i] else t[i - |s|]
  {
  }

  // ----- Runs of elements

  lemma OfWindows<T>(of: Plan<T>, n: nat)
    ensures var s, out := Meaning(of), Meaning(WindowsOf(of, n));
      && |out| == (if n == 0 || |s| < n then 0 else |s| - n + 1)
      && forall i :: 0 <= i < |out| ==> out[i] == View(s[i..i + n])
  {
  }

  /** Chunk k holds the elements from k * n on, n of them or what is left; with nothing there, there is no chunk k. */
  lemma OfChunks<T>(of: Plan<T>, n: nat, k: nat)
    ensures n == 0 ==> Meaning(ChunksOf(of, n)) == []
    ensures var s, out := Meaning(of), Meaning(ChunksOf(of, n));
      n > 0 ==>
        && (k < |out| <==> k * n < |s|)
        && (k * n < |s| ==> out[k] == View(s[k * n..if k * n + n <= |s| then k * n + n else |s|]))
  {
    if n > 0 {
      assert Meaning(ChunksOf(of, n)) == Chunks(Meaning(of), n);
      hide Meaning, Chunks;
      StepsAre(k, n);
      ChunkAt(Meaning(of), n, k);
    }
  }

  /** Where chunk k begins. */
  function Steps(k: nat, n: nat): nat {
    if k == 0 then 0 else n + Steps(k - 1, n)
  }

  lemma {:induction false} StepsAre(k: nat, n: nat)
    ensures Steps(k, n) == k * n
  {
    if k > 0 {
      StepsAre(k - 1, n);
    }
  }

  /** Element k of the chunks all of s, if any, is the chunk at p. */
  ghost predicate ChunkIs<T>(s: seq<Val<T>>, n: nat, all: seq<Val<T>>, k: nat, p: nat) {
    && (k < |all| <==> p < |s|)
    && (p < |s| ==> all[k] == View(s[p..if p + n <= |s| then p + n else |s|]))
  }

  lemma {:induction false} ChunkAt<T>(s: seq<Val<T>>, n: nat, k: nat)
    requires n > 0
    ensures ChunkIs(s, n, Chunks(s, n), k, Steps(k, n))
    decreases k
  {
    if s != [] {
      ChunksHead(s, n);
      hide Chunks;
      if k > 0 {
        hide ChunkIs;
        ChunkAt(Skipped(s, n), n, k - 1);
        ChunkLater(s, n, Chunks(s, n), k, Steps(k - 1, n));
      }
    }
  }

  lemma ChunkLater<T>(s: seq<Val<T>>, n: nat, all: seq<Val<T>>, k: nat, p: nat)
    requires s != [] && all != [] && k > 0 && ChunkIs(Skipped(s, n), n, all[1..], k - 1, p)
    ensures ChunkIs(s, n, all, k, n + p)
  {
    if n + p < |s| {
      ChunkInRest(s, n, p);
      hide Skipped;
      assert all[k] == all[1..][k - 1];
    }
  }

  lemma ChunkInRest<T>(s: seq<Val<T>>, n: nat, p: nat)
    requires n + p < |s|
    ensures var later := Skipped(s, n);
      later[p..if p + n <= |later| then p + n else |later|]
      == s[n + p..if n + p + n <= |s| then n + p + n else |s|]
  {
  }

  // ----- Deduplication

  /** Of each run of elements that equal its first, that first one is kept; at are the positions of these. */
  lemma OfDedup<T>(of: Plan<T>, cmp: (Val<T>, Val<T>) -> int) returns (at: seq<nat>)
    ensures var s, out := Meaning(of), Meaning(DedupBy(of, cmp));
      && |at| == |out| && (s != [] ==> at != [] && at[0] == 0)
      && (forall j :: 0 <= j < |at| ==> at[j] < |s| && out[j] == s[at[j]])
      && (forall j :: 0 < j < |at| ==> at[j - 1] < at[j] && cmp(s[at[j]], s[at[j - 1]]) != 0)
      && forall j, i :: 0 <= j < |at| && at[j] < i < (if j + 1 < |at| then at[j + 1] else |s|) ==>
           cmp(s[i], s[at[j]]) == 0
  {
    var s := Meaning(of);
    at := [];
    if s != [] {
      at := KeptFrom(s, cmp, 1, 0);
      assert Deduped(s, cmp, None) == [s[0]] + Deduped(s[1..], cmp, Some(s[0]));
    }
  }

  ghost predicate KeptAt<E>(s: seq<E>, cmp: (E, E) -> int, at: seq<nat>) {
    && (forall j :: 0 <= j < |at| ==> at[j] < |s|)
    && (forall j :: 0 < j < |at| ==> at[j - 1] < at[j] && cmp(s[at[j]], s[at[j - 1]]) != 0)
    && forall j, i :: 0 <= j < |at| && at[j] < i < (if j + 1 < |at| then at[j + 1] else |s|) ==>
         cmp(s[i], s[at[j]]) == 0
  }

  /** From k on, l being where the element kept last is. */
  lemma {:induction false} KeptFrom<E>(s: seq<E>, cmp: (E, E) -> int, k: nat, l: nat) returns (at: seq<nat>)
    requires l < k <= |s| && forall i :: l < i < k ==> cmp(s[i], s[l]) == 0
    ensures at != [] && at[0] == l && KeptAt(s, cmp, at)
    ensures |at| == 1 + |Deduped(s[k..], cmp, Some(s[l]))|
    ensures forall j :: 0 < j < |at| ==> Deduped(s[k..], cmp, Some(s[l]))[j - 1] == s[at[j]]
    decreases |s| - k
  {
    if k == |s| {
      at := [l];
    } else {
      assert s[k..][1..] == s[k + 1..];
      DedupedStep(s[k..], cmp, Some(s[l]));
      hide Deduped;
      if cmp(s[k], s[l]) == 0 {
        at := KeptFrom(s, cmp, k + 1, l);
      } else {
        var rest := KeptFrom(s, cmp, k + 1, k);
        at := [l] + rest;
        var out, later := Deduped(s[k..], cmp, Some(s[l])), Deduped(s[k + 1..], cmp, Some(s[k]));
        forall j | 0 < j < |at|
          ensures out[j - 1] == s[at[j]]
        {
          if j > 1 {
            assert at[j] == rest[j - 1] && later[j - 2] == s[rest[j - 1]] && out[1..][j - 2] == out[j - 1];
          }
        }
        KeptCons(s, cmp, l, rest);
      }
    }
  }

  lemma KeptCons<E>(s: seq<E>, cmp: (E, E) -> int, l: nat, rest: seq<nat>)
    requires rest != [] && KeptAt(s, cmp, rest) && l < rest[0] && cmp(s[rest[0]], s[l]) != 0
    requires forall i :: l < i < rest[0] ==> cmp(s[i], s[l]) == 0
    ensures KeptAt(s, cmp, [l] + rest)
  {
    assert rest[0] < |s|;
    var at := [l] + rest;
    forall j | 0 <= j < |at|
      ensures at[j] < |s|
    {
      assert j > 0 ==> at[j] == rest[j - 1];
    }
    forall j | 0 < j < |at|
      ensures at[j - 1] < at[j] && cmp(s[at[j]], s[at[j - 1]]) != 0
    {
      KeptNext(s, cmp, l, rest, j);
    }
    forall j, i | 0 <= j < |at| && at[j] < i < (if j + 1 < |at| then at[j + 1] else |s|)
      ensures cmp(s[i], s[at[j]]) == 0
    {
      DroppedAfter(s, cmp, l, rest, j, i);
    }
  }

  lemma KeptNext<E>(s: seq<E>, cmp: (E, E) -> int, l: nat, rest: seq<nat>, j: nat)
    requires rest != [] && KeptAt(s, cmp, rest) && l < rest[0] && cmp(s[rest[0]], s[l]) != 0 && 0 < j <= |rest|
    ensures var at := [l] + rest;
      at[j] < |s| && at[j - 1] < at[j] && cmp(s[at[j]], s[at[j - 1]]) != 0
  {
    if j > 1 {
      var i := j - 1;
      assert rest[i - 1] < rest[i] && cmp(s[rest[i]], s[rest[i - 1]]) != 0;
    }
  }

  lemma DroppedAfter<E>(s: seq<E>, cmp: (E, E) -> int, l: nat, rest: seq<nat>, j: nat, i: int)
    requires rest != [] && KeptAt(s, cmp, rest) && l < rest[0]
    requires forall i :: l < i < rest[0] ==> cmp(s[i], s[l]) == 0
    requires var at := [l] + rest; j < |at| && at[j] < i < (if j + 1 < |at| then at[j + 1] else |s|)
    ensures cmp(s[i], s[([l] + rest)[j]]) == 0
  {
    var at := [l] + rest;
    if j > 0 {
      var p := j - 1;
      assert at[j] == rest[p] && (j + 1 < |at| ==> at[j + 1] == rest[p + 1]);
      assert rest[p] < i < (if p + 1 < |rest| then rest[p + 1] else |s|);
    } else {
      assert at[1] == rest[0];
    }
  }

  // ----- Sub-pipelines

  ghost predicate LiesAt<E>(out: seq<E>, at: seq<nat>, i: nat, part: seq<E>)
    requires i + 1 < |at|
  {
    at[i] <= at[i + 1] <= |out| && out[at[i]..at[i + 1]] == part
  }

  /** Between at[i] and at[i + 1] lies what the sub-pipeline of element i yields. */
  lemma OfFlatMap<T(!new)>(of: Plan<T>, fn: Val<T> -> Plan<T>, level: nat, copies: bool) returns (at: seq<nat>)
    requires forall v :: Rank(fn(v)) < level
    ensures var s, out := Meaning(of), Meaning(FlatMapBy(of, fn, level, copies));
      && |at| == |s| + 1 && at[0] == 0 && at[|s|] == |out|
      && forall i :: 0 <= i < |s| ==> LiesAt(out, at, i, Meaning(fn(s[i])))
  {
    var s, f := Meaning(of), Subs(fn, level);
    FlatMapMeaning(FlatMapBy(of, fn, level, copies));
    at := Bounds(s, f);
    assert forall v :: f(v) == Meaning(fn(v));
  }

  lemma {:induction false} Bounds<E, F>(s: seq<E>, f: E -> seq<F>) returns (at: seq<nat>)
    ensures var out := FlatMapped(s, f);
      && |at| == |s| + 1 && at[0] == 0 && at[|s|] == |out|
      && forall i :: 0 <= i < |s| ==> LiesAt(out, at, i, f(s[i]))
  {
    at := [0];
    if s != [] {
      var n := |s| - 1;
      var front, x := s[..n], s[n];
      var before := Bounds(front, f);
      FlatMapChain(front, [x], f);
      assert s == front + [x] && FlatMapped([x], f) == f(x) + [] == f(x);
      hide FlatMapped;
      var out, done := FlatMapped(s, f), FlatMapped(front, f);
      at := before + [|out|];
      forall i | 0 <= i < |s|
        ensures LiesAt(out, at, i, f(s[i]))
      {
        if i < n {
          assert LiesAt(done, before, i, f(front[i]));
          PartOfFront(out, done, before[i], before[i + 1], f(x));
        }
      }
    }
  }

  lemma PartOfFront<E>(out: seq<E>, front: seq<E>, i: nat, j: nat, more: seq<E>)
    requires out == front + more && i <= j <= |front|
    ensures out[i..j] == front[i..j]
  {
  }

  // ----- The rule for views

  /** Nowhere a window or a chunk. */
  ghost predicate NoViews<T(!new)>(plan: Plan<T>)
    decreases Rank(plan)
  {
    match plan
    case Items(_) => true
    case ItemsRev(_) => true
    case Answers(_) => true
    case WindowsOf(_, _) => false
    case ChunksOf(_, _) => false
    case Append(of, more) => NoViews(of) && NoViews(more)
    case ZipWith(of, more) => NoViews(of) && NoViews(more)
    case FlatMapBy(of, fn, level, _) => NoViews(of) && forall v :: Rank(fn(v)) < level && NoViews(fn(v))
    case _ => NoViews(plan.of)
  }

  /** Without those every composition keeps the rule; and a window or chunk over such a one does. */
  lemma {:induction false} PlainIsProper<T(!new)>(plan: Plan<T>, n: nat)
    requires NoViews(plan)
    ensures Proper(plan) && !Live(plan)
    ensures Proper(WindowsOf(plan, n)) && Proper(ChunksOf(plan, n))
    decreases Rank(plan)
  {
    if plan.Append? || plan.ZipWith? {
      PlainIsProper(plan.of, n);
      PlainIsProper(plan.more, n);
    } else if plan.FlatMapBy? {
      PlainIsProper(plan.of, n);
      forall v
        ensures Rank(plan.fn(v)) < plan.level && Proper(plan.fn(v)) && !Live(plan.fn(v))
      {
        PlainIsProper(plan.fn(v), n);
      }
    } else if !plan.Items? && !plan.ItemsRev? && !plan.Answers? {
      PlainIsProper(plan.of, n);
    }
  }
}
