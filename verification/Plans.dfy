// Pipelines as a caller composes them from the adaptors of src/iter/iter.c, and what they are documented to yield.
module Plans {
  import opened Memory
  import opened Seqs
  import opened Sequences

  datatype Plan<!T> =
    | Items(s: seq<Val<T>>)
    | ItemsRev(s: seq<Val<T>>)
    | Answers(polls: seq<Option<Val<T>>>)
    | FilterBy(of: Plan<T>, pred: Val<T> -> bool)
    | MapBy(of: Plan<T>, f: Val<T> -> Val<T>, copies: bool)
    | TakeN(of: Plan<T>, n: nat)
    | TakeWhileBy(of: Plan<T>, pred: Val<T> -> bool)
    | SkipN(of: Plan<T>, n: nat)
    | SkipWhileBy(of: Plan<T>, pred: Val<T> -> bool)
    | Append(of: Plan<T>, more: Plan<T>)
    | ZipWith(of: Plan<T>, more: Plan<T>)
    | WindowsOf(of: Plan<T>, n: nat)
    | ChunksOf(of: Plan<T>, n: nat)
    | PeekableOf(of: Plan<T>)
    | DedupBy(of: Plan<T>, cmp: (Val<T>, Val<T>) -> int)
    | FlatMapBy(of: Plan<T>, fn: Val<T> -> Plan<T>, level: nat, copies: bool)

  /** How deep adaptors are nested; level bounds it for the sub-pipelines that a flat_map makes. */
  function Rank<T>(plan: Plan<T>): nat {
    match plan
    case Items(_) => 0
    case ItemsRev(_) => 0
    case Answers(_) => 0
    case Append(of, more) => Rank(of) + Rank(more) + 1
    case ZipWith(of, more) => Rank(of) + Rank(more) + 1
    case FlatMapBy(of, _, level, _) => Rank(of) + level + 1
    case _ => Rank(plan.of) + 1
  }

  /** What the documentation says the pipeline yields. */
  function Meaning<T>(plan: Plan<T>): seq<Val<T>>
    decreases Rank(plan)
  {
    match plan
    case Items(s) => s
    case ItemsRev(s) => Reverse(s)
    case Answers(polls) => Until(polls)
    case FilterBy(of, pred) => Filter(Meaning(of), pred)
    case MapBy(of, f, _) => Mapped(Meaning(of), f)
    case TakeN(of, n) => Taken(Meaning(of), n)
    case TakeWhileBy(of, pred) => TakenWhile(Meaning(of), pred)
    case SkipN(of, n) => Skipped(Meaning(of), n)
    case SkipWhileBy(of, pred) => SkippedWhile(Meaning(of), pred)
    case Append(of, more) => Meaning(of) + Meaning(more)
    case ZipWith(of, more) => Zipped(Meaning(of), Meaning(more))
    case WindowsOf(of, n) => Windows(Meaning(of), n)
    case ChunksOf(of, n) => Chunks(Meaning(of), n)
    case PeekableOf(of) => Meaning(of)
    case DedupBy(of, cmp) => Deduped(Meaning(of), cmp, None)
    case FlatMapBy(of, fn, level, _) =>
      FlatMapped(Meaning(of), (v: Val<T>) => if Rank(fn(v)) < level then Meaning(fn(v)) else [])
  }

  /**
   * Elements of the pipeline may point into a buffer that the next call overwrites: the views that
   * window and chunks yield, and what hands them on.
   */
  ghost predicate Live<T(!new)>(plan: Plan<T>)
    decreases Rank(plan)
  {
    match plan
    case Items(_) => false
    case ItemsRev(_) => false
    case Answers(_) => false
    case WindowsOf(_, _) => true
    case ChunksOf(_, _) => true
    case MapBy(of, _, copies) => !copies && Live(of)
    case Append(of, more) => Live(of) || Live(more)
    case ZipWith(of, more) => Live(of) || Live(more)
    case FlatMapBy(of, fn, level, copies) =>
      (!copies && Live(of)) || exists v :: Rank(fn(v)) < level && Live(fn(v))
    case _ => Live(plan.of)
  }

  /** Says false without having written anything where the next element was to go. */
  predicate Quiet<T>(plan: Plan<T>) {
    match plan
    case Items(_) => true
    case ItemsRev(_) => true
    case MapBy(_, _, _) => true
    case WindowsOf(_, _) => true
    case ChunksOf(_, _) => true
    case TakeN(of, _) => Quiet(of)
    case PeekableOf(of) => Quiet(of)
    case Append(of, more) => Quiet(of) && Quiet(more)
    case ZipWith(_, more) => Quiet(more)
    case _ => false
  }

  /** The documented rule for callers: no adaptor keeps a view past the next call. Levels are as declared. */
  ghost predicate Proper<T(!new)>(plan: Plan<T>)
    decreases Rank(plan)
  {
    match plan
    case Items(_) => true
    case ItemsRev(_) => true
    case Answers(_) => true
    case WindowsOf(of, _) => Proper(of) && !Live(of)
    case ChunksOf(of, _) => Proper(of) && !Live(of)
    case DedupBy(of, _) => Proper(of) && !Live(of)
    case Append(of, more) => Proper(of) && Proper(more)
    case ZipWith(of, more) => Proper(of) && Proper(more)
    case FlatMapBy(of, fn, level, _) => Proper(of) && forall v :: Rank(fn(v)) < level && Proper(fn(v))
    case _ => Proper(plan.of)
  }

  /** No take_while, and no source that answers again after a false, except first in a chain. */
  ghost predicate StaysExhausted<T>(plan: Plan<T>) {
    match plan
    case Items(_) => true
    case ItemsRev(_) => true
    case Answers(polls) => Latched(polls)
    case TakeWhileBy(_, _) => false
    case Append(_, more) => StaysExhausted(more)
    case ZipWith(of, more) => StaysExhausted(of) && StaysExhausted(more)
    case _ => StaysExhausted(plan.of)
  }

  /** The elements of the sub-pipeline that a flat_map makes for each outer element. */
  function Subs<T>(fn: Val<T> -> Plan<T>, level: nat): Val<T> -> seq<Val<T>> {
    (v: Val<T>) => if Rank(fn(v)) < level then Meaning(fn(v)) else []
  }

  lemma FlatMapMeaning<T>(plan: Plan<T>)
    requires plan.FlatMapBy?
    ensures Meaning(plan) == FlatMapped(Meaning(plan.of), Subs(plan.fn, plan.level))
  {
    SameFlatMap(Meaning(plan.of), (v: Val<T>) => if Rank(plan.fn(v)) < plan.level then Meaning(plan.fn(v)) else [],
      Subs(plan.fn, plan.level));
  }

  lemma {:induction false} SameFlatMap<E, F>(s: seq<E>, f: E -> seq<F>, g: E -> seq<F>)
    requires forall x :: x in s ==> f(x) == g(x)
    ensures FlatMapped(s, f) == FlatMapped(s, g)
  {
    if s != [] {
      SameFlatMap(s[1..], f, g);
    }
  }

  /** The sub-pipelines of f, each with a flat_map of its own over it. */
  function Within<T>(f: Val<T> -> Plan<T>, g: Val<T> -> Plan<T>, level: nat, copies: bool): Val<T> -> Plan<T> {
    (v: Val<T>) => FlatMapBy(f(v), g, level, copies)
  }

  /** A flat_map over a flat_map yields what the one with the other in its sub-pipelines does. */
  lemma FlatMapsNest<T(!new)>(
    of: Plan<T>, f: Val<T> -> Plan<T>, m: nat, g: Val<T> -> Plan<T>, n: nat, copies: bool)
    requires forall v :: Rank(f(v)) < m
    ensures Meaning(FlatMapBy(FlatMapBy(of, f, m, copies), g, n, copies)) ==
            Meaning(FlatMapBy(of, Within(f, g, n, copies), m + n + 1, copies))
  {
    hide Meaning, Rank, Subs, Within;
    var h, l := Within(f, g, n, copies), m + n + 1;
    var once := FlatMapBy(of, f, m, copies);
    FlatMapMeaning(once);
    FlatMapMeaning(FlatMapBy(once, g, n, copies));
    FlatMapMeaning(FlatMapBy(of, h, l, copies));
    forall v
      ensures Subs(h, l)(v) == FlatMapped(Subs(f, m)(v), Subs(g, n))
    {
      SubsNest(f, m, g, n, copies, v);
    }
    FlatMapNests(Meaning(of), Subs(f, m), Subs(g, n), Subs(h, l));
  }

  lemma SubsNest<T>(f: Val<T> -> Plan<T>, m: nat, g: Val<T> -> Plan<T>, n: nat, copies: bool, v: Val<T>)
    requires Rank(f(v)) < m
    ensures Subs(Within(f, g, n, copies), m + n + 1)(v) == FlatMapped(Subs(f, m)(v), Subs(g, n))
  {
    var plan := Within(f, g, n, copies)(v);
    assert plan == FlatMapBy(f(v), g, n, copies) && Rank(plan) == Rank(f(v)) + n + 1;
    FlatMapMeaning(plan);
    hide Meaning;
  }
}
