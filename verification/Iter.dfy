// src/iter/iter.c: lazy iterators. Each adaptor owns its source and advances a few fields per call.
module Iter {
  import opened Memory
  import opened Seqs
  import opened Sequences
  import opened Plans

  /** Memory that window and chunks write over from call to call. */
  class Buffer<T> {
    var cells: seq<Val<T>>

    constructor ()
      ensures cells == []
    {
      cells := [];
    }
  }

  /**
   * An element as it is handed out. A Slice points into a buffer, so what it reads as depends on when
   * it is read; Via is what a mapping function made of an element without copying it.
   */
  datatype Raw<!T> =
    | Plain(val: Val<T>)
    | Joint(left: Raw<T>, right: Raw<T>)
    | Slice(buf: Buffer<T>, len: nat)
    | Via(f: Val<T> -> Val<T>, of: Raw<T>)
  {
    ghost function Bufs(): set<Buffer<T>> {
      match this
      case Plain(_) => {}
      case Joint(l, r) => l.Bufs() + r.Bufs()
      case Slice(b, _) => {b}
      case Via(_, of) => of.Bufs()
    }

    function Read(): Val<T>
      reads Bufs()
    {
      match this
      case Plain(v) => v
      case Joint(l, r) => Pair(l.Read(), r.Read())
      case Slice(b, len) => View(Taken(b.cells, len))
      case Via(f, of) => f(of.Read())
    }
  }

  lemma SliceReads<T>(buf: Buffer<T>, len: nat)
    ensures Slice(buf, len).Bufs() == {buf} && Slice(buf, len).Read() == View(Taken(buf.cells, len))
  {
  }

  /** A source that had nothing more to yield may have written the first cell, unless it is quiet. */
  ghost predicate Scribbled<T>(before: seq<Val<T>>, after: seq<Val<T>>, quiet: bool) {
    |after| == |before| && (before != [] ==> after[1..] == before[1..]) && (quiet ==> after == before)
  }

  /** Cells shifted left by one; the last is as it was, or written by a source that had nothing more to yield. */
  ghost predicate ShiftedOut<T>(before: seq<Val<T>>, after: seq<Val<T>>, n: nat, quiet: bool) {
    |before| == n == |after| > 0 && after[..n - 1] == before[1..] && (quiet ==> after[n - 1] == before[n - 1])
  }

  /** Which next function an iterator runs, with the fields that function reads and writes. */
  datatype Kind<!T(!new)> =
    | FromSlice(items: seq<Val<T>>, pos: nat)
    | FromSliceRev(items: seq<Val<T>>, left: nat)
    | Generate(polls: seq<Option<Val<T>>>)
    | Filter(pred: Val<T> -> bool)
    | Map(f: Val<T> -> Val<T>, copies: bool)
    | Take(remaining: nat)
    | TakeWhile(pred: Val<T> -> bool)
    | Skip(remaining: nat)
    | SkipWhile(pred: Val<T> -> bool, doneSkipping: bool)
    | Chain(doneFirst: bool)
    | Zip
    | Window(n: nat, buf: Buffer<T>, primed: bool)
    | Chunk(n: nat, buf: Buffer<T>, done: bool)
    | Peekable(peeked: Option<Raw<T>>, sourceDone: bool)
    | Dedup(cmp: (Val<T>, Val<T>) -> int, last: Option<Raw<T>>)
    | FlatMap(fn: Val<T> -> Plan<T>, level: nat, copies: bool)
  {
    predicate IsLeaf() {
      FromSlice? || FromSliceRev? || Generate?
    }

    predicate IsBinary() {
      Chain? || Zip?
    }

    /** The adaptors that keep an element while they poll their source again. */
    predicate Keeps() {
      Window? || Chunk? || Dedup?
    }

    /** A copying map or flat_map: what it hands out does not point into what it was handed. */
    predicate Copies() {
      (Map? || FlatMap?) && copies
    }

    predicate YieldsViews() {
      Window? || Chunk?
    }

    /** The adaptors that hand on what they were handed, as it is. */
    predicate Passes() {
      Filter? || Take? || TakeWhile? || Skip? || SkipWhile?
    }

    /** Says false without having written anything where the next element was to go, given that of its sources. */
    predicate Quiet(a: bool, b: bool) {
      match this
      case FromSlice(_, _) => true
      case FromSliceRev(_, _) => true
      case Map(_, _) => true
      case Window(_, _, _) => true
      case Chunk(_, _, _) => true
      case Take(_) => a
      case Peekable(_, _) => a
      case Chain(_) => a && b
      case Zip => b
      case _ => false
    }

    ghost predicate SameFunction(that: Kind<T>) {
      && !IsLeaf() && !that.IsLeaf()
      && Passes() == that.Passes()
      && IsBinary() == that.IsBinary() && FlatMap? == that.FlatMap? && Keeps() == that.Keeps()
      && TakeWhile? == that.TakeWhile? && Chain? == that.Chain? && Own() == that.Own() && Map? == that.Map?
      && ((Map? || FlatMap?) ==> this == that)
    }

    ghost predicate WellFormed() {
      && (FromSlice? ==> pos <= |items|)
      && (FromSliceRev? ==> left <= |items|)
      && (Dedup? && last.Some? ==> last.value.Bufs() == {})
    }

    /** The sub-pipelines are proper, and live only if that is declared. */
    ghost predicate SubsFit(live: bool)
      requires FlatMap?
    {
      forall v :: Rank(fn(v)) < level && Proper(fn(v)) && (Live(fn(v)) ==> live)
    }

    /** The buffer that this adaptor allocated. */
    ghost function Own(): set<Buffer<T>> {
      if Window? || Chunk? then {buf} else {}
    }

    /** The memory on which what remains to be yielded depends. */
    ghost function Holds(): set<Buffer<T>> {
      if Window? then {buf}
      else if Peekable? && peeked.Some? then peeked.value.Bufs()
      else if Dedup? && last.Some? then last.value.Bufs()
      else {}
    }

    /** The elements it keeps, as they read now. */
    ghost function Held(): seq<Val<T>>
      reads Holds()
    {
      if Window? then buf.cells
      else if Peekable? && peeked.Some? then [peeked.value.Read()]
      else if Dedup? && last.Some? then [last.value.Read()]
      else []
    }

    /** What remains to be yielded before the first false, given what is kept and what remains in the sources. */
    ghost function Denote(a: seq<Val<T>>, b: seq<Val<T>>, held: seq<Val<T>>): seq<Val<T>>
      requires WellFormed()
    {
      match this
      case FromSlice(items, pos) => items[pos..]
      case FromSliceRev(items, left) => Reverse(items[..left])
      case Generate(polls) => Until(polls)
      case Filter(pred) => Seqs.Filter(a, pred)
      case Map(f, _) => Mapped(a, f)
      case Take(remaining) => Taken(a, remaining)
      case TakeWhile(pred) => TakenWhile(a, pred)
      case Skip(remaining) => Skipped(a, remaining)
      case SkipWhile(pred, doneSkipping) => if doneSkipping then a else SkippedWhile(a, pred)
      case Chain(doneFirst) => if doneFirst then b else a + b
      case Zip => Zipped(a, b)
      case Window(n, _, primed) => Windows(if primed then Skipped(held, 1) + a else a, n)
      case Chunk(n, _, done) => if done then [] else Chunks(a, n)
      case Peekable(_, sourceDone) => held + (if sourceDone then [] else a)
      case Dedup(cmp, _) => Deduped(a, cmp, if held == [] then None else Some(held[0]))
      case FlatMap(fn, level, _) => b + FlatMapped(a, Subs(fn, level))
    }
  }

  class Iter<T(!new)> {
    var kind: Kind<T>
    var src: Iter?<T>
    var snd: Iter?<T>  // the second of chain and zip; the active sub-iterator of flat_map
    ghost var Repr: set<object>
    ghost var rest: seq<Val<T>>  // what remains to be yielded before the first false
    ghost const depth: nat
    ghost const fused: bool  // once it has answered false, it always will
    ghost const live: bool  // what it hands out may change with the next call
    ghost const slab: Option<Buffer<T>>  // the one buffer that all it hands out are slices of, if there is one
    const quiet: bool  // it says false without having written anything where the next element was to go
    ghost const tidy: bool  // an adaptor that yields views of a quiet source

    /** The sources are intact and owned, whatever rest and Repr say. */
    ghost predicate Loose()
      reads this, kind.Own(), src, snd, if src != null then src.Repr else {}, if snd != null then snd.Repr else {}
      decreases depth, 0
    {
      && kind.WellFormed()
      && (kind.IsLeaf() <==> src == null)
      && (snd != null ==> kind.IsBinary() || kind.FlatMap?)
      && (kind.IsBinary() ==> snd != null)
      && (src != null ==> src.depth < depth && src.Valid() && this !in src.Repr && src.Repr !! kind.Own())
      && (snd != null ==> snd.depth < depth && snd.Valid() && this !in snd.Repr && snd.Repr !! kind.Own())
      && (src != null && snd != null ==> src.Repr !! snd.Repr)
      && (kind.Window? && kind.primed ==> |kind.buf.cells| == kind.n > 0)
      && (kind.Peekable? && kind.peeked.Some? ==> kind.Holds() <= src.Repr && (live || kind.Holds() == {}))
      && (kind.FlatMap? ==> kind.level < depth && kind.SubsFit(live))
      && HandsOn()
      && (fused ==>
        && !kind.TakeWhile?
        && (kind.Generate? ==> Latched(kind.polls))
        && (src != null && !kind.Chain? ==> src.fused)
        && (kind.IsBinary() ==> snd.fused))
    }

    /**
     * What the call does to the buffer: a window or a chunk is written over what was there. The call that finds
     * the source at its end shifts a window's buffer all the same, and the source may have written where it was
     * asked to.
     */
    ghost predicate ViewOf(was: Kind<T>, cells: seq<Val<T>>, before: seq<Val<T>>, r: Option<Raw<T>>)
      requires was.YieldsViews() && (r.Some? ==> before != [])
      reads this, kind.Own()
    {
      && kind.YieldsViews() && kind.buf == was.buf && kind.Window? == was.Window? && kind.n == was.n
      && (r.Some? && kind.Window? ==> kind.primed && kind.buf.cells == ItemsOf(before[0]))
      && (r.Some? && kind.Chunk? && tidy ==> kind.buf.cells == Overwrite(cells, ItemsOf(before[0])))
      && (r.None? && was.Window? && was.primed ==> kind.primed && ShiftedOut(cells, kind.buf.cells, kind.n, tidy))
      && (r.None? && was.Chunk? ==> Scribbled(cells, kind.buf.cells, tidy))
    }

    /** What is live in the sources is live here, unless it is copied; nobody keeps it. */
    ghost predicate HandsOn()
      reads this
    {
      && (kind.Window? || kind.Chunk? ==> live)
      && (tidy ==> src != null && src.quiet)
      && (slab.Some? ==> kind.YieldsViews() || (kind.Passes() && src != null && src.slab == slab))
      && (kind.YieldsViews() ==> slab == Some(kind.buf))
      && (src != null && src.live ==> !kind.Keeps() && (live || kind.Copies()))
      && (snd != null && snd.live ==> live)
    }

    ghost function Left(): seq<Val<T>>
      reads this, src
    {
      if src != null then src.rest else []
    }

    ghost function Right(): seq<Val<T>>
      reads this, snd
    {
      if snd != null then snd.rest else []
    }

    ghost function Owned(): set<object>
      reads this, src, snd
    {
      {this} + kind.Own() + (if src != null then src.Repr else {}) + (if snd != null then snd.Repr else {})
    }

    ghost predicate Within()
      reads this, src, snd
    {
      (src != null ==> src.Repr <= Owned()) && (snd != null ==> snd.Repr <= Owned())
    }

    ghost predicate Valid()
      reads this, Repr
      ensures Valid() ==> this in Repr
      decreases depth, 1
    {
      && this in Repr
      && kind.Own() <= Repr
      && (src != null ==> src in Repr && src.Repr <= Repr)
      && (snd != null ==> snd in Repr && snd.Repr <= Repr)
      && Repr == Owned()
      && Loose()
      && kind.Holds() <= Repr && (slab.Some? ==> slab.value in Repr)
      && rest == kind.Denote(Left(), Right(), kind.Held())
    }

    /** The element reads as v now, from memory of this iterator; it reads so for ever unless the iterator is live. */
    ghost predicate Hands(r: Raw<T>, v: Val<T>)
      reads this, r.Bufs()
    {
      r.Read() == v && r.Bufs() <= Repr && (live || r.Bufs() == {}) && OnSlab(r, v)
    }

    /** Likewise, from the memory that is owned now, whatever Repr says. */
    ghost predicate Handed(r: Raw<T>, v: Val<T>)
      reads this, src, snd, r.Bufs()
    {
      r.Read() == v && r.Bufs() <= Owned() && (live || r.Bufs() == {}) && OnSlab(r, v)
    }

    ghost predicate OnSlab(r: Raw<T>, v: Val<T>) {
      slab.Some? ==> r == Slice(slab.value, |ItemsOf(v)|)
    }

    /** One answer, given what remained before the call. */
    ghost predicate Advanced(before: seq<Val<T>>, r: Option<Raw<T>>)
      reads this, if r.Some? then r.value.Bufs() else {}
    {
      && (before == [] ==> r == None)
      && (before != [] ==> r.Some? && Hands(r.value, before[0]) && rest == before[1..])
      && (before == [] && fused ==> rest == [])
    }

    constructor Leaf(kind: Kind<T>)
      requires kind.IsLeaf() && kind.WellFormed()
      ensures Valid() && fresh(Repr) && depth == 0 && !live && this.kind == kind
      ensures rest == kind.Denote([], [], []) && quiet == kind.Quiet(false, false)
      ensures fused <==> (kind.Generate? ==> Latched(kind.polls))
    {
      this.kind, src, snd, live := kind, null, null, false;
      slab, quiet, tidy := None, kind.Quiet(false, false), false;
      Repr, rest, depth := {this}, kind.Denote([], [], []), 0;
      fused := kind.Generate? ==> Latched(kind.polls);
    }

    constructor Over(kind: Kind<T>, source: Iter<T>, ghost live: bool)
      requires !kind.IsLeaf() && !kind.IsBinary() && kind.WellFormed() && source.Valid()
      requires source.Repr !! kind.Own() && kind.Held() == [] && kind.Holds() <= kind.Own()
      requires kind.Window? ==> !kind.primed
      requires kind.Peekable? ==> kind.peeked == None
      requires kind.Window? || kind.Chunk? ==> live
      requires source.live ==> !kind.Keeps() && (live || kind.Copies())
      requires kind.FlatMap? ==> kind.SubsFit(live)
      ensures Valid() && fresh(Repr - source.Repr - kind.Own()) && this.kind == kind && this.live == live
      ensures rest == kind.Denote(source.rest, [], [])
      ensures depth == source.depth + 1 + if kind.FlatMap? then kind.level else 0
      ensures fused <==> !kind.TakeWhile? && source.fused
      ensures slab == if kind.YieldsViews() then Some(kind.buf) else if kind.Passes() then source.slab else None
      ensures quiet == kind.Quiet(source.quiet, false) && tidy == (kind.YieldsViews() && source.quiet)
    {
      hide Kind.Denote;
      this.kind, src, snd, this.live := kind, source, null, live;
      slab := if kind.YieldsViews() then Some(kind.buf) else if kind.Passes() then source.slab else None;
      quiet, tidy := kind.Quiet(source.quiet, false), kind.YieldsViews() && source.quiet;
      Repr, rest := {this} + kind.Own() + source.Repr, kind.Denote(source.rest, [], []);
      depth := source.depth + 1 + if kind.FlatMap? then kind.level else 0;
      fused := !kind.TakeWhile? && source.fused;
    }

    constructor Both(kind: Kind<T>, a: Iter<T>, b: Iter<T>)
      requires kind.IsBinary() && a.Valid() && b.Valid() && a.Repr !! b.Repr
      ensures Valid() && fresh(Repr - a.Repr - b.Repr) && this.kind == kind && live == (a.live || b.live)
      ensures rest == kind.Denote(a.rest, b.rest, []) && depth == a.depth + b.depth + 1
      ensures fused <==> (kind.Chain? || a.fused) && b.fused
      ensures quiet == kind.Quiet(a.quiet, b.quiet)
    {
      hide Kind.Denote;
      this.kind, src, snd, live := kind, a, b, a.live || b.live;
      slab, quiet, tidy := None, kind.Quiet(a.quiet, b.quiet), false;
      depth := a.depth + b.depth + 1;
      fused := (kind.Chain? || a.fused) && b.fused;
      new;
      Seal(None);
    }

    lemma Unfold()
      requires Valid()
      ensures Loose() && Repr == Owned() && rest == kind.Denote(Left(), Right(), kind.Held()) && Within()
      ensures kind.IsLeaf() <==> src == null
      ensures snd != null ==> kind.IsBinary() || kind.FlatMap?
      ensures kind.IsBinary() ==> snd != null
      ensures kind.WellFormed() && HandsOn() && (slab.None? || kind.YieldsViews() || kind.Passes())
      ensures kind.YieldsViews() ==> slab == Some(kind.buf)
      ensures kind.Window? && kind.primed ==> |kind.buf.cells| == kind.n
      ensures kind.Peekable? && kind.peeked.Some? ==> kind.Holds() <= src.Repr && (live || kind.Holds() == {})
      ensures fused ==> (src != null && !kind.Chain? ==> src.fused) && (kind.IsBinary() ==> snd.fused)
    {
    }

    lemma Closed()
      requires Loose() && Repr == Owned() && rest == kind.Denote(Left(), Right(), kind.Held())
      ensures Valid()
    {
      hide Kind.Denote, Kind.Held;
    }

    /** What was handed out reads as before. */
    ghost method Seal(r: Option<Raw<T>>)
      requires Loose()
      modifies this`Repr, this`rest
      ensures Valid() && Repr == Owned() == old(Owned())
      ensures Left() == old(Left()) && Right() == old(Right()) && rest == kind.Denote(Left(), Right(), kind.Held())
      ensures kind.Held() == old(kind.Held())
      ensures r.Some? ==> r.value.Read() == old(r.value.Read())
    {
      hide Kind.Denote, Iter.Valid;
      if r.Some? {
        assert forall b: Buffer<T> :: b in r.value.Bufs() ==> (b as object) != this;
      }
      Repr := Owned();
      rest := kind.Denote(Left(), Right(), kind.Held());
      Closed();
    }

    /** `iter_next`: whichever next function the iterator carries. */
    method Next() returns (r: Option<Raw<T>>)
      requires Valid()
      modifies Repr
      ensures Valid() && fresh(Repr - old(Repr))
      ensures Advanced(old(rest), r) && kind.Peekable? == old(kind.Peekable?)
      ensures old(kind.YieldsViews()) ==> ViewOf(old(kind), old(kind.buf.cells), old(rest), r)
      decreases depth, 5
    {
      match kind {
        case FromSlice(_, _) => r := NextSlice();
        case FromSliceRev(_, _) => r := NextSliceRev();
        case Generate(_) => r := NextGenerated();
        case Filter(_) => r := NextFiltered();
        case Map(_, _) => r := NextMapped();
        case Take(_) => r := NextTaken();
        case TakeWhile(_) => r := NextTakenWhile();
        case Skip(_) => r := NextSkipped();
        case SkipWhile(_, _) => r := NextSkippedWhile();
        case Chain(_) => r := NextChained();
        case Zip => r := NextZipped();
        case Window(_, _, _) => r := NextWindow();
        case Chunk(_, _, _) => r := NextChunk();
        case Peekable(_, _) => r := NextPeekable();
        case Dedup(_, _) => r := NextDeduped();
        case FlatMap(_, _, _) => r := NextFlatMapped();
      }
    }

    /** Write back the fields of the same next function. */
    method Become(next: Kind<T>)
      requires Loose() && next.WellFormed() && kind.SameFunction(next)
      requires next.Window? && next.primed ==> |next.buf.cells| == next.n > 0
      requires next.Peekable? && next.peeked.Some? ==>
        src != null && next.Holds() <= src.Repr && (live || next.Holds() == {})
      modifies this`kind
      ensures Loose() && kind == next && Within() && Owned() == old(Owned())
    {
      hide Iter.Valid;
      kind := next;
    }

    /** Write the buffer. */
    method Store(cells: seq<Val<T>>)
      requires Loose() && (kind.Window? || kind.Chunk?)
      requires kind.Window? && kind.primed ==> |cells| == kind.n
      modifies kind.buf
      ensures Loose() && Within() && kind.buf.cells == cells && Left() == old(Left()) && Owned() == old(Owned())
    {
      hide Iter.Valid;
      kind.buf.cells := cells;
    }

    /** Poll the source. */
    method Pull() returns (r: Option<Raw<T>>)
      requires Loose() && src != null && !(kind.Peekable? && kind.peeked.Some?)
      modifies src.Repr
      ensures Loose() && Within() && src.Advanced(old(src.rest), r) && kind.Held() == old(kind.Held())
      ensures r.Some? ==> r.value.Bufs() <= Owned() && (!src.live ==> r.value.Bufs() == {})
      ensures r.Some? && !kind.Copies() ==> live || r.value.Bufs() == {}
      ensures r.Some? && kind.Passes() ==> OnSlab(r.value, old(src.rest)[0])
      ensures kind.Window? || kind.Chunk? ==> kind.buf.cells == old(kind.buf.cells)
      ensures Right() == old(Right()) && fresh(Owned() - old(Owned())) && fresh(src.Repr - old(src.Repr))
      ensures kind == old(kind) && src == old(src) && snd == old(snd) && Repr == old(Repr) && rest == old(rest)
      decreases depth, 0
    {
      r := src.Next();
    }

    /** Poll the other source, or the active sub-iterator, while an element of the first is at hand. */
    method PullOther(kept: Raw<T>) returns (r: Option<Raw<T>>)
      requires Loose() && src != null && snd != null && kept.Bufs() <= src.Repr
      modifies snd.Repr
      ensures Loose() && Within() && snd.Advanced(old(snd.rest), r) && kept.Read() == old(kept.Read())
      ensures src.Repr == old(src.Repr)
      ensures r.Some? ==> r.value.Bufs() <= Owned() && (live || r.value.Bufs() == {})
      ensures Left() == old(Left()) && fresh(Owned() - old(Owned())) && fresh(snd.Repr - old(snd.Repr))
      ensures kind == old(kind) && src == old(src) && snd == old(snd) && Repr == old(Repr) && rest == old(rest)
      decreases depth, 0
    {
      r := snd.Next();
    }

    method NextSlice() returns (r: Option<Raw<T>>)
      requires Valid() && kind.FromSlice?
      modifies Repr
      ensures Valid() && fresh(Repr - old(Repr)) && Advanced(old(rest), r) && kind.FromSlice?
    {
      if kind.pos >= |kind.items| {
        return None;
      }
      r := Some(Plain(kind.items[kind.pos]));
      kind := FromSlice(kind.items, kind.pos + 1);
      Seal(r);
    }

    method NextSliceRev() returns (r: Option<Raw<T>>)
      requires Valid() && kind.FromSliceRev?
      modifies Repr
      ensures Valid() && fresh(Repr - old(Repr)) && Advanced(old(rest), r) && kind.FromSliceRev?
    {
      if kind.left == 0 {
        return None;
      }
      ghost var before := kind.items[..kind.left];
      kind := FromSliceRev(kind.items, kind.left - 1);
      assert before == kind.items[..kind.left] + [kind.items[kind.left]];
      ReverseConcat(kind.items[..kind.left], [kind.items[kind.left]]);
      r := Some(Plain(kind.items[kind.left]));
      Seal(r);
    }

    /** The caller's function answers as it likes; polls lists its answers to come. */
    method NextGenerated() returns (r: Option<Raw<T>>)
      requires Valid() && kind.Generate?
      modifies Repr
      ensures Valid() && fresh(Repr - old(Repr)) && Advanced(old(rest), r) && kind.Generate?
    {
      if kind.polls == [] {
        return None;
      }
      r := if kind.polls[0].None? then None else Some(Plain(kind.polls[0].value));
      if fused {
        LatchedStep(kind.polls);
      }
      kind := kind.(polls := kind.polls[1..]);
      Seal(r);
    }

    method NextFiltered() returns (r: Option<Raw<T>>)
      requires Valid() && kind.Filter?
      modifies Repr
      ensures Valid() && fresh(Repr - old(Repr)) && Advanced(old(rest), r) && kind.Filter?
      decreases depth, 2
    {
      hide Iter.Valid;
      hide Seqs.Filter;
      hide Iter.HandsOn;
      hide Raw.Read, Raw.Bufs;
      hide Iter.Loose;
      Unfold();
      while true
        invariant kind == old(kind) && src == old(src) && snd == null && Loose() && Within()
        invariant fresh(Owned() - old(Repr))
        invariant Seqs.Filter(src.rest, kind.pred) == old(rest)
        decreases |src.rest|
      {
        FilterStep(src.rest, kind.pred);
        r := Pull();
        if r.None? {
          break;
        }
        if kind.pred(r.value.Read()) {
          break;
        }
      }
      FilterStep(src.rest, kind.pred);
      Seal(r);
    }

    method NextMapped() returns (r: Option<Raw<T>>)
      requires Valid() && kind.Map?
      modifies Repr
      ensures Valid() && fresh(Repr - old(Repr)) && Advanced(old(rest), r) && kind.Map?
      decreases depth, 2
    {
      hide Iter.Valid;
      hide Iter.HandsOn;
      hide Iter.Owned;
      hide Iter.Loose;
      hide Mapped;
      Unfold();
      MappedStep(src.rest, kind.f);
      r := Pull();
      if r.Some? {
        r := Some(if kind.copies then Plain(kind.f(r.value.Read())) else Via(kind.f, r.value));
      }
      MappedStep(src.rest, kind.f);
      Seal(r);
    }

    /** Once the count is used up, the source is not touched. */
    method NextTaken() returns (r: Option<Raw<T>>)
      requires Valid() && kind.Take?
      modifies Repr
      ensures Valid() && fresh(Repr - old(Repr)) && Advanced(old(rest), r) && kind.Take? && src == old(src)
      ensures old(kind.remaining) == 0 ==> Left() == old(Left())
      decreases depth, 2
    {
      hide Iter.Valid;
      hide Iter.HandsOn;
      hide Iter.Owned;
      hide Raw.Read, Raw.Bufs;
      hide Iter.Loose;
      Unfold();
      if kind.remaining == 0 {
        return None;
      }
      r := Pull();
      if r.Some? {
        Become(Take(kind.remaining - 1));
      }
      Seal(r);
    }

    /** The element that fails the predicate is consumed, and nothing remembers that it came. */
    method NextTakenWhile() returns (r: Option<Raw<T>>)
      requires Valid() && kind.TakeWhile?
      modifies Repr
      ensures Valid() && fresh(Repr - old(Repr)) && Advanced(old(rest), r) && kind == old(kind) && src == old(src)
      ensures old(Left()) != [] ==> Left() == old(Left())[1..]
      ensures old(Left()) == [] && src != null && src.fused ==> Left() == []
      decreases depth, 2
    {
      hide Iter.Valid;
      hide Iter.HandsOn;
      hide Iter.Owned;
      hide Raw.Read, Raw.Bufs;
      hide Iter.Loose;
      Unfold();
      r := Pull();
      if r.Some? && !kind.pred(r.value.Read()) {
        r := None;
      }
      Seal(r);
    }

    /** Pass over what is still to be skipped. */
    method Discard(ghost goal: seq<Val<T>>) returns (ok: bool)
      requires Loose() && Within() && kind.Skip? && src != null
      requires Skipped(src.rest, kind.remaining) == goal
      modifies this`kind, src.Repr
      ensures Loose() && Within() && fresh(Owned() - old(Owned())) && fresh(src.Repr - old(src.Repr))
      ensures kind.Skip? && src == old(src) && snd == old(snd) && Repr == old(Repr) && rest == old(rest)
      ensures ok ==> kind.remaining == 0 && src.rest == goal
      ensures !ok ==> goal == [] && (src.fused ==> src.rest == [])
      decreases depth, 1
    {
      hide Iter.Valid, Iter.HandsOn, Raw.Read, Raw.Bufs, Iter.Loose;
      while kind.remaining > 0
        invariant kind.Skip? && src == old(src) && snd == old(snd) && Repr == old(Repr) && rest == old(rest)
        invariant Loose() && Within() && fresh(Owned() - old(Owned())) && fresh(src.Repr - old(src.Repr))
        invariant Skipped(src.rest, kind.remaining) == goal
        decreases kind.remaining
      {
        var r := Pull();
        if r.None? {
          return false;
        }
        Become(Skip(kind.remaining - 1));
      }
      ok := true;
    }

    method NextSkipped() returns (r: Option<Raw<T>>)
      requires Valid() && kind.Skip?
      modifies Repr
      ensures Valid() && fresh(Repr - old(Repr)) && Advanced(old(rest), r) && kind.Skip?
      decreases depth, 2
    {
      hide Iter.Valid, Iter.HandsOn, Raw.Read, Raw.Bufs, Iter.Loose;
      Unfold();
      var ok := Discard(rest);
      r := None;
      if ok {
        r := Pull();
      }
      Seal(r);
    }

    ghost function Ahead(): seq<Val<T>>
      requires kind.SkipWhile?
      reads this, src
    {
      if kind.doneSkipping then Left() else SkippedWhile(Left(), kind.pred)
    }

    lemma DenotesAhead()
      requires kind.SkipWhile?
      ensures kind.Denote(Left(), Right(), kind.Held()) == Ahead()
      ensures Left() == [] ==> Ahead() == []
    {
    }

    /** The first element that is not skipped. */
    method PullPast(ghost goal: seq<Val<T>>) returns (r: Option<Raw<T>>)
      requires Loose() && Within() && kind.SkipWhile? && src != null && Ahead() == goal
      modifies this`kind, src.Repr
      ensures Loose() && Within() && fresh(Owned() - old(Owned())) && fresh(src.Repr - old(src.Repr))
      ensures kind.SkipWhile? && src == old(src) && snd == old(snd) && Repr == old(Repr) && rest == old(rest)
      ensures r.Some? ==> goal != [] && Handed(r.value, goal[0]) && Ahead() == goal[1..]
      ensures r.None? ==> goal == [] && (src.fused ==> src.rest == [])
      decreases depth, 1
    {
      hide Iter.Valid, SkippedWhile, Iter.HandsOn, Iter.Loose, Raw.Read, Raw.Bufs;
      while true
        invariant kind == old(kind) && src == old(src) && snd == old(snd) && Repr == old(Repr) && rest == old(rest)
        invariant Loose() && Within() && fresh(Owned() - old(Owned())) && fresh(src.Repr - old(src.Repr))
        invariant Ahead() == goal
        decreases |src.rest|
      {
        SkippedWhileStep(src.rest, kind.pred);
        r := Pull();
        if r.None? {
          break;
        }
        if kind.doneSkipping || !kind.pred(r.value.Read()) {
          Become(kind.(doneSkipping := true));
          break;
        }
      }
    }

    method NextSkippedWhile() returns (r: Option<Raw<T>>)
      requires Valid() && kind.SkipWhile?
      modifies Repr
      ensures Valid() && fresh(Repr - old(Repr)) && Advanced(old(rest), r) && kind.SkipWhile?
      decreases depth, 2
    {
      hide Iter.Valid, Iter.HandsOn, Iter.Loose, SkippedWhile, Raw.Read, Raw.Bufs, Kind.Denote;
      Unfold();
      DenotesAhead();
      r := PullPast(rest);
      Seal(r);
      DenotesAhead();
    }

    /** The next element of the first, while it has any. */
    method PullFirst() returns (r: Option<Raw<T>>)
      requires Loose() && Within() && kind.Chain? && src != null && snd != null && !kind.doneFirst && slab.None?
      modifies this`kind, src.Repr
      ensures Loose() && Within() && fresh(Owned() - old(Owned()))
      ensures kind.Chain? && src == old(src) && snd == old(snd) && Repr == old(Repr) && rest == old(rest)
      ensures Right() == old(Right())
      ensures r.Some? ==> old(Left()) != [] && Handed(r.value, old(Left())[0]) && Left() == old(Left())[1..]
      ensures kind.doneFirst == r.None? && (r.None? ==> old(Left()) == [])
      decreases depth, 1
    {
      hide Iter.Valid, Iter.HandsOn, Raw.Read, Iter.Loose;
      r := Pull();
      if r.None? {
        Become(Chain(true));
      }
    }

    method NextChained() returns (r: Option<Raw<T>>)
      requires Valid() && kind.Chain?
      modifies Repr
      ensures Valid() && fresh(Repr - old(Repr)) && Advanced(old(rest), r) && kind.Chain?
      decreases depth, 2
    {
      hide Iter.Valid, Iter.HandsOn, Iter.Owned, Raw.Read, Iter.Loose;
      Unfold();
      if !kind.doneFirst {
        HeadOf(Left(), Right());
        r := PullFirst();
        if r.Some? {
          Seal(r);
          return;
        }
      }
      r := PullOther(Plain(View([])));
      Seal(r);
    }

    method NextZipped() returns (r: Option<Raw<T>>)
      requires Valid() && kind.Zip?
      modifies Repr
      ensures Valid() && fresh(Repr - old(Repr)) && Advanced(old(rest), r) && kind.Zip?
      decreases depth, 2
    {
      hide Iter.Valid;
      hide Iter.HandsOn;
      hide Iter.Owned;
      hide Iter.Loose;
      hide Zipped;
      Unfold();
      ZippedStep(src.rest, snd.rest);
      r := Pull();
      if r.Some? {
        var b := PullOther(r.value);
        r := if b.None? then None else Some(Joint(r.value, b.value));
      }
      ZippedStep(src.rest, snd.rest);
      Seal(r);
    }

    /** Pull up to n elements; both window and chunks begin so. */
    method Gather(n: nat) returns (buf: seq<Val<T>>)
      requires Loose() && src != null && !src.live && (kind.Window? || kind.Chunk?)
      modifies src.Repr
      ensures kind.buf.cells == old(kind.buf.cells) && Within()
      ensures Loose() && Right() == old(Right()) && fresh(Owned() - old(Owned()))
      ensures kind == old(kind) && src == old(src) && snd == old(snd) && Repr == old(Repr) && rest == old(rest)
      ensures |buf| <= n
      ensures |buf| == n ==> old(src.rest) == buf + src.rest
      ensures |buf| < n ==> old(src.rest) == buf && (src.fused ==> src.rest == [])
      decreases depth, 1
    {
      hide Iter.Valid;
      hide Raw.Read, Raw.Bufs;
      hide Iter.Loose;
      buf := [];
      while |buf| < n
        invariant src != null
        invariant |buf| <= n && Loose() && Right() == old(Right())
        invariant kind == old(kind) && Within() && kind.buf.cells == old(kind.buf.cells)
        invariant fresh(Owned() - old(Owned())) && fresh(src.Repr - old(src.Repr))
        invariant kind == old(kind) && src == old(src) && snd == old(snd) && Repr == old(Repr) && rest == old(rest)
        invariant old(src.rest) == buf + src.rest
      {
        ghost var s := src.rest;
        var r := Pull();
        if r.None? {
          assert buf + s == buf;
          break;
        }
        MoveOver(buf, s);
        buf := buf + [r.value.Read()];
      }
    }

    /** Fill the buffer the first time; afterwards shift it left and read one more element. */
    method Slide(ghost goal: seq<Val<T>>) returns (full: bool)
      requires Loose() && Within() && HandsOn() && kind.Window? && kind.n > 0 && src != null
      requires kind.primed ==> |kind.buf.cells| == kind.n
      requires Windows(if kind.primed then Skipped(kind.buf.cells, 1) + src.rest else src.rest, kind.n) == goal
      modifies this`kind, kind.buf, src.Repr
      ensures Loose() && Within() && fresh(Owned() - old(Owned()))
      ensures kind.Window? && kind.n == old(kind.n) && kind.buf == old(kind.buf) && kind.buf in Owned()
      ensures src == old(src) && snd == old(snd) && Repr == old(Repr) && rest == old(rest)
      ensures full <==> goal != []
      ensures full ==> kind.primed && |kind.buf.cells| == kind.n && goal[0] == View(kind.buf.cells)
      ensures full ==> Windows(Skipped(kind.buf.cells, 1) + src.rest, kind.n) == goal[1..]
      ensures !full && src.fused ==> src.rest == []
      ensures !full ==> kind.primed == old(kind.primed)
      ensures !full && kind.primed ==> ShiftedOut(old(kind.buf.cells), kind.buf.cells, kind.n, tidy)
      decreases depth, 2
    {
      hide Iter.Valid, Iter.Loose, Raw.Read, Raw.Bufs, Kind.Denote;
      var n := kind.n;
      var cells := kind.buf.cells;
      if !kind.primed {
        cells := Gather(n);
        if |cells| < n {
          return false;
        }
      } else {
        ghost var s := src.rest;
        var r := Pull();
        if r.None? {
          var last: Val<T> := *;
          last := if src.quiet then cells[n - 1] else last;
          Store(cells[1..] + [last]);
          return false;
        }
        MoveOver(cells[1..], s);
        cells := cells[1..] + [r.value.Read()];
      }
      WindowsStep(cells, src.rest);
      Store(cells);
      Become(kind.(primed := true));
      full := true;
    }

    method NextWindow() returns (r: Option<Raw<T>>)
      requires Valid() && kind.Window?
      modifies Repr
      ensures Valid() && fresh(Repr - old(Repr)) && Advanced(old(rest), r) && kind.Window?
      ensures ViewOf(old(kind), old(kind.buf.cells), old(rest), r)
      decreases depth, 3
    {
      hide Iter.Valid, Iter.Loose, Raw.Read, Raw.Bufs;
      Unfold();
      if kind.n == 0 {
        return None;
      }
      var full := Slide(rest);
      SliceReads(kind.buf, kind.n);
      r := if full then Some(Slice(kind.buf, kind.n)) else None;
      Seal(r);
    }

    /** Write as many elements as there are, n at most, to the front of the buffer. */
    method Refill(ghost goal: seq<Val<T>>) returns (count: nat)
      requires Loose() && Within() && HandsOn() && kind.Chunk? && !kind.done && src != null
      requires Chunks(src.rest, kind.n) == goal
      modifies this`kind, kind.buf, src.Repr
      ensures Loose() && Within() && fresh(Owned() - old(Owned()))
      ensures kind.Chunk? && kind.n == old(kind.n) && kind.buf == old(kind.buf) && kind.buf in Owned()
      ensures src == old(src) && snd == old(snd) && Repr == old(Repr) && rest == old(rest)
      ensures count > 0 <==> goal != []
      ensures count > 0 ==> |kind.buf.cells| >= count && goal[0] == View(kind.buf.cells[..count])
      ensures count > 0 ==> goal[1..] == if kind.done then [] else Chunks(src.rest, kind.n)
      ensures count > 0 && tidy ==> kind.buf.cells == Overwrite(old(kind.buf.cells), kind.buf.cells[..count])
      ensures count == 0 ==> Scribbled(old(kind.buf.cells), kind.buf.cells, tidy) && !kind.done
      ensures count == 0 && src.fused ==> kind.n == 0 || src.rest == []
      decreases depth, 2
    {
      hide Iter.Valid, Iter.Loose, Raw.Read, Raw.Bufs, Kind.Denote;
      var n := kind.n;
      var got := Gather(n);
      count := |got|;
      var after := Skipped(kind.buf.cells, count);
      if count < n && after != [] && !src.quiet {
        var next: Val<T> := *;
        after := [next] + after[1..];
      }
      Store(got + after);
      if count == 0 {
        return;
      }
      ChunksStep(got, src.rest, n);
      if count < n {
        Become(kind.(done := true));
      }
    }

    method NextChunk() returns (r: Option<Raw<T>>)
      requires Valid() && kind.Chunk?
      modifies Repr
      ensures Valid() && fresh(Repr - old(Repr)) && Advanced(old(rest), r) && kind.Chunk?
      ensures ViewOf(old(kind), old(kind.buf.cells), old(rest), r)
      decreases depth, 3
    {
      hide Iter.Valid, Iter.Loose, Raw.Read, Raw.Bufs;
      Unfold();
      if kind.done {
        return None;
      }
      var count := Refill(rest);
      SliceReads(kind.buf, count);
      r := if count > 0 then Some(Slice(kind.buf, count)) else None;
      Seal(r);
    }

    method NextPeekable() returns (r: Option<Raw<T>>)
      requires Valid() && kind.Peekable?
      modifies Repr
      ensures Valid() && fresh(Repr - old(Repr)) && Advanced(old(rest), r) && kind.Peekable?
      ensures old(kind) == Peekable(None, true) ==> r.None? && kind == Peekable(None, true)
      decreases depth, 2
    {
      hide Iter.Valid;
      hide Iter.HandsOn;
      hide Iter.Owned;
      hide Raw.Read, Raw.Bufs;
      hide Iter.Loose;
      Unfold();
      if kind.peeked.Some? {
        r := kind.peeked;
        Become(kind.(peeked := None));
      } else if kind.sourceDone {
        r := None;
      } else {
        r := Pull();
      }
      Seal(r);
    }

    /** Looking ahead leaves the remaining sequence alone, and a false from it is final. */
    method Peek() returns (r: Option<Raw<T>>)
      requires Valid() && kind.Peekable?
      modifies Repr
      ensures Valid() && fresh(Repr - old(Repr)) && kind.Peekable?
      ensures r.Some? <==> old(rest) != []
      ensures r.Some? ==> Hands(r.value, old(rest)[0])
      ensures rest == old(rest)
      ensures r.None? ==> kind == Peekable(None, true)
    {
      hide Iter.Valid;
      hide Iter.HandsOn;
      hide Iter.Owned;
      hide Raw.Read, Raw.Bufs;
      hide Iter.Loose;
      Unfold();
      if kind.peeked.None? {
        if kind.sourceDone {
          return None;
        }
        r := Pull();
        if r.None? {
          Become(kind.(sourceDone := true));
          Seal(r);
          return;
        }
        Become(kind.(peeked := r));
      }
      r := kind.peeked;
      Seal(r);
    }

    lemma DenotesDistinct(a: seq<Val<T>>, b: seq<Val<T>>)
      requires kind.WellFormed() && kind.Dedup?
      ensures kind.last.None? ==> kind.Denote(a, b, kind.Held()) == Deduped(a, kind.cmp, None)
      ensures kind.last.Some? ==> kind.Denote(a, b, kind.Held()) == Deduped(a, kind.cmp, Some(kind.last.value.Read()))
    {
    }

    /** What is still due, given the element kept. */
    ghost predicate Due(goal: seq<Val<T>>)
      requires kind.Dedup? && kind.WellFormed()
      reads this, src
    {
      Deduped(Left(), kind.cmp, if kind.last.None? then None else Some(kind.last.value.Read())) == goal
    }

    method Keep(r: Raw<T>)
      requires Loose() && kind.Dedup? && r.Bufs() == {}
      modifies this`kind
      ensures Loose() && Within() && kind == old(kind).(last := Some(r)) && Owned() == old(Owned())
      ensures Left() == old(Left())
    {
      Become(kind.(last := Some(r)));
    }

    /** The first element that differs from the one kept, which it replaces. */
    method PullDistinct(ghost goal: seq<Val<T>>) returns (r: Option<Raw<T>>)
      requires Loose() && Within() && kind.Dedup? && src != null && slab.None?
      requires kind.WellFormed() && !src.live && Due(goal)
      modifies this`kind, src.Repr
      ensures Loose() && Within() && fresh(Owned() - old(Owned())) && fresh(src.Repr - old(src.Repr))
      ensures kind.Dedup? && kind.WellFormed()
      ensures src == old(src) && snd == old(snd) && Repr == old(Repr) && rest == old(rest)
      ensures r.Some? ==> goal != [] && Handed(r.value, goal[0])
      ensures r.Some? ==> Due(goal[1..])
      ensures r.None? ==> goal == [] && (src.fused ==> src.rest == [])
      decreases depth, 1
    {
      hide Iter.Valid, Iter.HandsOn, Iter.Within, Raw.Read, Raw.Bufs, Iter.Loose, Kind.Denote, Deduped;
      while true
        invariant kind == old(kind) && src == old(src) && snd == old(snd) && Repr == old(Repr) && rest == old(rest)
        invariant Loose() && Within() && fresh(Owned() - old(Owned())) && fresh(src.Repr - old(src.Repr))
        invariant Due(goal)
        decreases |src.rest|
      {
        DedupedStep(src.rest, kind.cmp, if kind.last.None? then None else Some(kind.last.value.Read()));
        r := Pull();
        if r.None? {
          break;
        }
        if kind.last.None? || kind.cmp(r.value.Read(), kind.last.value.Read()) != 0 {
          Keep(r.value);
          break;
        }
      }
    }

    method NextDeduped() returns (r: Option<Raw<T>>)
      requires Valid() && kind.Dedup?
      modifies Repr
      ensures Valid() && fresh(Repr - old(Repr)) && Advanced(old(rest), r) && kind.Dedup?
      decreases depth, 2
    {
      hide Iter.Valid, Raw.Read, Raw.Bufs, Iter.Loose, Kind.Denote;
      Unfold();
      DenotesDistinct(Left(), Right());
      r := PullDistinct(rest);
      Seal(r);
      DenotesDistinct(Left(), Right());
    }

    /** The next element of the active sub-iterator; an exhausted one is dropped. */
    method FromSub() returns (r: Option<Raw<T>>)
      requires Loose() && kind.FlatMap? && src != null && HandsOn()
      modifies this`snd, if snd != null then snd.Repr else {}
      ensures Loose() && Left() == old(Left()) && fresh(Owned() - old(Owned()))
      ensures kind == old(kind) && src == old(src) && Repr == old(Repr) && rest == old(rest)
      ensures HandsOn() && Within() && (old(Right()) == [] ==> r == None && snd == null)
      ensures snd == null || (snd == old(snd) && fresh(snd.Repr - old(snd.Repr)))
      ensures src.Repr == old(src.Repr)
      ensures old(Right()) != [] ==> r.Some? && r.value.Read() == old(Right())[0] && Right() == old(Right())[1..]
      ensures r.Some? ==> r.value.Bufs() <= Owned() && (live || r.value.Bufs() == {})
      decreases depth, 1
    {
      hide Iter.Valid;
      r := None;
      if snd != null {
        r := PullOther(Plain(View([])));
        if r.None? {
          snd := null;
        }
      }
    }

    /** Make the sub-iterator of the next outer element. */
    method NextSub() returns (more: bool)
      requires Loose() && kind.FlatMap? && src != null && snd == null
      modifies this`snd, src.Repr
      ensures Loose() && HandsOn() && Within() && fresh(Owned() - old(Owned()))
      ensures kind == old(kind) && src == old(src) && Repr == old(Repr) && rest == old(rest)
      ensures fresh(src.Repr - old(src.Repr)) && (snd == null || fresh(snd.Repr))
      ensures more <==> old(src.rest) != []
      ensures more ==> src.rest == old(src.rest)[1..] && Right() == Subs(kind.fn, kind.level)(old(src.rest)[0])
      ensures !more ==> Right() == [] && (src.fused ==> src.rest == [])
      decreases depth, 1
    {
      hide Iter.Valid, Meaning, Proper, Live;
      var r := Pull();
      more := r.Some?;
      if more {
        var sub := Build(kind.fn(r.value.Read()));
        snd := sub;
      }
    }

    /** Ask the active sub-iterator; when it is done, make the next one from the next outer element. */
    method FromSubOrNext(ghost goal: seq<Val<T>>) returns (r: Option<Raw<T>>, more: bool)
      requires Loose() && HandsOn() && kind.FlatMap? && src != null
      requires Right() + FlatMapped(src.rest, Subs(kind.fn, kind.level)) == goal
      modifies this`snd, src.Repr, if snd != null then snd.Repr else {}
      ensures Loose() && HandsOn() && fresh(Owned() - old(Owned())) && fresh(src.Repr - old(src.Repr))
      ensures kind == old(kind) && src == old(src) && Repr == old(Repr) && rest == old(rest)
      ensures snd == null || snd == old(snd) || fresh(snd.Repr)
      ensures snd != null && snd == old(snd) ==> fresh(snd.Repr - old(snd.Repr))
      ensures r.Some? ==> goal != [] && r.value.Read() == goal[0] && r.value.Bufs() <= Owned()
      ensures r.Some? ==> (live || r.value.Bufs() == {})
      ensures r.Some? || more ==>
        Right() + FlatMapped(src.rest, Subs(kind.fn, kind.level)) == if r.Some? then goal[1..] else goal
      ensures r.None? && more ==> |src.rest| < |old(src.rest)|
      ensures r.None? && !more ==> goal == [] && Right() == [] && (src.fused ==> src.rest == [])
      decreases depth, 2
    {
      hide Iter.Valid, Iter.Loose, Iter.HandsOn, FlatMapped, Subs, Meaning, Rank, Raw.Read, Raw.Bufs;
      ghost var f := Subs(kind.fn, kind.level);
      HeadOf(Right(), FlatMapped(src.rest, f));
      more := true;
      r := FromSub();
      if r.None? {
        FlatMapStep(src.rest, f);
        more := NextSub();
      }
    }

    /** Drain the sub-iterators one by one up to the next element. */
    method NextFromSubs(ghost goal: seq<Val<T>>) returns (r: Option<Raw<T>>)
      requires Loose() && HandsOn() && kind.FlatMap? && src != null
      requires Right() + FlatMapped(src.rest, Subs(kind.fn, kind.level)) == goal
      modifies this`snd, src.Repr, if snd != null then snd.Repr else {}
      ensures Loose() && HandsOn() && fresh(Owned() - old(Owned()))
      ensures kind == old(kind) && src == old(src) && Repr == old(Repr) && rest == old(rest)
      ensures r.Some? <==> goal != []
      ensures r.Some? ==> r.value.Read() == goal[0] && r.value.Bufs() <= Owned() && (live || r.value.Bufs() == {})
      ensures r.Some? ==> Right() + FlatMapped(src.rest, Subs(kind.fn, kind.level)) == goal[1..]
      ensures r.None? ==> Right() == [] && (src.fused ==> src.rest == [])
      decreases depth, 3
    {
      hide Iter.Valid, Iter.Loose, Iter.HandsOn, FlatMapped, Subs, Meaning, Rank, Raw.Read, Raw.Bufs;
      while true
        invariant kind == old(kind) && src == old(src) && src != null && Loose() && HandsOn()
        invariant Repr == old(Repr) && rest == old(rest) && fresh(Owned() - old(Owned()))
        invariant fresh(src.Repr - old(src.Repr)) && (snd == null || snd == old(snd) || fresh(snd.Repr))
        invariant snd != null && snd == old(snd) ==> fresh(snd.Repr - old(snd.Repr))
        invariant Right() + FlatMapped(src.rest, Subs(kind.fn, kind.level)) == goal
        decreases |src.rest|
      {
        var more;
        r, more := FromSubOrNext(goal);
        if r.Some? || !more {
          return;
        }
      }
    }

    /** The elements of the sub-iterators, one after the other. */
    method NextFlatMapped() returns (r: Option<Raw<T>>)
      requires Valid() && kind.FlatMap?
      modifies Repr
      ensures Valid() && fresh(Repr - old(Repr)) && Advanced(old(rest), r) && kind.FlatMap?
      decreases depth, 4
    {
      hide Iter.Valid, Iter.Loose, FlatMapped, Subs, Meaning, Rank, Raw.Read, Raw.Bufs;
      Unfold();
      FlatMapStep<Val<T>, Val<T>>([], Subs(kind.fn, kind.level));
      r := NextFromSubs(rest);
      Seal(r);
    }

    /** `iter_foreach` with a visitor that copies each element as it comes. */
    method Drain() returns (out: seq<Val<T>>)
      requires Valid()
      modifies Repr
      ensures Valid() && fresh(Repr - old(Repr))
      ensures out == old(rest) && (fused ==> rest == [])
    {
      hide Iter.Valid;
      out := [];
      Nothing(rest);
      while true
        invariant Valid() && fresh(Repr - old(Repr)) && Adds(out, rest, old(rest))
        decreases |rest|
      {
        AddOne(out, rest, old(rest));
        var r := Next();
        if r.None? {
          break;
        }
        out := out + [r.value.Read()];
      }
    }

    /**
     * `iter_collect` keeps what it was handed: nothing of that may point into the iterator it then frees.  When
     * memory runs out there is no partial result.
     */
    method Collect(mem: Allocator) returns (out: seq<Raw<T>>)
      requires Valid() && !live && mem !in Repr
      modifies Repr, mem
      ensures Valid() && fresh(Repr - old(Repr))
      ensures if mem.refusals == old(mem.refusals) then |out| == |old(rest)| else out == []
      ensures mem.generous ==> mem.refusals == old(mem.refusals)
      ensures forall i :: 0 <= i < |out| ==> out[i].Bufs() == {} && out[i].Read() == old(rest)[i]
    {
      hide Iter.Valid;
      out := [];
      var cap := 16;
      var ok := mem.Request();
      if !ok {
        return;
      }
      while true
        invariant Valid() && fresh(Repr - old(Repr)) && |out| <= |old(rest)| && rest == old(rest)[|out|..]
        invariant mem !in Repr && mem.refusals == old(mem.refusals)
        invariant forall i :: 0 <= i < |out| ==> out[i].Bufs() == {} && out[i].Read() == old(rest)[i]
        decreases |rest|
      {
        var r := Next();
        if r.None? {
          break;
        }
        if |out| == cap {
          ok := mem.Request();
          if !ok {
            return [];
          }
          cap := cap * 2;
        }
        out := out + [r.value];
      }
    }

    /** Any mix of peeks and nexts, up to the first false. */
    method Play(calls: seq<Call>) returns (answers: seq<Option<Val<T>>>)
      requires Valid() && kind.Peekable?
      modifies Repr
      ensures Valid() && answers == Script(old(rest), calls)
    {
      hide Iter.Valid;
      answers := [];
      var i := 0;
      while i < |calls|
        invariant i <= |calls| && Valid() && kind.Peekable? && fresh(Repr - old(Repr))
        invariant answers + Script(rest, calls[i..]) == Script(old(rest), calls)
      {
        ghost var s := rest;
        var r: Option<Raw<T>>;
        if calls[i] == CallNext {
          r := Next();
        } else {
          r := Peek();
        }
        ScriptStep(answers, s, calls[i..]);
        answers := answers + [if r.None? then None else Some(r.value.Read())];
        if r.None? {
          return;
        }
        i := i + 1;
      }
    }

    /** Keep polling a take_while over a source that stays exhausted. */
    method Poll(times: nat) returns (answers: seq<Option<Val<T>>>)
      requires Valid() && kind.TakeWhile? && src != null && src.fused
      modifies Repr
      ensures Valid() && answers == TakeWhilePolls(old(src.rest), old(kind.pred), times)
      ensures |answers| == times && forall i :: 0 <= i < times ==> var s := old(src.rest);
        answers[i] == if i < |s| && old(kind.pred)(s[i]) then Some(s[i]) else None
    {
      hide Iter.Valid, Iter.Loose, Iter.HandsOn, Iter.Owned, TakenWhile, TakeWhilePolls, Raw.Read, Raw.Bufs;
      answers := [];
      Unfold();
      PollsStart(src.rest, kind.pred);
      while |answers| < times
        invariant |answers| <= times && Valid() && fresh(Repr - old(Repr))
        invariant kind == old(kind) && src == old(src) && src != null
        invariant src.rest == Skipped(old(src.rest), |answers|)
        invariant answers == TakeWhilePolls(old(src.rest), kind.pred, |answers|)
      {
        Unfold();
        PollsStep(old(src.rest), kind.pred, |answers|);
        var r := NextTakenWhile();
        answers := answers + [if r.None? then None else Some(r.value.Read())];
      }
      PollsAre(old(src.rest), kind.pred, times);
    }
  }

  // ----- Peeking

  datatype Call = CallNext | CallPeek

  /** Peeks look at the head, nexts take it; the script ends at the first false. */
  function Script<E>(s: seq<E>, calls: seq<Call>): seq<Option<E>> {
    if calls == [] then []
    else if s == [] then [None]
    else [Some(s[0])] + Script(if calls[0] == CallNext then s[1..] else s, calls[1..])
  }

  lemma ScriptStep<E>(done: seq<Option<E>>, s: seq<E>, calls: seq<Call>)
    requires calls != []
    ensures s == [] ==> done + Script(s, calls) == done + [None]
    ensures s != [] ==>
      done + Script(s, calls) == (done + [Some(s[0])]) + Script(if calls[0] == CallNext then s[1..] else s, calls[1..])
  {
  }

  function Nexts<E>(answers: seq<Option<E>>, calls: seq<Call>): seq<E>
    requires |answers| <= |calls|
  {
    if answers == [] then [] else
      (if calls[0] == CallNext && answers[0].Some? then [answers[0].value] else []) + Nexts(answers[1..], calls[1..])
  }

  lemma NextsHead<E>(now: Option<E>, later: seq<Option<E>>, calls: seq<Call>)
    requires |later| < |calls|
    ensures Nexts([now] + later, calls) ==
            (if calls[0] == CallNext && now.Some? then [now.value] else []) + Nexts(later, calls[1..])
  {
    HeadOf([now], later);
  }

  /** Wherever the peeks fall, the nexts yield the source in order, all of it once an answer is false. */
  lemma {:induction false} PeeksAreInvisible<E>(s: seq<E>, calls: seq<Call>)
    ensures |Script(s, calls)| <= |calls|
    ensures Nexts(Script(s, calls), calls) <= s
    ensures None in Script(s, calls) ==> Nexts(Script(s, calls), calls) == s
  {
    if calls != [] && s != [] {
      var t := if calls[0] == CallNext then s[1..] else s;
      var later := Script(t, calls[1..]);
      assert Script(s, calls) == [Some(s[0])] + later;
      hide Script;
      PeeksAreInvisible(t, calls[1..]);
      NextsHead(Some(s[0]), later, calls);
      hide Nexts;
      HeadOf([], Nexts(later, calls[1..]));
      assert [s[0]] + s[1..] == s;
    }
  }

  /** Every call is answered up to the first false, which ends the script. */
  lemma {:induction false} ScriptEnds<E>(s: seq<E>, calls: seq<Call>)
    ensures var answers := Script(s, calls);
      && |answers| <= |calls| && (forall i :: 0 <= i < |answers| - 1 ==> answers[i].Some?)
      && (|answers| < |calls| ==> answers != [] && answers[|answers| - 1].None?)
  {
    if s != [] && calls != [] {
      ScriptEnds(if calls[0] == CallNext then s[1..] else s, calls[1..]);
    }
  }

  /** The answer to a call is the element that as many nexts before it lead to. */
  lemma {:induction false} ScriptAt<E>(s: seq<E>, calls: seq<Call>, i: nat)
    requires i < |Script(s, calls)| && i < |calls|
    ensures var n := Count(calls[..i], CallNext); Script(s, calls)[i] == if n < |s| then Some(s[n]) else None
  {
    CountNone(CallNext);
    if s == [] || i == 0 {
      assert calls[..0] == [];
    } else {
      var t := if calls[0] == CallNext then s[1..] else s;
      assert Script(s, calls) == [Some(s[0])] + Script(t, calls[1..]);
      ScriptAt(t, calls[1..], i - 1);
      assert calls[..i] == [calls[0]] + calls[1..][..i - 1];
      CountCons(calls[0], calls[1..][..i - 1], CallNext);
    }
  }

  /** A peek shows what the call after it answers. */
  lemma {:induction false} PeekForetells<E>(s: seq<E>, calls: seq<Call>, i: nat)
    requires i + 1 < |Script(s, calls)| && i < |calls| && calls[i] == CallPeek
    ensures Script(s, calls)[i + 1] == Script(s, calls)[i]
  {
    var t := if calls[0] == CallNext then s[1..] else s;
    var now, later := Script(s, calls), Script(t, calls[1..]);
    assert now == [Some(s[0])] + later;
    if i > 0 {
      PeekForetells(t, calls[1..], i - 1);
    }
  }

  // ----- take_while after its first false

  /** The answers of so many calls, over a source that stays exhausted: nothing is remembered between calls. */
  function TakeWhilePolls<E>(s: seq<E>, p: E -> bool, times: nat): (answers: seq<Option<E>>)
    ensures |answers| == times
  {
    seq(times, i requires 0 <= i => if i < |s| && p(s[i]) then Some(s[i]) else None)
  }

  lemma PollsStart<E>(s: seq<E>, p: E -> bool)
    ensures TakeWhilePolls(s, p, 0) == [] && Skipped(s, 0) == s
  {
  }

  lemma PollsStep<E>(s: seq<E>, p: E -> bool, k: nat)
    ensures var now := Skipped(s, k);
      && (now != [] ==> now[1..] == Skipped(s, k + 1)) && (now == [] ==> Skipped(s, k + 1) == [])
      && TakeWhilePolls(s, p, k + 1) ==
         TakeWhilePolls(s, p, k) + [if TakenWhile(now, p) == [] then None else Some(TakenWhile(now, p)[0])]
  {
  }

  lemma PollsAre<E>(s: seq<E>, p: E -> bool, times: nat)
    ensures forall i :: 0 <= i < times ==>
      TakeWhilePolls(s, p, times)[i] == if i < |s| && p(s[i]) then Some(s[i]) else None
  {
  }

  ghost predicate StopsForGood<E>(answers: seq<Option<E>>) {
    forall i, j :: 0 <= i < j < |answers| && answers[i].None? ==> answers[j].None?
  }

  lemma PollsAt<E>(s: seq<E>, p: E -> bool, times: nat, i: nat)
    requires i < times
    ensures TakeWhilePolls(s, p, times)[i].Some? <==> i < |s| && p(s[i])
  {
  }

  /** The stop is permanent exactly when nothing after the first failing element satisfies the predicate. */
  lemma TakeWhileStopsForGood<E>(s: seq<E>, p: E -> bool, times: nat)
    requires times >= |s|
    ensures StopsForGood(TakeWhilePolls(s, p, times)) <==> forall x :: x in SkippedWhile(s, p) ==> !p(x)
  {
    hide TakeWhilePolls, TakenWhile, SkippedWhile;
    FirstFailure(s, p);
    var n, tail, answers := |TakenWhile(s, p)|, SkippedWhile(s, p), TakeWhilePolls(s, p, times);
    if StopsForGood(answers) {
      forall k | 0 <= k < |tail| ensures !p(tail[k]) {
        PollsAt(s, p, times, n);
        PollsAt(s, p, times, n + k);
      }
    } else {
      var i, j :| 0 <= i < j < |answers| && answers[i].None? && answers[j].Some?;
      PollsAt(s, p, times, i);
      PollsAt(s, p, times, j);
      assert s[j] == tail[j - n];
    }
  }

  /** The documentation's own example, 3, 7, -1, 5: the fourth call yields 5. */
  lemma TakeWhileResumes()
    ensures var answers := TakeWhilePolls([3, 7, -1, 5], x => x > 0, 4);
      answers == [Some(3), Some(7), None, Some(5)] && !StopsForGood(answers)
  {
    var answers := TakeWhilePolls([3, 7, -1, 5], x => x > 0, 4);
    assert answers == [Some(3), Some(7), None, Some(5)];
    assert answers[2].None? && answers[3].Some?;
  }

  // ----- Pipelines

  /** The constructors: each adaptor in its initial state, owning its source. */
  method Build<T(!new)>(plan: Plan<T>) returns (it: Iter<T>)
    requires Proper(plan)
    ensures it.Valid() && fresh(it.Repr) && it.depth <= Rank(plan)
    ensures it.rest == Meaning(plan) && it.live == Live(plan)
    ensures StaysExhausted(plan) ==> it.fused
    ensures it.quiet == Quiet(plan)
    ensures plan.WindowsOf? || plan.ChunksOf? ==> it.tidy == Quiet(plan.of)
    ensures plan.PeekableOf? ==> it.kind.Peekable?
    ensures plan.WindowsOf? ==> it.kind.Window? && it.kind.n == plan.n
    ensures plan.ChunksOf? ==> it.kind.Chunk? && it.kind.n == plan.n
  {
    hide Iter.Valid, Meaning, Live, Proper, StaysExhausted, Rank, Kind.Denote, Quiet, Kind.Quiet;
    if IsSource(plan) {
      it := new Iter.Leaf(Read(plan));
      SourceMeans(plan);
    } else if plan.Append? || plan.ZipWith? {
      PairMeans(plan);
      var a := Build(plan.of);
      var b := Build(plan.more);
      it := new Iter.Both(if plan.Append? then Chain(false) else Zip, a, b);
    } else {
      var buf := new Buffer<T>();
      StartShape(plan, buf);
      StartMeans(plan, buf);
      StartLives(plan, buf);
      StartQuiets(plan, buf);
      var source := Build(plan.of);
      it := new Iter.Over(Start(plan, buf), source, Live(plan));
    }
  }

  predicate IsSource<T>(plan: Plan<T>) {
    plan.Items? || plan.ItemsRev? || plan.Answers?
  }

  predicate HasOneSource<T>(plan: Plan<T>) {
    !IsSource(plan) && !plan.Append? && !plan.ZipWith?
  }

  function Read<T(!new)>(plan: Plan<T>): Kind<T>
    requires IsSource(plan)
  {
    match plan
    case Items(s) => FromSlice(s, 0)
    case ItemsRev(s) => FromSliceRev(s, |s|)
    case Answers(polls) => Generate(polls)
  }

  lemma SourceMeans<T(!new)>(plan: Plan<T>)
    requires IsSource(plan)
    ensures var k := Read(plan);
      && k.WellFormed() && k.IsLeaf() && k.Denote([], [], []) == Meaning(plan) && !Live(plan)
      && k.Quiet(false, false) == Quiet(plan)
      && (StaysExhausted(plan) && k.Generate? ==> Latched(k.polls))
  {
    if plan.ItemsRev? {
      assert plan.s[..|plan.s|] == plan.s;
    }
  }

  lemma PairMeans<T(!new)>(plan: Plan<T>)
    requires (plan.Append? || plan.ZipWith?) && Proper(plan)
    ensures Proper(plan.of) && Proper(plan.more) && Live(plan) == (Live(plan.of) || Live(plan.more))
    ensures var k: Kind<T> := if plan.Append? then Chain(false) else Zip;
      && k.WellFormed() && k.Denote(Meaning(plan.of), Meaning(plan.more), []) == Meaning(plan)
      && k.Quiet(Quiet(plan.of), Quiet(plan.more)) == Quiet(plan)
    ensures Rank(plan) == Rank(plan.of) + Rank(plan.more) + 1
    ensures StaysExhausted(plan) ==> (plan.Append? || StaysExhausted(plan.of)) && StaysExhausted(plan.more)
  {
  }

  /** The state an adaptor with one source starts in. */
  function Start<T(!new)>(plan: Plan<T>, buf: Buffer<T>): Kind<T>
    requires HasOneSource(plan)
  {
    match plan
    case FilterBy(_, pred) => Filter(pred)
    case MapBy(_, f, copies) => Map(f, copies)
    case TakeN(_, n) => Take(n)
    case TakeWhileBy(_, pred) => TakeWhile(pred)
    case SkipN(_, n) => Skip(n)
    case SkipWhileBy(_, pred) => SkipWhile(pred, false)
    case WindowsOf(_, n) => Window(n, buf, false)
    case ChunksOf(_, n) => Chunk(n, buf, false)
    case PeekableOf(_) => Peekable(None, false)
    case DedupBy(_, cmp) => Dedup(cmp, None)
    case FlatMapBy(_, fn, level, copies) => FlatMap(fn, level, copies)
  }

  lemma StartShape<T(!new)>(plan: Plan<T>, buf: Buffer<T>)
    requires HasOneSource(plan) && buf.cells == []
    ensures var k := Start(plan, buf);
      && k.WellFormed() && !k.IsLeaf() && !k.IsBinary() && k.Own() <= {buf}
      && k.Held() == [] && k.Holds() <= k.Own()
      && (plan.PeekableOf? ==> k.Peekable?) && (k.Window? ==> !k.primed) && (k.Peekable? ==> k.peeked == None)
      && Rank(plan) == Rank(plan.of) + 1 + (if k.FlatMap? then k.level else 0)
      && (StaysExhausted(plan) ==> !k.TakeWhile? && StaysExhausted(plan.of))
  {
  }

  lemma StartMeans<T(!new)>(plan: Plan<T>, buf: Buffer<T>)
    requires HasOneSource(plan)
    ensures Start(plan, buf).WellFormed() && Start(plan, buf).Denote(Meaning(plan.of), [], []) == Meaning(plan)
  {
    if plan.FlatMapBy? {
      FlatMapMeaning(plan);
      hide Meaning, FlatMapped, Subs;
      HeadOf([], FlatMapped(Meaning(plan.of), Subs(plan.fn, plan.level)));
    }
  }

  lemma StartQuiets<T(!new)>(plan: Plan<T>, buf: Buffer<T>)
    requires HasOneSource(plan)
    ensures Start(plan, buf).Quiet(Quiet(plan.of), false) == Quiet(plan)
    ensures Start(plan, buf).YieldsViews() == (plan.WindowsOf? || plan.ChunksOf?)
  {
  }

  lemma StartLives<T(!new)>(plan: Plan<T>, buf: Buffer<T>)
    requires HasOneSource(plan) && Proper(plan)
    ensures var k := Start(plan, buf);
      && Proper(plan.of)
      && (k.Window? || k.Chunk? ==> Live(plan))
      && (Live(plan.of) ==> !k.Keeps() && (Live(plan) || k.Copies()))
      && (k.FlatMap? ==> k.SubsFit(Live(plan)))
  {
    hide Meaning;
    if plan.FlatMapBy? {
      forall v
        ensures Rank(plan.fn(v)) < plan.level && Proper(plan.fn(v)) && (Live(plan.fn(v)) ==> Live(plan))
      {
      }
    }
  }

  /** Any proper composition of adaptors, drained to its first false: the composition of the sequence functions. */
  method Evaluate<T(!new)>(plan: Plan<T>) returns (out: seq<Val<T>>)
    requires Proper(plan)
    ensures out == Meaning(plan)
  {
    var it := Build(plan);
    out := it.Drain();
  }

  /** A pipeline that stays exhausted answers false however often it is asked after its first false. */
  method AskAgain<T(!new)>(plan: Plan<T>, times: nat) returns (out: seq<Val<T>>, again: seq<Option<Val<T>>>)
    requires Proper(plan)
    ensures out == Meaning(plan) && |again| == times
    ensures StaysExhausted(plan) ==> forall i :: 0 <= i < times ==> again[i].None?
  {
    hide *;
    hide Iter.Valid;
    var it := Build(plan);
    out := it.Drain();
    again := [];
    while |again| < times
      invariant it.Valid() && fresh(it.Repr) && |again| <= times
      invariant StaysExhausted(plan) ==> it.fused && it.rest == []
      invariant StaysExhausted(plan) ==> forall i :: 0 <= i < |again| ==> again[i].None?
    {
      var r := it.Next();
      again := again + [if r.None? then None else Some(r.value.Read())];
    }
  }

  /** A collected pipeline has the same elements, and they no longer depend on any buffer. */
  method EvaluateCollected<T(!new)>(plan: Plan<T>, mem: Allocator) returns (out: seq<Raw<T>>)
    requires Proper(plan) && !Live(plan)
    modifies mem
    ensures if mem.refusals == old(mem.refusals) then |out| == |Meaning(plan)| else out == []
    ensures mem.generous ==> mem.refusals == old(mem.refusals)
    ensures forall i :: 0 <= i < |out| ==> out[i].Bufs() == {} && out[i].Read() == Meaning(plan)[i]
  {
    var it := Build(plan);
    out := it.Collect(mem);
  }

  /** Peeks thrown in anywhere show what is coming and change nothing. */
  method EvaluatePeeking<T(!new)>(plan: Plan<T>, calls: seq<Call>) returns (answers: seq<Option<Val<T>>>)
    requires Proper(plan)
    ensures answers == Script(Meaning(plan), calls)
  {
    PeekableMeans(plan);
    hide Meaning, Proper, Live, Iter.Valid, Script;
    var it := Build(PeekableOf(plan));
    answers := it.Play(calls);
  }

  lemma PeekableMeans<T(!new)>(plan: Plan<T>)
    requires Proper(plan)
    ensures Proper(PeekableOf(plan)) && Meaning(PeekableOf(plan)) == Meaning(plan)
  {
  }
}
