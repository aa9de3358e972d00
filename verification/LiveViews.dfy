// What becomes of the views of window_next and chunk_next in src/iter/iter.c when they are kept past the next
// call, against the documented rule: exact results for the adaptors and the terminal that keep elements.
module LiveViews {
  import opened Memory
  import opened Seqs
  import opened Sequences
  import opened Plans
  import opened Iter

  // ----- Slices of one buffer, read later

  ghost predicate AllViews<T>(s: seq<Val<T>>) {
    forall i :: 0 <= i < |s| ==> s[i].View?
  }

  /** What a slice as long as the view v reads as in memory c. */
  function Seen<T>(c: seq<Val<T>>, v: Val<T>): Val<T> {
    View(Taken(c, |ItemsOf(v)|))
  }

  function SeenAll<T>(c: seq<Val<T>>, s: seq<Val<T>>): seq<Val<T>> {
    seq(|s|, i requires 0 <= i < |s| => Seen(c, s[i]))
  }

  /** In memory c each of the views reads as it did. */
  ghost predicate Holds<T>(c: seq<Val<T>>, s: seq<Val<T>>) {
    forall i :: 0 <= i < |s| ==> ItemsOf(s[i]) <= c
  }

  /** Of any two views the shorter is a prefix of the longer; views of one length are all the same. */
  ghost predicate Nested<T>(s: seq<Val<T>>) {
    forall i, j :: 0 <= i < |s| && 0 <= j < |s| && |ItemsOf(s[i])| <= |ItemsOf(s[j])| ==> ItemsOf(s[i]) <= ItemsOf(s[j])
  }

  ghost predicate Uniform<T>(s: seq<Val<T>>) {
    forall i, j :: 0 <= i < |s| && 0 <= j < |s| ==> |ItemsOf(s[i])| == |ItemsOf(s[j])|
  }

  /** All elements of all views are one value. */
  ghost predicate OneValue<T>(s: seq<Val<T>>) {
    forall i, j, a, b ::
      0 <= i < |s| && 0 <= j < |s| && 0 <= a < |ItemsOf(s[i])| && 0 <= b < |ItemsOf(s[j])| ==>
      ItemsOf(s[i])[a] == ItemsOf(s[j])[b]
  }

  lemma SeenRight<T>(c: seq<Val<T>>, s: seq<Val<T>>)
    requires AllViews(s)
    ensures SeenAll(c, s) == s <==> Holds(c, s)
  {
    var seen := SeenAll(c, s);
    assert forall i :: 0 <= i < |s| ==> (seen[i] == s[i] <==> ItemsOf(s[i]) <= c);
    if seen == s {
      assert forall i :: 0 <= i < |s| ==> seen[i] == s[i];
    }
  }

  lemma HoldsNested<T>(c: seq<Val<T>>, s: seq<Val<T>>)
    requires Holds(c, s)
    ensures Nested(s)
  {
  }

  /** Writing a view over memory in which nested ones read right leaves all of them right. */
  lemma HoldsOver<T>(c: seq<Val<T>>, g: seq<Val<T>>, e: Val<T>)
    requires Holds(c, g) && Nested(g + [e])
    ensures Holds(Overwrite(c, ItemsOf(e)), g + [e])
  {
    var s, after := g + [e], Overwrite(c, ItemsOf(e));
    forall i | 0 <= i < |s|
      ensures ItemsOf(s[i]) <= after
    {
      if i < |g| && |ItemsOf(e)| < |ItemsOf(s[i])| {
        assert s[|g|] == e && ItemsOf(e) <= ItemsOf(s[i]) <= c;
        assert after == c;
      } else if i < |g| {
        assert s[|g|] == e && ItemsOf(s[i]) <= ItemsOf(e) <= after;
      }
    }
  }

  /** The memory after each view. */
  ghost predicate Tape<T>(t: seq<seq<Val<T>>>, s: seq<Val<T>>) {
    |t| == |s| && forall i :: 0 <= i < |s| ==> ItemsOf(s[i]) <= t[i]
  }

  /** Nothing but the views themselves was written. */
  ghost predicate Follows<T>(c: seq<Val<T>>, t: seq<seq<Val<T>>>, s: seq<Val<T>>) {
    |t| == |s| && forall i :: 0 <= i < |s| ==> WroteOver(Before(c, t, i), s[i], t[i])
  }

  ghost predicate WroteOver<T>(c: seq<Val<T>>, v: Val<T>, after: seq<Val<T>>) {
    after == Overwrite(c, ItemsOf(v))
  }

  function Before<T>(c: seq<Val<T>>, t: seq<seq<Val<T>>>, i: nat): seq<Val<T>>
    requires i <= |t|
  {
    if i == 0 then c else t[i - 1]
  }

  /** Views that are kept together read right after the last of them if they are nested. */
  lemma {:induction false} GroupHolds<T>(c: seq<Val<T>>, t: seq<seq<Val<T>>>, s: seq<Val<T>>, j: nat, k: nat)
    requires Tape(t, s) && (Uniform(s) || Follows(c, t, s)) && j < k <= |s| && Nested(s[j..k])
    ensures Holds(t[k - 1], s[j..k])
  {
    hide Nested, Holds, Follows, Tape, Uniform;
    TapeAt(c, t, s, k);
    if Uniform(s) {
      UniformHolds(t[k - 1], s, j, k);
    } else {
      var g, e, before := s[j..k - 1], s[k - 1], Before(c, t, k - 1);
      assert s[j..k] == g + [e];
      NestedFront(g, e);
      if g == [] {
        HoldsNone(before, g);
      } else {
        GroupHolds(c, t, s, j, k - 1);
      }
      HoldsOver(before, g, e);
    }
  }

  lemma TapeAt<T>(c: seq<Val<T>>, t: seq<seq<Val<T>>>, s: seq<Val<T>>, k: nat)
    requires Tape(t, s) && 0 < k <= |s|
    ensures |t| == |s| && ItemsOf(s[k - 1]) <= t[k - 1]
    ensures Follows(c, t, s) ==> WroteOver(Before(c, t, k - 1), s[k - 1], t[k - 1])
  {
  }

  lemma UniformHolds<T>(c: seq<Val<T>>, s: seq<Val<T>>, j: nat, k: nat)
    requires Uniform(s) && j < k <= |s| && Nested(s[j..k]) && ItemsOf(s[k - 1]) <= c
    ensures Holds(c, s[j..k])
  {
    var g := s[j..k];
    forall i | 0 <= i < |g|
      ensures ItemsOf(g[i]) <= c
    {
      assert g[i] == s[j + i] && g[k - 1 - j] == s[k - 1];
      assert ItemsOf(g[i]) <= ItemsOf(g[k - 1 - j]);
    }
  }

  lemma NestedFront<T>(g: seq<Val<T>>, e: Val<T>)
    requires Nested(g + [e])
    ensures Nested(g)
  {
    assert forall i :: 0 <= i < |g| ==> g[i] == (g + [e])[i];
  }

  lemma HoldsNone<T>(c: seq<Val<T>>, g: seq<Val<T>>)
    ensures g == [] ==> Holds(c, g)
  {
  }

  // ----- The end of the source

  /** Where the views come from: straight from a window or a chunk adaptor, or through others that pass them on. */
  datatype Origin = FromWindow | FromChunks | Through

  /** What the call that says false does to the memory. */
  ghost predicate EndsAs<T>(origin: Origin, tidy: bool, before: seq<Val<T>>, after: seq<Val<T>>) {
    match origin
    case FromWindow => ShiftedOut(before, after, |before|, tidy)
    case FromChunks => Scribbled(before, after, tidy)
    case Through => true
  }

  /** What it takes that views kept over the end read right: a window's buffer has been shifted. */
  ghost predicate RightAtEnd<T>(origin: Origin, s: seq<Val<T>>) {
    if origin.FromWindow? then OneValue(s) else Nested(s)
  }

  /** A window that still reads the same after its end has all its elements the same. */
  lemma {:induction false} ShiftedSame<T>(before: seq<Val<T>>, after: seq<Val<T>>, tidy: bool, i: nat)
    requires ShiftedOut(before, after, |before|, tidy) && before == after && i < |before|
    ensures before[i] == before[0]
  {
    if i > 0 {
      ShiftedSame(before, after, tidy, i - 1);
      assert after[..|before| - 1][i - 1] == before[1..][i - 1];
    }
  }

  lemma WindowAtEnd<T>(tidy: bool, before: seq<Val<T>>, after: seq<Val<T>>, g: seq<Val<T>>)
    requires g != [] && EndsAs(FromWindow, tidy, before, after) && before == ItemsOf(g[|g| - 1]) && Uniform(g)
    ensures Holds(after, g) ==> OneValue(g)
    ensures tidy && OneValue(g) ==> Holds(after, g)
  {
    var n, last := |before|, g[|g| - 1];
    if Holds(after, g) {
      assert ItemsOf(last) <= after && before == after;
      forall i, a | 0 <= i < |g| && 0 <= a < |ItemsOf(g[i])|
        ensures ItemsOf(g[i])[a] == before[0]
      {
        assert ItemsOf(g[i]) <= after;
        ShiftedSame(before, after, tidy, a);
      }
    }
    if tidy && OneValue(g) {
      forall a | 0 <= a < n
        ensures after[a] == before[0]
      {
        assert ItemsOf(last)[a] == ItemsOf(last)[0];
        assert a < n - 1 ==> after[..n - 1][a] == before[1..][a];
        assert a < n - 1 ==> ItemsOf(last)[a + 1] == ItemsOf(last)[0];
      }
      forall i | 0 <= i < |g|
        ensures ItemsOf(g[i]) <= after
      {
        assert |ItemsOf(g[i])| == |ItemsOf(last)|;
        assert forall a :: 0 <= a < n ==> ItemsOf(g[i])[a] == ItemsOf(last)[0];
      }
    }
  }

  /** Views kept over the end, the last of them in memory before it. */
  lemma AtEnd<T>(origin: Origin, tidy: bool, before: seq<Val<T>>, after: seq<Val<T>>, g: seq<Val<T>>)
    requires g != [] && EndsAs(origin, tidy, before, after)
    requires origin.FromWindow? ==> before == ItemsOf(g[|g| - 1]) && Uniform(g)
    ensures Holds(after, g) ==> RightAtEnd(origin, g)
    ensures tidy && origin.FromWindow? && RightAtEnd(origin, g) ==> Holds(after, g)
    ensures tidy && origin.FromChunks? ==> after == before
  {
    if origin.FromWindow? {
      WindowAtEnd(tidy, before, after, g);
    } else if Holds(after, g) {
      HoldsNested(after, g);
    }
  }

  // ----- Pulling views

  /** An iterator over slices of one buffer. */
  ghost predicate OneBuffer<T(!new)>(it: Iter<T>, buf: Buffer<T>, origin: Origin)
    reads it, it.Repr
  {
    && it.Valid() && it.slab == Some(buf) && AllViews(it.rest)
    && (origin.FromWindow? ==> it.kind.Window? && forall i :: 0 <= i < |it.rest| ==> |it.rest[i].items| == it.kind.n)
    && (origin.FromChunks? ==> it.kind.Chunk?)
  }

  /** The memory as the view v leaves it; c is what it was before. */
  ghost predicate Wrote<T(!new)>(
    it: Iter<T>, origin: Origin, c: seq<Val<T>>, v: Val<T>, after: seq<Val<T>>)
    reads it
  {
    && ItemsOf(v) <= after
    && (origin.FromWindow? ==> it.kind.Window? && it.kind.primed && after == ItemsOf(v))
    && (origin.FromChunks? && it.tidy ==> after == Overwrite(c, ItemsOf(v)))
  }

  /**
   * The new view is a slice of the very buffer that all earlier ones are slices of, so they all read as what it
   * holds now; and when there is no new view, a window's buffer has been shifted.
   */
  method NextView<T(!new)>(it: Iter<T>, ghost buf: Buffer<T>, ghost origin: Origin) returns (r: Option<Raw<T>>)
    requires OneBuffer(it, buf, origin)
    modifies it.Repr
    ensures fresh(it.Repr - old(it.Repr)) && it.Valid() && it.slab == Some(buf)
    ensures r.None? <==> old(it.rest) == []
    ensures r.Some? ==> OneBuffer(it, buf, origin) && it.rest == old(it.rest)[1..]
    ensures r.Some? ==> r.value == Slice(buf, |ItemsOf(old(it.rest)[0])|)
    ensures r.Some? ==> Wrote(it, origin, old(buf.cells), old(it.rest)[0], buf.cells)
    ensures r.None? && old(Started(it, origin)) ==> EndsAs(origin, it.tidy, old(buf.cells), buf.cells)
  {
    hide Iter.Valid;
    it.Unfold();
    ghost var s := it.rest;
    r := it.Next();
    if r.Some? {
      SliceReads(buf, |ItemsOf(s[0])|);
      assert View(Taken(buf.cells, |ItemsOf(s[0])|)) == s[0];
    }
    it.Unfold();
  }

  ghost predicate Started<T(!new)>(it: Iter<T>, origin: Origin)
    reads it
  {
    origin.FromWindow? ==> it.kind.Window? && it.kind.primed
  }

  /** What was kept are slices of the buffer, as long as the views. */
  ghost predicate Slices<T>(kept: seq<Raw<T>>, buf: Buffer<T>, s: seq<Val<T>>) {
    |kept| == |s| && forall i :: 0 <= i < |kept| ==> kept[i] == Slice(buf, |ItemsOf(s[i])|)
  }

  /** After pulling views g from memory c, with the memory t after each and now cells. */
  ghost predicate Pulled<T>(
    origin: Origin, tidy: bool, c: seq<Val<T>>, t: seq<seq<Val<T>>>, g: seq<Val<T>>, cells: seq<Val<T>>)
  {
    && Tape(t, g) && cells == Before(c, t, |t|)
    && (origin.FromChunks? && tidy ==> Follows(c, t, g))
    && (origin.FromWindow? && g != [] ==> cells == ItemsOf(g[|g| - 1]))
  }

  lemma TapeMore<T>(t: seq<seq<Val<T>>>, g: seq<Val<T>>, v: Val<T>, after: seq<Val<T>>)
    requires Tape(t, g) && ItemsOf(v) <= after
    ensures Tape(t + [after], g + [v])
  {
  }

  lemma TapeLength<T>(t: seq<seq<Val<T>>>, g: seq<Val<T>>)
    requires Tape(t, g)
    ensures |t| == |g|
  {
  }

  lemma BeforeMore<T>(c: seq<Val<T>>, t: seq<seq<Val<T>>>, after: seq<Val<T>>, i: nat)
    requires i <= |t|
    ensures Before(c, t + [after], i) == Before(c, t, i)
  {
  }

  lemma FollowsMore<T>(c: seq<Val<T>>, t: seq<seq<Val<T>>>, g: seq<Val<T>>, v: Val<T>, after: seq<Val<T>>)
    requires Follows(c, t, g) && WroteOver(Before(c, t, |t|), v, after)
    ensures Follows(c, t + [after], g + [v])
  {
    hide WroteOver, Before;
    var u, s := t + [after], g + [v];
    forall i | 0 <= i < |s|
      ensures WroteOver(Before(c, u, i), s[i], u[i])
    {
      BeforeMore(c, t, after, i);
      if i < |g| {
        assert u[i] == t[i] && s[i] == g[i];
      }
    }
  }

  lemma PulledOne<T(!new)>(
    it: Iter<T>, origin: Origin, c: seq<Val<T>>, t: seq<seq<Val<T>>>, g: seq<Val<T>>, cells: seq<Val<T>>, v: Val<T>,
    after: seq<Val<T>>)
    requires Pulled(origin, it.tidy, c, t, g, cells) && Wrote(it, origin, cells, v, after)
    ensures Pulled(origin, it.tidy, c, t + [after], g + [v], after)
  {
    hide Tape, Follows;
    TapeMore(t, g, v, after);
    TapeLength(t, g);
    if origin.FromChunks? && it.tidy {
      FollowsMore(c, t, g, v, after);
    }
    assert (g + [v])[|g|] == v;
  }

  /** In the middle of pulling the views s, from memory c: those kept, and the memory t after each. */
  ghost predicate Pulling<T(!new)>(
    it: Iter<T>, buf: Buffer<T>, origin: Origin, c: seq<Val<T>>, s: seq<Val<T>>, kept: seq<Raw<T>>,
    t: seq<seq<Val<T>>>)
    reads it, it.Repr, buf
  {
    && OneBuffer(it, buf, origin) && |kept| <= |s| && it.rest == s[|kept|..]
    && Slices(kept, buf, s[..|kept|]) && Pulled(origin, it.tidy, c, t, s[..|kept|], buf.cells)
    && (kept != [] ==> Started(it, origin))
  }

  lemma PullingStarts<T(!new)>(it: Iter<T>, buf: Buffer<T>, origin: Origin)
    requires OneBuffer(it, buf, origin)
    ensures Pulling(it, buf, origin, buf.cells, it.rest, [], [])
    ensures AllViews(it.rest) && (origin.FromWindow? ==> Uniform(it.rest))
  {
  }

  lemma PullingIs<T(!new)>(
    it: Iter<T>, buf: Buffer<T>, origin: Origin, c: seq<Val<T>>, s: seq<Val<T>>, kept: seq<Raw<T>>,
    t: seq<seq<Val<T>>>)
    requires Pulling(it, buf, origin, c, s, kept, t)
    ensures OneBuffer(it, buf, origin) && |t| == |kept| <= |s| && it.rest == s[|kept|..]
    ensures Slices(kept, buf, s[..|kept|]) && Pulled(origin, it.tidy, c, t, s[..|kept|], buf.cells)
    ensures |it.rest| == |s| - |kept| && (kept != [] ==> Started(it, origin))
  {
  }

  /** One more view of s, or the end of it. */
  method PullNext<T(!new)>(it: Iter<T>, ghost buf: Buffer<T>, ghost origin: Origin,
    ghost c: seq<Val<T>>, ghost s: seq<Val<T>>, ghost kept: seq<Raw<T>>, ghost t: seq<seq<Val<T>>>)
    returns (r: Option<Raw<T>>)
    requires Pulling(it, buf, origin, c, s, kept, t)
    modifies it.Repr
    ensures fresh(it.Repr - old(it.Repr)) && it.Valid() && it.slab == Some(buf)
    ensures r.None? <==> |kept| == |s|
    ensures r.Some? ==> Pulling(it, buf, origin, c, s, kept + [r.value], t + [buf.cells])
    ensures r.Some? ==> |kept| < |s| && r.value == Slice(buf, |ItemsOf(s[|kept|])|)
    ensures r.None? && kept != [] ==> EndsAs(origin, it.tidy, old(buf.cells), buf.cells)
  {
    hide OneBuffer, Wrote, EndsAs, Pulled, Pulling, Slices;
    ghost var cells := buf.cells;
    PullingIs(it, buf, origin, c, s, kept, t);
    r := NextView(it, buf, origin);
    if r.Some? {
      assert s[|kept|..][0] == s[|kept|];
      PullingMore(it, buf, origin, c, s, kept, t, cells, r.value);
    }
  }

  lemma PullingMore<T(!new)>(
    it: Iter<T>, buf: Buffer<T>, origin: Origin, c: seq<Val<T>>, s: seq<Val<T>>, kept: seq<Raw<T>>,
    t: seq<seq<Val<T>>>, cells: seq<Val<T>>, r: Raw<T>)
    requires |kept| < |s| && OneBuffer(it, buf, origin) && it.rest == s[|kept|..][1..]
    requires Slices(kept, buf, s[..|kept|]) && Pulled(origin, it.tidy, c, t, s[..|kept|], cells)
    requires Wrote(it, origin, cells, s[|kept|], buf.cells) && r == Slice(buf, |ItemsOf(s[|kept|])|)
    ensures Pulling(it, buf, origin, c, s, kept + [r], t + [buf.cells])
  {
    hide OneBuffer, Wrote, Pulled, Slices, Started;
    var n := |kept|;
    PulledOne(it, origin, c, t, s[..n], cells, s[n], buf.cells);
    SlicesMore(kept, buf, s[..n], s[n]);
    FrontMore(s, n);
    WroteStarts(it, origin, cells, s[n], buf.cells);
  }

  lemma FrontMore<E>(s: seq<E>, n: nat)
    requires n < |s|
    ensures s[..n + 1] == s[..n] + [s[n]] && s[n..][1..] == s[n + 1..]
  {
  }

  lemma SlicesMore<T>(kept: seq<Raw<T>>, buf: Buffer<T>, g: seq<Val<T>>, v: Val<T>)
    requires Slices(kept, buf, g)
    ensures Slices(kept + [Slice(buf, |ItemsOf(v)|)], buf, g + [v])
  {
  }

  /** Pull and keep up to m views; both window and chunks begin so. */
  method Gather<T(!new)>(it: Iter<T>, m: nat, ghost buf: Buffer<T>, ghost origin: Origin)
    returns (kept: seq<Raw<T>>, ghost t: seq<seq<Val<T>>>, ghost last: seq<Val<T>>)
    requires OneBuffer(it, buf, origin)
    modifies it.Repr
    ensures fresh(it.Repr - old(it.Repr)) && |kept| <= m && |kept| <= |old(it.rest)|
    ensures Slices(kept, buf, old(it.rest)[..|kept|])
    ensures Pulled(origin, it.tidy, old(buf.cells), t, old(it.rest)[..|kept|], last)
    ensures |kept| == m ==> Pulling(it, buf, origin, old(buf.cells), old(it.rest), kept, t) && buf.cells == last
    ensures |kept| < m ==> |kept| == |old(it.rest)|
    ensures 0 < |kept| < m ==> EndsAs(origin, it.tidy, last, buf.cells)
  {
    hide OneBuffer, EndsAs, Pulling, Pulled, Slices;
    ghost var s, c := it.rest, buf.cells;
    kept, t, last := [], [], c;
    PullingStarts(it, buf, origin);
    PullingIs(it, buf, origin, c, s, kept, t);
    while |kept| < m
      invariant |kept| <= m && |kept| <= |s| && last == buf.cells && fresh(it.Repr - old(it.Repr))
      invariant Pulling(it, buf, origin, c, s, kept, t)
      invariant Slices(kept, buf, s[..|kept|]) && Pulled(origin, it.tidy, c, t, s[..|kept|], last)
    {
      var r := PullNext(it, buf, origin, c, s, kept, t);
      if r.None? {
        break;
      }
      kept, t, last := kept + [r.value], t + [buf.cells], buf.cells;
      PullingIs(it, buf, origin, c, s, kept, t);
    }
  }

  lemma WroteStarts<T(!new)>(it: Iter<T>, origin: Origin, c: seq<Val<T>>, v: Val<T>, after: seq<Val<T>>)
    requires Wrote(it, origin, c, v, after)
    ensures Started(it, origin)
  {
  }

  method ReadAll<T>(kept: seq<Raw<T>>, ghost buf: Buffer<T>, ghost g: seq<Val<T>>) returns (v: Val<T>)
    requires Slices(kept, buf, g)
    ensures v == View(SeenAll(buf.cells, g))
  {
    var items := [];
    for i := 0 to |kept|
      invariant |items| == i && forall j :: 0 <= j < i ==> items[j] == Seen(buf.cells, g[j])
    {
      SliceReads(buf, |ItemsOf(g[i])|);
      items := items + [kept[i].Read()];
    }
    v := View(items);
    assert items == SeenAll(buf.cells, g);
  }

  // ----- Collecting

  /** What was yielded, if nothing that was collected had changed since. */
  ghost predicate StillReads<T>(out: seq<Raw<T>>, s: seq<Val<T>>)
    reads set i | 0 <= i < |out| && out[i].Slice? :: out[i].buf
  {
    |out| == |s| && forall i :: 0 <= i < |out| ==> out[i].Slice? && out[i].Read() == s[i]
  }

  /** The buffers that destroying an iterator frees. */
  ghost function Freed<T(!new)>(it: Iter<T>): set<Buffer<T>>
    reads it
  {
    set b: Buffer<T> | b in it.Repr
  }

  lemma StillReadsIf<T>(out: seq<Raw<T>>, buf: Buffer<T>, s: seq<Val<T>>)
    requires Slices(out, buf, s) && AllViews(s)
    ensures StillReads(out, s) <==> Holds(buf.cells, s)
  {
    SeenRight(buf.cells, s);
    var seen := SeenAll(buf.cells, s);
    forall i | 0 <= i < |s|
      ensures out[i].Slice? && out[i].Read() == seen[i]
    {
      SliceReads(buf, |ItemsOf(s[i])|);
    }
  }

  /**
   * `iter_collect` over views: slices of one buffer, which read right exactly if the views are nested, or for
   * windows, whose buffer is shifted at the end, if all their elements are one value. For this memory must
   * outlive the iterator: what is collected lies in buffers that are freed with it, unless it is nothing.
   */
  method CollectViews<T(!new)>(src: Iter<T>, ghost buf: Buffer<T>, ghost origin: Origin) returns (out: seq<Raw<T>>)
    requires OneBuffer(src, buf, origin)
    modifies src.Repr
    ensures Slices(out, buf, old(src.rest))
    ensures StillReads(out, old(src.rest)) ==> RightAtEnd(origin, old(src.rest))
    ensures !origin.Through? && src.tidy ==>
      (StillReads(out, old(src.rest)) <==> RightAtEnd(origin, old(src.rest)))
    ensures (forall i :: 0 <= i < |out| ==> out[i].Bufs() !! Freed(src)) <==> old(src.rest) == []
  {
    hide OneBuffer, EndsAs, Pulling, Pulled, Slices, StillReads, RightAtEnd, Freed;
    ghost var s, c, t := src.rest, buf.cells, [];
    out := [];
    PullingStarts(src, buf, origin);
    PullingIs(src, buf, origin, c, s, out, t);
    while true
      invariant Pulling(src, buf, origin, c, s, out, t) && fresh(src.Repr - old(src.Repr)) && |out| <= |s|
      decreases |s| - |out|
    {
      PullingIs(src, buf, origin, c, s, out, t);
      ghost var before := buf.cells;
      var r := PullNext(src, buf, origin, c, s, out, t);
      if r.None? {
        assert s[..|out|] == s;
        if out != [] {
          CollectedEnd(origin, src.tidy, c, t, s, before, buf.cells);
        }
        break;
      }
      out, t := out + [r.value], t + [buf.cells];
      PullingIs(src, buf, origin, c, s, out, t);
    }
    assert s == [] ==> Holds(buf.cells, s) && RightAtEnd(origin, s) by {
      CollectedNone(origin, buf.cells);
    }
    StillReadsIf(out, buf, s);
    InFreed(src, buf, out, s);
  }

  lemma CollectedNone<T>(origin: Origin, c: seq<Val<T>>)
    ensures Holds(c, []) && RightAtEnd<T>(origin, [])
  {
  }

  lemma InFreed<T(!new)>(it: Iter<T>, buf: Buffer<T>, out: seq<Raw<T>>, s: seq<Val<T>>)
    requires it.Valid() && it.slab == Some(buf) && Slices(out, buf, s)
    ensures (forall i :: 0 <= i < |out| ==> out[i].Bufs() !! Freed(it)) <==> s == []
  {
    assert buf in Freed(it);
    if s != [] {
      assert buf in out[0].Bufs();
    }
  }

  lemma CollectedEnd<T>(
    origin: Origin, tidy: bool, c: seq<Val<T>>, t: seq<seq<Val<T>>>, s: seq<Val<T>>, before: seq<Val<T>>,
    after: seq<Val<T>>)
    requires s != [] && Pulled(origin, tidy, c, t, s, before) && EndsAs(origin, tidy, before, after)
    requires origin.FromWindow? ==> Uniform(s)
    ensures Holds(after, s) ==> RightAtEnd(origin, s)
    ensures !origin.Through? && tidy && RightAtEnd(origin, s) ==> Holds(after, s)
  {
    hide Tape, Follows, EndsAs, Holds, Nested, OneValue, Uniform;
    AtEnd(origin, tidy, before, after, s);
    if origin.FromChunks? && tidy && Nested(s) {
      Everything(s);
      TapeAt(c, t, s, |s|);
      GroupHolds(c, t, s, 0, |s|);
    }
  }

  lemma Everything<E>(s: seq<E>)
    ensures s[0..|s|] == s
  {
  }

  // ----- Windows over views

  /** Each window over views s, read when it is yielded, with t the memory after each view. */
  function Blurred<T>(t: seq<seq<Val<T>>>, s: seq<Val<T>>, m: nat): seq<Val<T>>
    requires |t| == |s|
  {
    if m == 0 || |s| < m then []
    else seq(|s| - m + 1, k requires 0 <= k <= |s| - m => View(SeenAll(t[k + m - 1], s[k..k + m])))
  }

  ghost predicate EveryWindow<T>(s: seq<Val<T>>, m: nat) {
    m > 0 ==> forall k: nat :: NestedAt(s, k, m)
  }

  ghost predicate NestedAt<T>(s: seq<Val<T>>, k: nat, m: nat) {
    k + m <= |s| ==> Nested(s[k..k + m])
  }

  lemma BlurredAt<T>(t: seq<seq<Val<T>>>, s: seq<Val<T>>, m: nat, k: nat)
    requires |t| == |s| && AllViews(s) && 0 < m && k + m <= |s|
    ensures |Blurred(t, s, m)| == |Windows(s, m)| == |s| - m + 1
    ensures Blurred(t, s, m)[k] == Windows(s, m)[k] <==> Holds(t[k + m - 1], s[k..k + m])
  {
    hide SeenAll, Holds, Blurred, Windows;
    SeenRight(t[k + m - 1], s[k..k + m]);
    BlurredLength(t, s, m);
    BlurredRead(t, s, m, k);
    WindowRead(s, m, k);
  }

  lemma BlurredShort<T>(t: seq<seq<Val<T>>>, s: seq<Val<T>>, m: nat)
    requires |t| == |s| && (m == 0 || |s| < m)
    ensures Blurred(t, s, m) == [] == Windows(s, m) && EveryWindow(s, m)
  {
  }

  /** Windows over views are the windows exactly when the views within each are nested. */
  lemma BlurredWindows<T>(c: seq<Val<T>>, t: seq<seq<Val<T>>>, s: seq<Val<T>>, m: nat)
    requires Tape(t, s) && |t| == |s| && AllViews(s)
    ensures Blurred(t, s, m) == Windows(s, m) ==> EveryWindow(s, m)
    ensures Uniform(s) || Follows(c, t, s) ==> (Blurred(t, s, m) == Windows(s, m) <==> EveryWindow(s, m))
  {
    hide *;
    hide Nested;
    if m == 0 || |s| < m {
      BlurredShort(t, s, m);
      return;
    }
    BlurredAt(t, s, m, 0);
    if Blurred(t, s, m) == Windows(s, m) {
      forall k: nat
        ensures NestedAt(s, k, m)
      {
        if k + m <= |s| {
          BlurredAt(t, s, m, k);
          HoldsNested(t[k + m - 1], s[k..k + m]);
        }
        NestedAtIf(s, k, m);
      }
      EveryWindowIf(s, m);
    }
    if (Uniform(s) || Follows(c, t, s)) && EveryWindow(s, m) {
      forall k | 0 <= k < |Windows(s, m)|
        ensures Blurred(t, s, m)[k] == Windows(s, m)[k]
      {
        BlurredAt(t, s, m, k);
        EveryWindowAt(s, m, k);
        GroupHolds(c, t, s, k, k + m);
      }
      assert Blurred(t, s, m) == Windows(s, m);
    }
  }

  lemma EveryWindowIf<T>(s: seq<Val<T>>, m: nat)
    requires forall k: nat :: NestedAt(s, k, m)
    ensures EveryWindow(s, m)
  {
  }

  lemma NestedAtIf<T>(s: seq<Val<T>>, k: nat, m: nat)
    requires k + m <= |s| ==> Nested(s[k..k + m])
    ensures NestedAt(s, k, m)
  {
    hide Nested;
  }

  lemma EveryWindowAt<T>(s: seq<Val<T>>, m: nat, k: nat)
    requires EveryWindow(s, m) && m > 0 && k + m <= |s|
    ensures Nested(s[k..k + m])
  {
    hide Nested;
    assert NestedAt(s, k, m);
  }

  /** For views of one length: when they are all the same. */
  lemma EveryWindowSame<T>(s: seq<Val<T>>, m: nat)
    requires AllViews(s) && Uniform(s) && 1 < m <= |s|
    ensures EveryWindow(s, m) <==> forall i :: 0 <= i < |s| ==> s[i] == s[0]
  {
    if forall i :: 0 <= i < |s| ==> s[i] == s[0] {
      forall k: nat
        ensures NestedAt(s, k, m)
      {
        if k + m <= |s| {
          var w := s[k..k + m];
          assert forall i :: 0 <= i < |w| ==> w[i] == s[0];
        }
      }
    }
    if EveryWindow(s, m) {
      forall j | 0 <= j < |s| - 1
        ensures s[j + 1] == s[j]
      {
        var k: nat := if j + m <= |s| then j else |s| - m;
        var w := s[k..k + m];
        EveryWindowAt(s, m, k);
        assert w[j - k] == s[j] && w[j - k + 1] == s[j + 1];
        assert ItemsOf(w[j - k]) <= ItemsOf(w[j - k + 1]);
      }
      forall i | 0 <= i < |s|
        ensures s[i] == s[0]
      {
        Adjacent(s, i);
      }
    }
  }

  lemma {:induction false} Adjacent<E>(s: seq<E>, i: nat)
    requires i < |s| && forall j :: 0 <= j < |s| - 1 ==> s[j + 1] == s[j]
    ensures s[i] == s[0]
  {
    if i > 0 {
      Adjacent(s, i - 1);
      assert s[i - 1 + 1] == s[i - 1];
    }
  }

  lemma BlurredFirst<T>(t: seq<seq<Val<T>>>, g: seq<Val<T>>, m: nat)
    requires |t| == |g| == m > 0
    ensures Blurred(t, g, m) == [View(SeenAll(t[m - 1], g))]
  {
    assert g[0..m] == g;
  }

  lemma BlurredMore<T>(t: seq<seq<Val<T>>>, g: seq<Val<T>>, v: Val<T>, after: seq<Val<T>>, m: nat)
    requires |t| == |g| >= m > 0
    ensures Blurred(t + [after], g + [v], m) ==
            Blurred(t, g, m) + [View(SeenAll(after, (g + [v])[|g| + 1 - m..]))]
  {
    hide SeenAll;
    var u, s := t + [after], g + [v];
    BlurredLength(t, g, m);
    BlurredLength(u, s, m);
    BlurredRead(u, s, m, |g| + 1 - m);
    assert s[|g| + 1 - m..|g| + 1] == s[|g| + 1 - m..];
    hide Blurred;
    forall i | 0 <= i < |Blurred(t, g, m)|
      ensures Blurred(u, s, m)[i] == Blurred(t, g, m)[i]
    {
      BlurredRead(t, g, m, i);
      BlurredRead(u, s, m, i);
      PartOfFront(g, [v], i, m);
    }
    Snoc(Blurred(t, g, m), View(SeenAll(after, s[|g| + 1 - m..])), Blurred(u, s, m));
  }

  lemma PartOfFront<E>(front: seq<E>, more: seq<E>, i: nat, m: nat)
    requires i + m <= |front|
    ensures (front + more)[i..i + m] == front[i..i + m]
  {
  }

  lemma Snoc<E>(front: seq<E>, x: E, s: seq<E>)
    requires |s| == |front| + 1 && s[|front|] == x && forall i :: 0 <= i < |front| ==> s[i] == front[i]
    ensures s == front + [x]
  {
  }

  lemma WindowRead<T>(s: seq<Val<T>>, m: nat, i: nat)
    requires m > 0 && i + m <= |s|
    ensures |Windows(s, m)| == |s| - m + 1 && Windows(s, m)[i] == View(s[i..i + m])
  {
  }

  lemma BlurredLength<T>(t: seq<seq<Val<T>>>, s: seq<Val<T>>, m: nat)
    requires |t| == |s| && m > 0
    ensures |Blurred(t, s, m)| == if |s| < m then 0 else |s| - m + 1
  {
    hide SeenAll;
  }

  lemma BlurredRead<T>(t: seq<seq<Val<T>>>, s: seq<Val<T>>, m: nat, i: nat)
    requires |t| == |s| && m > 0 && i + m <= |s|
    ensures i < |Blurred(t, s, m)| && Blurred(t, s, m)[i] == View(SeenAll(t[i + m - 1], s[i..i + m]))
  {
    hide SeenAll;
  }

  lemma PulledIs<T>(
    origin: Origin, tidy: bool, c: seq<Val<T>>, t: seq<seq<Val<T>>>, g: seq<Val<T>>, cells: seq<Val<T>>)
    requires Pulled(origin, tidy, c, t, g, cells)
    ensures Tape(t, g) && |t| == |g| && (g != [] ==> cells == t[|t| - 1])
    ensures origin.FromChunks? && tidy ==> Follows(c, t, g)
  {
  }

  lemma ToldIs<T(!new)>(src: Iter<T>, origin: Origin, s: seq<Val<T>>)
    ensures Told(src, origin, s) <==> Uniform(s) || (origin.FromChunks? && src.tidy)
  {
  }

  lemma AnyTape<T>(s: seq<Val<T>>) returns (t: seq<seq<Val<T>>>)
    ensures Tape(t, s) && |t| == |s|
  {
    t := seq(|s|, i requires 0 <= i < |s| => ItemsOf(s[i]));
  }

  lemma LastSlices<T>(kept: seq<Raw<T>>, buf: Buffer<T>, g: seq<Val<T>>, i: nat)
    requires Slices(kept, buf, g) && i <= |g|
    ensures |kept| == |g| && Slices(kept[i..], buf, g[i..])
  {
  }

  /** The sources for which the views alone decide what a kept view reads as, before the end. */
  ghost predicate Told<T(!new)>(src: Iter<T>, origin: Origin, s: seq<Val<T>>) {
    Uniform(s) || (origin.FromChunks? && src.tidy)
  }

  /** Shift the kept elements left, read one more, and read the window. */
  method SlideViews<T(!new)>(it: Iter<T>, kept: seq<Raw<T>>, ghost m: nat, ghost buf: Buffer<T>, ghost origin: Origin,
    ghost c: seq<Val<T>>, ghost s: seq<Val<T>>, ghost all: seq<Raw<T>>, ghost t: seq<seq<Val<T>>>)
    returns (r: Option<Raw<T>>, next: seq<Raw<T>>, view: Val<T>)
    requires Pulling(it, buf, origin, c, s, all, t) && 0 < m <= |all| && kept == all[|all| - m..]
    modifies it.Repr
    ensures fresh(it.Repr - old(it.Repr)) && (r.None? <==> |all| == |s|)
    ensures r.Some? ==> Pulling(it, buf, origin, c, s, all + [r.value], t + [buf.cells])
    ensures r.Some? ==> |all| < |s| && next == (all + [r.value])[|all| + 1 - m..]
    ensures r.Some? ==> view == View(SeenAll(buf.cells, s[..|all| + 1][|all| + 1 - m..]))
  {
    hide *;
    r := PullNext(it, buf, origin, c, s, all, t);
    next, view := kept, View([]);
    if r.Some? {
      next := kept[1..] + [r.value];
      PullingIs(it, buf, origin, c, s, all + [r.value], t + [buf.cells]);
      LastSlices(all + [r.value], buf, s[..|all| + 1], |all| + 1 - m);
      view := ReadAll(next, buf, s[..|all| + 1][|all| + 1 - m..]);
    }
  }

  /**
   * `window_next` over views, each answer copied as it comes: a window reads as slices of what the newest of its
   * views has left in the buffer, which are the views it was made of exactly if those are nested.
   */
  method WindowViews<T(!new)>(src: Iter<T>, m: nat, ghost buf: Buffer<T>, ghost origin: Origin)
    returns (out: seq<Val<T>>, ghost t: seq<seq<Val<T>>>)
    requires OneBuffer(src, buf, origin)
    modifies src.Repr
    ensures Tape(t, old(src.rest)) && |t| == |old(src.rest)| && out == Blurred(t, old(src.rest), m)
    ensures out == Windows(old(src.rest), m) ==> EveryWindow(old(src.rest), m)
    ensures Told(src, origin, old(src.rest)) ==>
      (out == Windows(old(src.rest), m) <==> EveryWindow(old(src.rest), m))
  {
    hide *;
    ghost var s, c := src.rest, buf.cells;
    PullingStarts(src, buf, origin);
    if m == 0 {
      t := AnyTape(s);
      BlurredShort(t, s, m);
      return [], t;
    }
    var kept, t0, last := Gather(src, m, buf, origin);
    t := t0;
    PulledIs(origin, src.tidy, c, t, s[..|kept|], last);
    if |kept| < m {
      assert s[..|kept|] == s;
      BlurredShort(t, s, m);
      return [], t;
    }
    ghost var all := kept;
    var view := ReadAll(kept, buf, s[..m]);
    out := [view];
    BlurredFirst(t, s[..m], m);
    while true
      invariant Pulling(src, buf, origin, c, s, all, t) && fresh(src.Repr - old(src.Repr))
      invariant m <= |all| == |t| <= |s| && kept == all[|all| - m..]
      invariant out == Blurred(t, s[..|t|], m)
      decreases |s| - |all|
    {
      ghost var k := |all|;
      PullingIs(src, buf, origin, c, s, all, t);
      PulledIs(origin, src.tidy, c, t, s[..k], buf.cells);
      var r, next, now := SlideViews(src, kept, m, buf, origin, c, s, all, t);
      if r.None? {
        assert s[..k] == s;
        BlurredWindows(c, t, s, m);
        break;
      }
      BlurredMore(t, s[..k], s[k], buf.cells, m);
      FrontMore(s, k);
      all, t := all + [r.value], t + [buf.cells];
      kept, out := next, out + [now];
    }
    ToldIs(src, origin, s);
  }

  // ----- Chunks over views

  /** Each chunk over views s: a full one is read when it is yielded, a short last one after the end. */
  function Smeared<T>(t: seq<seq<Val<T>>>, s: seq<Val<T>>, m: nat, end: seq<Val<T>>): seq<Val<T>>
    requires |t| == |s|
    decreases |s|
  {
    if m == 0 || s == [] then []
    else if |s| < m then [View(SeenAll(end, s))]
    else [View(SeenAll(t[m - 1], s[..m]))] + Smeared(t[m..], s[m..], m, end)
  }

  ghost predicate EveryChunk<T>(origin: Origin, s: seq<Val<T>>, m: nat)
    decreases |s|
  {
    if m == 0 || s == [] then true
    else if |s| < m then RightAtEnd(origin, s)
    else Nested(s[..m]) && EveryChunk(origin, s[m..], m)
  }

  /** The last chunk is a short one. */
  ghost predicate Short<T>(s: seq<Val<T>>, m: nat)
    decreases |s|
  {
    m > 0 && s != [] && (|s| < m || Short(s[m..], m))
  }

  lemma SmearedNone<T>(origin: Origin, t: seq<seq<Val<T>>>, s: seq<Val<T>>, m: nat, end: seq<Val<T>>)
    requires |t| == |s| && (m == 0 || s == [])
    ensures Smeared(t, s, m, end) == [] == Chunks(s, m) && EveryChunk(origin, s, m)
  {
  }

  lemma SmearedLast<T>(origin: Origin, t: seq<seq<Val<T>>>, s: seq<Val<T>>, m: nat, end: seq<Val<T>>)
    requires |t| == |s| && 0 < |s| < m && AllViews(s)
    ensures Smeared(t, s, m, end) == [View(SeenAll(end, s))] && Short(s, m)
    ensures Smeared(t, s, m, end) == Chunks(s, m) <==> Holds(end, s)
    ensures EveryChunk(origin, s, m) <==> RightAtEnd(origin, s)
  {
    SeenRight(end, s);
    hide SeenAll, Holds;
    assert Chunks(s, m) == [View(s)];
  }

  lemma SmearedFull<T>(
    origin: Origin, t: seq<seq<Val<T>>>, u: seq<seq<Val<T>>>, s: seq<Val<T>>, m: nat, end: seq<Val<T>>)
    requires |t| == m && |t + u| == |s| && 0 < m <= |s| && AllViews(s)
    ensures Smeared(t + u, s, m, end) == [View(SeenAll(t[m - 1], s[..m]))] + Smeared(u, s[m..], m, end)
    ensures Smeared(t + u, s, m, end) == Chunks(s, m) <==>
            Holds(t[m - 1], s[..m]) && Smeared(u, s[m..], m, end) == Chunks(s[m..], m)
    ensures EveryChunk(origin, s, m) <==> Nested(s[..m]) && EveryChunk(origin, s[m..], m)
    ensures Short(s, m) <==> Short(s[m..], m)
  {
    SeenRight(t[m - 1], s[..m]);
    assert (t + u)[m..] == u && (t + u)[m - 1] == t[m - 1];
    ChunksHead(s, m);
    hide SeenAll, Holds, Chunks, Nested;
    ConsEqual(View(SeenAll(t[m - 1], s[..m])), Smeared(u, s[m..], m, end), Chunks(s, m));
    HeadOf([View(SeenAll(t[m - 1], s[..m]))], Smeared(u, s[m..], m, end));
  }

  /** The sources and lengths for which the views alone decide what the chunks read as. */
  ghost predicate ToldChunks<T(!new)>(src: Iter<T>, origin: Origin, s: seq<Val<T>>, m: nat) {
    (!origin.Through? && src.tidy) || (Uniform(s) && !Short(s, m))
  }

  /**
   * `chunk_next` over views, called again until it says false, each answer copied as it comes. The chunks are the
   * documented ones exactly if the views within each are nested; those of a short last one are read after the
   * source has said false.
   */
  method ChunkViews<T(!new)>(src: Iter<T>, m: nat, ghost buf: Buffer<T>, ghost origin: Origin)
    returns (out: seq<Val<T>>, ghost t: seq<seq<Val<T>>>, ghost end: seq<Val<T>>)
    requires OneBuffer(src, buf, origin)
    modifies src.Repr
    ensures Tape(t, old(src.rest)) && |t| == |old(src.rest)| && out == Smeared(t, old(src.rest), m, end)
    ensures out == Chunks(old(src.rest), m) ==> EveryChunk(origin, old(src.rest), m)
    ensures ToldChunks(src, origin, old(src.rest), m) ==>
      (out == Chunks(old(src.rest), m) <==> EveryChunk(origin, old(src.rest), m))
    decreases |src.rest|
  {
    hide *;
    ghost var s, c := src.rest, buf.cells;
    PullingStarts(src, buf, origin);
    out, end := [], c;
    if m == 0 {
      t := AnyTape(s);
      SmearedNone(origin, t, s, m, end);
      return;
    }
    var kept, t0, last := Gather(src, m, buf, origin);
    PulledIs(origin, src.tidy, c, t0, s[..|kept|], last);
    if |kept| < m {
      assert s[..|kept|] == s;
      t, end := t0, buf.cells;
      if |kept| == 0 {
        SmearedNone(origin, t, s, m, end);
        return;
      }
      var view := ReadAll(kept, buf, s);
      out := [view];
      SmearedLast(origin, t, s, m, end);
      CollectedEnd(origin, src.tidy, c, t, s, last, end);
      ToldIfShort(src, origin, s, m);
      return;
    }
    var view := ReadAll(kept, buf, s[..m]);
    PullingIs(src, buf, origin, c, s, kept, t0);
    var later, t1, end1 := ChunkViews(src, m, buf, origin);
    t, end, out := t0 + t1, end1, [view] + later;
    TapeJoin(t0, t1, s, m);
    SmearedFull(origin, t0, t1, s, m, end);
    FullGroup(src, origin, c, t0, s, m);
  }

  lemma ToldIfShort<T(!new)>(src: Iter<T>, origin: Origin, s: seq<Val<T>>, m: nat)
    requires Short(s, m)
    ensures ToldChunks(src, origin, s, m) ==> !origin.Through? && src.tidy
  {
  }

  lemma TapeJoin<T>(t: seq<seq<Val<T>>>, u: seq<seq<Val<T>>>, s: seq<Val<T>>, m: nat)
    requires m <= |s| && Tape(t, s[..m]) && Tape(u, s[m..])
    ensures Tape(t + u, s) && |t + u| == |s| && |t| == m
  {
  }

  lemma FullGroup<T(!new)>(
    src: Iter<T>, origin: Origin, c: seq<Val<T>>, t: seq<seq<Val<T>>>, s: seq<Val<T>>, m: nat)
    requires 0 < m <= |s| && Tape(t, s[..m]) && |t| == m && (Short(s, m) <==> Short(s[m..], m))
    requires origin.FromChunks? && src.tidy ==> Follows(c, t, s[..m])
    requires origin.FromWindow? ==> Uniform(s)
    ensures Holds(t[m - 1], s[..m]) ==> Nested(s[..m])
    ensures ToldChunks(src, origin, s, m) ==> (Holds(t[m - 1], s[..m]) <==> Nested(s[..m]))
    ensures ToldChunks(src, origin, s, m) ==> ToldChunks(src, origin, s[m..], m)
  {
    hide Holds, Nested, Tape, Follows, Short;
    var g := s[..m];
    assert g[0..m] == g;
    UniformParts(s, m);
    hide Uniform;
    if Holds(t[m - 1], g) {
      HoldsNested(t[m - 1], g);
    } else if Nested(g) && (Uniform(g) || Follows(c, t, g)) {
      GroupHolds(c, t, g, 0, m);
    }
  }

  lemma UniformParts<T>(s: seq<Val<T>>, m: nat)
    requires m <= |s|
    ensures Uniform(s) ==> Uniform(s[..m]) && Uniform(s[m..])
  {
  }

  // ----- Deduplication

  /** All views are of one length, but for a last one that may be shorter. */
  ghost predicate Chunky<T>(s: seq<Val<T>>) {
    forall i :: 0 <= i < |s| ==>
      |ItemsOf(s[i])| <= |ItemsOf(s[0])| && (i < |s| - 1 ==> |ItemsOf(s[i])| == |ItemsOf(s[0])|)
  }

  /** The first view, and the last if it is told apart from w, which the first reads as by then. */
  function FirstAndLast<T>(s: seq<Val<T>>, cmp: (Val<T>, Val<T>) -> int, w: Val<T>): seq<Val<T>> {
    Taken(s, 1) + if |s| > 1 && cmp(s[|s| - 1], w) != 0 then [s[|s| - 1]] else []
  }

  /** What the first view reads as at the end: the last one, and behind a short one the rest of the one before. */
  function Remnant<T>(s: seq<Val<T>>): Val<T>
    requires |s| > 1
  {
    View(Overwrite(ItemsOf(s[|s| - 2]), ItemsOf(s[|s| - 1])))
  }

  /** Every view equals the first, but for a last one that is told apart from the remnant just as from the first. */
  ghost predicate RightlyDropped<T>(s: seq<Val<T>>, cmp: (Val<T>, Val<T>) -> int) {
    && (forall i :: 0 < i < |s| - 1 ==> cmp(s[i], s[0]) == 0)
    && (|s| > 1 ==> (cmp(s[|s| - 1], s[0]) == 0 <==> cmp(s[|s| - 1], Remnant(s)) == 0))
  }

  /** Up to the first view that differs from `last`, all are dropped. */
  lemma {:induction false} DropsTo<E>(s: seq<E>, cmp: (E, E) -> int, last: E, i: nat)
    requires i <= |s| && forall j :: 0 <= j < i ==> cmp(s[j], last) == 0
    ensures Deduped(s, cmp, Some(last)) == Deduped(s[i..], cmp, Some(last))
  {
    if i > 0 {
      DropsTo(s[1..], cmp, last, i - 1);
    }
  }

  lemma DedupedHead<E>(s: seq<E>, cmp: (E, E) -> int)
    requires s != []
    ensures Deduped(s, cmp, None) == [s[0]] + Deduped(s[1..], cmp, Some(s[0]))
  {
  }

  lemma DedupedOne<E>(x: E, cmp: (E, E) -> int, last: E)
    ensures Deduped([x], cmp, Some(last)) == if cmp(x, last) == 0 then [] else [x]
  {
  }

  lemma {:induction false} FirstKept<E>(s: seq<E>, cmp: (E, E) -> int, x: E, k: nat) returns (i: nat)
    requires k <= |s|
    ensures k <= i <= |s| && forall j :: k <= j < i ==> cmp(s[j], x) == 0
    ensures i < |s| ==> cmp(s[i], x) != 0
    decreases |s| - k
  {
    i := k;
    if k < |s| && cmp(s[k], x) == 0 {
      i := FirstKept(s, cmp, x, k + 1);
    }
  }

  lemma WholeRemnant<T>(s: seq<Val<T>>)
    requires |s| > 1 && AllViews(s) && |ItemsOf(s[|s| - 1])| == |ItemsOf(s[|s| - 2])|
    ensures Remnant(s) == s[|s| - 1]
  {
  }

  /** What is documented, i being where the first view after s[0] is that differs from it. */
  lemma DedupedFrom<T>(s: seq<Val<T>>, cmp: (Val<T>, Val<T>) -> int, i: nat)
    requires |s| > 1 && 0 < i <= |s| && forall j :: 1 <= j < i ==> cmp(s[j], s[0]) == 0
    requires i < |s| ==> cmp(s[i], s[0]) != 0
    ensures i < |s| ==> |Deduped(s, cmp, None)| > 1 && Deduped(s, cmp, None)[1] == s[i]
    ensures i == |s| - 1 ==> Deduped(s, cmp, None) == [s[0], s[i]]
    ensures i == |s| ==> Deduped(s, cmp, None) == [s[0]]
  {
    DedupedHead(s, cmp);
    DropsTo(s[1..], cmp, s[0], i - 1);
    assert s[1..][i - 1..] == s[i..];
    DedupedStep(s[i..], cmp, Some(s[0]));
    hide Deduped;
    if i == |s| - 1 {
      assert s[i..] == [s[i]];
      DedupedOne(s[i], cmp, s[0]);
    }
  }

  lemma DedupIsFirstAndLast<T>(s: seq<Val<T>>, cmp: (Val<T>, Val<T>) -> int)
    requires |s| > 1 && Chunky(s) && AllViews(s) && forall x :: cmp(x, x) == 0
    ensures FirstAndLast(s, cmp, Remnant(s)) == Deduped(s, cmp, None) <==> RightlyDropped(s, cmp)
  {
    hide Deduped, Remnant, Chunky, AllViews;
    var i := FirstKept(s, cmp, s[0], 1);
    DedupedFrom(s, cmp, i);
    if i < |s| - 1 {
      assert cmp(s[i], s[0]) != 0;
      KeptInTheMiddle(s, cmp, Deduped(s, cmp, None), i);
    }
  }

  /** A view in the middle that is to be kept is not, being of the same length as the one before it. */
  lemma KeptInTheMiddle<T>(s: seq<Val<T>>, cmp: (Val<T>, Val<T>) -> int, wanted: seq<Val<T>>, i: nat)
    requires Chunky(s) && AllViews(s) && forall x :: cmp(x, x) == 0
    requires 0 < i < |s| - 1 && |wanted| > 1 && wanted[1] == s[i]
    ensures FirstAndLast(s, cmp, Remnant(s)) != wanted
  {
    var out, last := FirstAndLast(s, cmp, Remnant(s)), s[|s| - 1];
    if |out| > 1 && out[1] == wanted[1] {
      assert out[1] == last && |ItemsOf(last)| == |ItemsOf(s[|s| - 2])|;
      WholeRemnant(s);
      assert false;
    }
  }

  lemma RemnantSeen<T>(c: seq<Val<T>>, s: seq<Val<T>>, after: seq<Val<T>>)
    requires |s| > 1 && Chunky(s) && ItemsOf(s[|s| - 2]) <= c && ItemsOf(s[|s| - 1]) <= after
    ensures Uniform(s) || WroteOver(c, s[|s| - 1], after) ==> Seen(after, s[0]) == Remnant(s)
  {
    var e, f := ItemsOf(s[|s| - 1]), ItemsOf(s[|s| - 2]);
    assert |ItemsOf(s[0])| == |f| >= |e|;
    if Uniform(s) {
      assert |e| == |f|;
      assert Taken(after, |f|) == e == Overwrite(f, e);
    } else if WroteOver(c, s[|s| - 1], after) {
      assert Taken(after, |f|) == Overwrite(f, e);
    }
  }

  lemma FewAreRight<T>(s: seq<Val<T>>, cmp: (Val<T>, Val<T>) -> int, w: Val<T>)
    requires |s| <= 1
    ensures FirstAndLast(s, cmp, w) == Deduped(s, cmp, None) == s && RightlyDropped(s, cmp)
  {
  }

  /** The first view as it reads when the view at k has been written. */
  lemma FirstReads<T>(s: seq<Val<T>>, k: nat, c: seq<Val<T>>)
    requires k < |s| && AllViews(s) && ItemsOf(s[k]) <= c && |ItemsOf(s[k])| == |ItemsOf(s[0])|
    ensures Seen(c, s[0]) == s[k]
  {
  }

  lemma ReadIsSeen<T>(buf: Buffer<T>, v: Val<T>)
    ensures Slice(buf, |ItemsOf(v)|).Bufs() == {buf} && Slice(buf, |ItemsOf(v)|).Read() == Seen(buf.cells, v)
  {
  }

  /** Read the slice at hand and the one kept. */
  method Differs<T>(r: Raw<T>, last: Raw<T>, cmp: (Val<T>, Val<T>) -> int, ghost buf: Buffer<T>,
    ghost v: Val<T>, ghost first: Val<T>) returns (differs: bool)
    requires v.View? && r == Slice(buf, |ItemsOf(v)|) && last == Slice(buf, |ItemsOf(first)|)
    requires ItemsOf(v) <= buf.cells
    ensures differs == (cmp(v, Seen(buf.cells, first)) != 0)
  {
    ReadIsSeen(buf, v);
    ReadIsSeen(buf, first);
    SeenItself(v, buf.cells);
    differs := cmp(r.Read(), last.Read()) != 0;
  }

  /**
   * `dedup_next` over views, each answer copied as it comes: the view it keeps becomes the new one, so but for a
   * short last view all after the first are dropped.
   */
  method DedupViews<T(!new)>(
    src: Iter<T>, cmp: (Val<T>, Val<T>) -> int, ghost buf: Buffer<T>, ghost origin: Origin)
    returns (out: seq<Val<T>>, ghost w: Val<T>)
    requires OneBuffer(src, buf, origin) && Chunky(src.rest) && forall x :: cmp(x, x) == 0
    modifies src.Repr
    ensures out == FirstAndLast(old(src.rest), cmp, w)
    ensures Told(src, origin, old(src.rest)) && |old(src.rest)| > 1 ==> w == Remnant(old(src.rest))
    ensures Told(src, origin, old(src.rest)) ==>
      (out == Deduped(old(src.rest), cmp, None) <==> RightlyDropped(old(src.rest), cmp))
  {
    hide *;
    ghost var s, c, all, t := src.rest, buf.cells, [], [];
    PullingStarts(src, buf, origin);
    ToldIs(src, origin, s);
    out, w := [], View([]);
    FewAreRight([], cmp, w);
    var last: Option<Raw<T>> := None;
    while true
      invariant Pulling(src, buf, origin, c, s, all, t) && fresh(src.Repr - old(src.Repr))
      invariant |all| == |t| <= |s| && (all == [] ==> last.None? && out == [])
      invariant 0 < |all| < |s| ==> out == [s[0]] && last == Some(Slice(buf, |ItemsOf(s[0])|))
      invariant |all| == |s| ==> out == FirstAndLast(s, cmp, w)
      invariant |all| == |s| > 1 && Told(src, origin, s) ==> w == Remnant(s)
      decreases |s| - |all|
    {
      ghost var k := |all|;
      var r := PullNext(src, buf, origin, c, s, all, t);
      if r.None? {
        break;
      }
      all, t := all + [r.value], t + [buf.cells];
      PullingIs(src, buf, origin, c, s, all, t);
      DedupStep(src, origin, c, t, s, k, cmp, buf.cells);
      if last.None? {
        ReadIsSeen(buf, s[0]);
        out := [r.value.Read()];
        last := r;
      } else {
        var differs := Differs(r.value, last.value, cmp, buf, s[k], s[0]);
        w := Seen(buf.cells, s[0]);
        if differs {
          ReadIsSeen(buf, s[k]);
          out := out + [r.value.Read()];
          last := r;
        }
      }
    }
    if |s| <= 1 {
      FewAreRight(s, cmp, w);
    } else {
      DedupIsFirstAndLast(s, cmp);
    }
  }

  /** What one more view does to the first: all but the last find it equal. */
  lemma DedupStep<T(!new)>(src: Iter<T>, origin: Origin, c: seq<Val<T>>, t: seq<seq<Val<T>>>, s: seq<Val<T>>,
    k: nat, cmp: (Val<T>, Val<T>) -> int, cells: seq<Val<T>>)
    requires k < |s| && Pulled(origin, src.tidy, c, t, s[..k + 1], cells) && Chunky(s) && AllViews(s)
    requires forall x :: cmp(x, x) == 0
    ensures ItemsOf(s[k]) <= cells && s[k].View? && s[k] == Seen(cells, s[k])
    ensures 0 < k < |s| - 1 ==> cmp(s[k], Seen(cells, s[0])) == 0
    ensures k == 0 && |s| == 1 ==> forall w :: FirstAndLast(s, cmp, w) == [s[0]]
    ensures 0 < k == |s| - 1 ==> var w := Seen(cells, s[0]);
      && (Told(src, origin, s) ==> w == Remnant(s))
      && FirstAndLast(s, cmp, w) == [s[0]] + if cmp(s[k], w) != 0 then [s[k]] else []
  {
    hide Seen, Remnant, Tape, Follows, Uniform;
    TapeAt(c, t, s[..k + 1], k + 1);
    SeenItself(s[k], cells);
    if 0 < k < |s| - 1 {
      FirstReads(s, k, cells);
    } else if 0 < k {
      TapeAt(c, t, s[..k + 1], k);
      RemnantSeen(t[k - 1], s, cells);
    }
  }

  lemma SeenItself<T>(v: Val<T>, c: seq<Val<T>>)
    requires v.View? && ItemsOf(v) <= c
    ensures v == Seen(c, v)
  {
  }

  // ----- From the plans

  /** All windows are of one length. */
  lemma WindowsAreUniform<T>(s: seq<Val<T>>, n: nat)
    ensures forall i :: 0 <= i < |Windows(s, n)| ==> Windows(s, n)[i].View? && |Windows(s, n)[i].items| == n > 0
  {
  }

  /** All chunks are of one length, but for a last one that may be shorter. */
  lemma {:induction false} ChunksAreChunky<T>(s: seq<Val<T>>, n: nat)
    ensures AllViews(Chunks(s, n)) && Chunky(Chunks(s, n))
    ensures Chunks(s, n) != [] ==> |ItemsOf(Chunks(s, n)[0])| <= n && (|Chunks(s, n)| > 1 ==> |s| > n)
    decreases |s|
  {
    if n > 0 && s != [] {
      ChunksAreChunky(Skipped(s, n), n);
    }
  }

  /** A window or chunk iterator just built yields slices of the one buffer. */
  lemma StartsOneBuffer<T(!new)>(it: Iter<T>, plan: Plan<T>)
    requires plan.WindowsOf? || plan.ChunksOf?
    requires it.Valid() && it.rest == Meaning(plan)
    requires if plan.WindowsOf? then it.kind.Window? && it.kind.n == plan.n else it.kind.Chunk?
    ensures OneBuffer(it, it.kind.buf, if plan.WindowsOf? then FromWindow else FromChunks) && Chunky(it.rest)
  {
    hide Iter.Valid;
    it.Unfold();
    if plan.WindowsOf? {
      WindowsAreUniform(Meaning(plan.of), plan.n);
    } else {
      ChunksAreChunky(Meaning(plan.of), plan.n);
    }
  }

  // ----- The smallest example

  function SameContents(a: Val<int>, b: Val<int>): int {
    if a == b then 0 else 1
  }

  /**
   * iter_dedup(iter_window(1, 2, 3; 2)), comparing contents: documented to yield [1, 2] and [2, 3], it yields
   * [1, 2] only.  The rule for callers excludes it.
   */
  method DedupOfWindows() returns (out: seq<Val<int>>)
    ensures var one, two, three := Elem(1), Elem(2), Elem(3);
      var windows := WindowsOf(Items([one, two, three]), 2);
      && out == [View([one, two])]
      && Meaning(DedupBy(windows, SameContents)) == [View([one, two]), View([two, three])]
      && !Proper(DedupBy(windows, SameContents))
  {
    var windows := WindowsOf(Items([Elem(1), Elem(2), Elem(3)]), 2);
    TwoWindows(windows);
    hide *;
    ProperWindows(windows);
    var it := Build(windows);
    StartsOneBuffer(it, windows);
    EqualToItself();
    var yielded, w := DedupViews(it, SameContents, it.kind.buf, FromWindow);
    out := yielded;
  }

  lemma EqualToItself()
    ensures forall x :: SameContents(x, x) == 0
  {
  }

  lemma ProperWindows(windows: Plan<int>)
    requires windows.WindowsOf? && windows.of.Items?
    ensures Proper(windows) && Live(windows) && !Proper(DedupBy(windows, SameContents))
  {
  }

  lemma TwoWindows(windows: Plan<int>)
    requires windows == WindowsOf(Items([Elem(1), Elem(2), Elem(3)]), 2)
    ensures var first, second := View([Elem(1), Elem(2)]), View([Elem(2), Elem(3)]);
      && Meaning(windows) == [first, second] && Uniform([first, second]) && Remnant([first, second]) == second
      && FirstAndLast([first, second], SameContents, second) == [first]
      && Meaning(DedupBy(windows, SameContents)) == [first, second]
  {
    var first, second: Val<int> := View([Elem(1), Elem(2)]), View([Elem(2), Elem(3)]);
    WindowsOfThree();
    assert Meaning(windows.of) == windows.of.s;
    assert Meaning(windows) == [first, second];
    TheyDiffer(first, second);
    WholeRemnant([first, second]);
  }

  lemma WindowsOfThree()
    ensures Windows([Elem(1), Elem(2), Elem(3)], 2) == [View([Elem(1), Elem(2)]), View([Elem(2), Elem(3)])]
  {
    var s := [Elem(1), Elem(2), Elem(3)];
    assert s[0..2] == [Elem(1), Elem(2)] && s[1..3] == [Elem(2), Elem(3)];
  }

  lemma TheyDiffer(first: Val<int>, second: Val<int>)
    requires first == View([Elem(1), Elem(2)]) && second == View([Elem(2), Elem(3)])
    ensures Deduped([first, second], SameContents, None) == [first, second]
    ensures FirstAndLast([first, second], SameContents, second) == [first] && Uniform([first, second])
  {
    assert first.items[0] != second.items[0];
    DedupedHead([first, second], SameContents);
    DedupedOne(second, SameContents, first);
  }
}
