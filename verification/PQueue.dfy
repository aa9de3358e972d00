// src/pqueue/pqueue.c: the binary min-heap.
module PQueue {
  import opened Bits
  import opened Memory
  import opened Order

  function Parent(j: nat): nat
    requires j > 0
  {
    (j - 1) / 2
  }

  /** The element at j is not below its parent. */
  ghost predicate Linked<E(!new)>(ord: Ord<E>, s: seq<E>, j: nat)
    requires 0 < j < |s|
  {
    ord.Cmp(s[Parent(j)], s[j]) <= 0
  }

  /** Heap order below every node from `from` on. */
  ghost predicate HeapFrom<E(!new)>(ord: Ord<E>, s: seq<E>, from: nat) {
    forall j :: 0 < j < |s| && Parent(j) >= from ==> Linked(ord, s, j)
  }

  ghost predicate IsHeap<E(!new)>(ord: Ord<E>, s: seq<E>) {
    HeapFrom(ord, s, 0)
  }

  ghost predicate Ascending<E(!new)>(ord: Ord<E>, s: seq<E>) {
    forall i, j :: 0 <= i < j < |s| ==> ord.Cmp(s[i], s[j]) <= 0
  }

  lemma {:induction false} RootIsLeast<E(!new)>(ord: Ord<E>, s: seq<E>, j: nat)
    requires ord.Lawful() && IsHeap(ord, s) && j < |s|
    ensures ord.Cmp(s[0], s[j]) <= 0
  {
    if j == 0 {
      assert ord.Laws(s[0], s[0], s[0]);
    } else {
      RootIsLeast(ord, s, Parent(j));
      assert Linked(ord, s, j);
      assert ord.Laws(s[0], s[Parent(j)], s[j]);
    }
  }

  function Swap<E>(s: seq<E>, i: nat, j: nat): (t: seq<E>)
    requires i < |s| && j < |s|
    ensures |t| == |s| && multiset(t) == multiset(s)
  {
    assert s == s[..i] + [s[i]] + s[i + 1..];
    s[i := s[j]][j := s[i]]
  }

  // ----- The cost of sifting down -----

  /** The height of node j of a heap of n elements, nodes counted from 1. */
  function HeightAt(j: nat, n: nat): nat
    requires j >= 1
    decreases n - j
  {
    if 2 * j <= n then 1 + HeightAt(2 * j, n) else 0
  }

  lemma {:induction false} HeightFalls(a: nat, b: nat, n: nat)
    requires 1 <= a <= b
    ensures HeightAt(b, n) <= HeightAt(a, n)
    decreases n - a
  {
    if 2 * b <= n {
      HeightFalls(2 * a, 2 * b, n);
    }
  }

  /** A node one level down sees a heap of half the size. */
  lemma {:induction false} HeightHalves(j: nat, n: nat)
    requires j >= 1
    ensures HeightAt(2 * j, n) == HeightAt(j, n / 2)
    decreases n - j
  {
    if 4 * j <= n {
      HeightHalves(2 * j, n);
    }
  }

  /** The sum of the heights of nodes 1 to k. */
  function HeightSum(k: nat, n: nat): nat {
    if k == 0 then 0 else HeightAt(k, n) + HeightSum(k - 1, n)
  }

  lemma {:induction false} HeightSumHalves(k: nat, n: nat)
    requires 2 * k <= n
    ensures HeightSum(k, n) == k + HeightSum(k, n / 2)
  {
    if k > 0 {
      HeightHalves(k, n);
      HeightSumHalves(k - 1, n);
    }
  }

  lemma {:induction false} LeavesAreFlat(k: nat, n: nat)
    requires n / 2 <= k
    ensures HeightSum(k, n) == HeightSum(n / 2, n)
  {
    if k > n / 2 {
      LeavesAreFlat(k - 1, n);
    }
  }

  /** The heights of all inner nodes add up to less than the number of elements. */
  lemma {:induction false} HeapifyIsLinear(n: nat)
    requires n >= 1
    ensures HeightSum(n / 2, n) < n
  {
    HeightSumHalves(n / 2, n);
    if n >= 2 {
      LeavesAreFlat(n / 2, n / 2);
      HeapifyIsLinear(n / 2);
    }
  }

  /** The depth of slot i, the root being at depth 0. */
  function Depth(i: nat): nat {
    if i == 0 then 0 else 1 + Depth(Parent(i))
  }

  lemma {:induction false} DepthIsLogarithmic(i: nat, d: nat)
    requires d <= Depth(i)
    ensures Pow2(d) <= i + 1
  {
    if d > 0 {
      DepthIsLogarithmic(Parent(i), d - 1);
    }
  }

  lemma {:induction false} HeightIsLogarithmic(j: nat, n: nat, h: nat)
    requires 1 <= j <= n && h <= HeightAt(j, n)
    ensures j * Pow2(h) <= n
    decreases h
  {
    if h > 0 {
      HeightIsLogarithmic(2 * j, n, h - 1);
    }
  }

  /** The elements at the positions whose push was granted. */
  function Granted<E>(v: seq<E>, granted: seq<bool>): (kept: seq<E>)
    requires |v| == |granted|
    ensures |kept| <= |v| && multiset(kept) <= multiset(v)
    ensures (forall i :: 0 <= i < |v| ==> granted[i]) ==> kept == v
  {
    if v == [] then [] else
      var front, last := v[..|v| - 1], v[|v| - 1];
      assert v == front + [last];
      Granted(front, granted[..|v| - 1]) + if granted[|v| - 1] then [last] else []
  }

  /** Kept are the elements at the granted positions, in order, and at lists these. */
  ghost predicate KeptAt<E>(v: seq<E>, granted: seq<bool>, kept: seq<E>, at: seq<nat>)
    requires |v| == |granted|
  {
    && |at| == |kept| && (forall j, k :: 0 <= j < k < |at| ==> at[j] < at[k])
    && (forall j :: 0 <= j < |at| ==> at[j] < |v| && granted[at[j]] && kept[j] == v[at[j]])
    && forall i: nat :: i < |v| && granted[i] ==> i in at
  }

  lemma KeptSnoc<E>(v: seq<E>, granted: seq<bool>, kept: seq<E>, at: seq<nat>, x: E, now: bool)
    requires |v| == |granted| && KeptAt(v, granted, kept, at)
    ensures KeptAt(v + [x], granted + [now], if now then kept + [x] else kept, if now then at + [|v|] else at)
  {
    assert forall i: nat :: i in at + [|v|] <==> i in at || i == |v|;
  }

  lemma {:induction false} GrantedAt<E>(v: seq<E>, granted: seq<bool>) returns (at: seq<nat>)
    requires |v| == |granted|
    ensures KeptAt(v, granted, Granted(v, granted), at)
  {
    at := [];
    if v != [] {
      var n := |v| - 1;
      var before := GrantedAt(v[..n], granted[..n]);
      var kept, most := Granted(v, granted), Granted(v[..n], granted[..n]);
      assert kept == if granted[n] then most + [v[n]] else most;
      assert v == v[..n] + [v[n]] && granted == granted[..n] + [granted[n]];
      hide Granted, KeptAt;
      KeptSnoc(v[..n], granted[..n], most, before, v[n], granted[n]);
      at := if granted[n] then before + [n] else before;
    }
  }

  lemma NoneGranted<E>(v: seq<E>)
    ensures v == [] ==> Granted(v, []) == []
  {
  }

  lemma GrantedSnoc<E>(v: seq<E>, granted: seq<bool>, i: nat, now: bool)
    requires i == |granted| < |v|
    ensures Granted(v[..i + 1], granted + [now]) == Granted(v[..i], granted) + if now then [v[i]] else []
  {
    assert v[..i + 1][..i] == v[..i] && (granted + [now])[..i] == granted;
  }

  class PQueue<E(!new)> {
    const ord: Ord<E>
    const mem: Allocator
    var data: seq<E>
    var cap: nat  // of the vector that holds data

    ghost predicate Valid()
      reads this
    {
      ord.Lawful() && IsHeap(ord, data) && |data| <= cap
    }

    constructor (ord: Ord<E>, mem: Allocator)
      requires ord.Lawful()
      ensures Valid() && data == [] && this.ord == ord && this.mem == mem
    {
      this.ord, this.mem, data, cap := ord, mem, [], 0;
    }

    /** Only the link above i may be broken; its children are not below its parent. */
    method SiftUp(start: nat) returns (ghost swaps: nat)
      requires ord.Lawful() && start < |data| <= cap
      requires forall j :: 0 < j < |data| && j != start ==> Linked(ord, data, j)
      requires forall j :: 0 < j < |data| ==> Parent(j) != start
      modifies this`data
      ensures Valid() && multiset(data) == multiset(old(data)) && |data| == |old(data)| && swaps <= Depth(start)
    {
      var i := start;
      swaps := 0;
      while i > 0
        invariant 0 <= i < |data| == |old(data)| && swaps + Depth(i) <= Depth(start)
        invariant multiset(data) == multiset(old(data))
        invariant forall j :: 0 < j < |data| && j != i ==> Linked(ord, data, j)
        invariant forall j :: 0 < j < |data| && i > 0 && Parent(j) == i ==> ord.Cmp(data[Parent(i)], data[j]) <= 0
      {
        var parent := Parent(i);
        if ord.Cmp(data[i], data[parent]) < 0 {
          UpStep(ord, data, i);
          data := Swap(data, i, parent);
          swaps := swaps + 1;
          i := parent;
        } else {
          assert ord.Laws(data[i], data[parent], data[i]) && ord.Laws(data[parent], data[i], data[i]);
          break;
        }
      }
    }

    /** Restore heap order at `start`, below which it holds; each level costs one swap at most. */
    method SiftDown(start: nat) returns (ghost swaps: nat)
      requires ord.Lawful() && HeapFrom(ord, data, start + 1)
      modifies this`data
      ensures HeapFrom(ord, data, start) && multiset(data) == multiset(old(data))
      ensures |data| == |old(data)| && swaps <= HeightAt(start + 1, |data|)
    {
      hide *;
      var n := |data|;
      var i := start;
      swaps := 0;
      SinkingStart(ord, data, start);
      while true
        invariant start <= i && (i < n || i == start) && n == |data| && multiset(data) == multiset(old(data))
        invariant Sinking(ord, data, start, i)
        invariant swaps + HeightAt(i + 1, n) <= HeightAt(start + 1, n)
        decreases n - i
      {
        var smallest, left, right := i, 2 * i + 1, 2 * i + 2;
        if left < n && ord.Cmp(data[left], data[smallest]) < 0 {
          smallest := left;
        }
        if right < n && ord.Cmp(data[right], data[smallest]) < 0 {
          smallest := right;
        }
        if smallest == i {
          assert left < n ==> ord.Cmp(data[left], data[i]) >= 0;
          if i < n {
            DownStop(ord, data, start, i);
          } else {
            NothingBelow(ord, data, i);
          }
          break;
        }
        SmallestIsLeast(ord, data, i, smallest);
        DownStep(ord, data, start, i, smallest);
        HeightStep(i, smallest, n);
        data := Swap(data, i, smallest);
        swaps := swaps + 1;
        i := smallest;
      }
    }

    /** The copying loop of `pqueue_create_from_vec`, which does not look whether a push succeeds. */
    method PushAll(v: seq<E>) returns (ghost granted: seq<bool>)
      requires data == []
      modifies this, mem
      ensures |granted| == |v| && (mem.generous ==> forall i :: 0 <= i < |v| ==> granted[i])
      ensures data == Granted(v, granted) && |data| <= |v| && |data| <= cap
      ensures mem.refusals == old(mem.refusals) + Count(granted, false)
    {
      hide *;
      granted := [];
      assert v[..0] == [] && v[..|v|] == v;
      NoneGranted(v[..0]);
      CountNone(false);
      for i := 0 to |v|
        invariant |granted| == i && data == Granted(v[..i], granted) && |data| <= cap
        invariant mem.generous ==> forall j :: 0 <= j < i ==> granted[j]
        invariant mem.refusals == old(mem.refusals) + Count(granted, false)
      {
        var ok, room := mem.MakeRoom(|data|, cap);
        cap := room;
        GrantedSnoc(v, granted, i, ok);
        CountSnoc(granted, ok, false);
        granted := granted + [ok];
        if ok {
          data := data + [v[i]];
        }
      }
    }

    /** The sifting loop of `pqueue_create_from_vec`, over as many elements as the source had. */
    method Heapify(n: nat) returns (ghost swaps: nat)
      requires ord.Lawful() && |data| <= n && |data| <= cap
      modifies this`data
      ensures Valid() && multiset(data) == multiset(old(data))
      ensures swaps <= n && (n >= 1 ==> swaps < n)
    {
      swaps := 0;
      if n > 1 {
        var i := n / 2;
        while i > 0
          invariant 0 <= i <= n / 2 && |data| == |old(data)| && multiset(data) == multiset(old(data))
          invariant HeapFrom(ord, data, i)
          invariant swaps + HeightSum(i, |data|) <= HeightSum(n / 2, |data|)
        {
          i := i - 1;
          var s := SiftDown(i);
          swaps := swaps + s;
        }
        if |data| > 0 {
          LeavesAreFlat(n / 2, |data|);
          HeapifyIsLinear(|data|);
        } else {
          LeavesAreFlat(n / 2, 0);
        }
      }
    }

    /** At most as many swaps as the new leaf is deep. */
    method Push(e: E) returns (status: Status, ghost swaps: nat)
      requires Valid()
      modifies this, mem
      ensures Valid() && (status == Ok || (status == OutOfMemory && !mem.generous))
      ensures status == Ok ==> multiset(data) == multiset(old(data)) + multiset{e}
      ensures status == OutOfMemory ==> data == old(data)
      ensures status == Ok ==> Pow2(swaps) <= |data|
      ensures mem.refusals == old(mem.refusals) + if status == OutOfMemory then 1 else 0
      ensures status == OutOfMemory ==> |data| == cap
      ensures mem.requests == old(mem.requests + if |data| == cap then 1 else 0)
    {
      var ok, room := mem.MakeRoom(|data|, cap);
      cap := room;
      if !ok {
        return OutOfMemory, 0;
      }
      ghost var before := data;
      data := data + [e];
      assert forall j :: 0 < j < |before| ==> Linked(ord, before, j) ==> Linked(ord, data, j);
      swaps := SiftUp(|data| - 1);
      DepthIsLogarithmic(|before|, swaps);
      status := Ok;
    }

    /** At most as many swaps as the heap that is left is high. */
    method Pop() returns (out: Option<E>, ghost swaps: nat)
      requires Valid()
      modifies this
      ensures Valid()
      ensures old(data) == [] ==> out == None && data == []
      ensures old(data) != [] ==> out == Some(old(data)[0]) && |data| == |old(data)| - 1
      ensures out.Some? ==> multiset(data) + multiset{out.value} == multiset(old(data))
      ensures out.Some? ==> forall x :: x in old(data) ==> ord.Cmp(out.value, x) <= 0
      ensures out.Some? ==> Pow2(swaps) <= |old(data)|
    {
      swaps := 0;
      if |data| == 0 {
        return None, 0;
      }
      ghost var s := data;
      out := Some(data[0]);
      forall x | x in s
        ensures ord.Cmp(s[0], x) <= 0
      {
        var j :| 0 <= j < |s| && s[j] == x;
        RootIsLeast(ord, s, j);
      }
      var last := |data| - 1;
      data := data[0 := data[last]];
      data := data[..last];
      MoveLast(s);
      if |data| > 0 {
        forall j | 0 < j < |data| && Parent(j) >= 1
          ensures Linked(ord, data, j)
        {
          assert Linked(ord, s, j);
        }
        swaps := SiftDown(0);
        HeightIsLogarithmic(1, |data|, swaps);
      }
    }

    /** Pop everything into a buffer of the caller's: heapsort. Without the buffer the contents are discarded. */
    method Drain(mem: Allocator) returns (out: seq<E>)
      requires Valid()
      modifies this, mem
      ensures Valid() && data == [] && Ascending(ord, out)
      ensures if mem.refusals == old(mem.refusals) then multiset(out) == multiset(old(data)) else out == []
      ensures mem.generous ==> mem.refusals == old(mem.refusals)
    {
      out := [];
      if |data| == 0 {
        return;
      }
      var ok := mem.Request();
      if !ok {
        data := [];
        return;
      }
      out := PopAll();
    }

    method PopAll() returns (out: seq<E>)
      requires Valid()
      modifies this
      ensures Valid() && data == [] && Ascending(ord, out) && multiset(out) == multiset(old(data))
    {
      hide *;
      var n := |data|;
      out := [];
      NoneSorted(ord, data);
      for i := 0 to n
        invariant Valid() && |out| == i && |data| == n - i
        invariant SortedSoFar(ord, out, data) && multiset(out) + multiset(data) == multiset(old(data))
      {
        ghost var before := data;
        var e, _ := Pop();
        NextInOrder(ord, out, before, e.value, data);
        out := out + [e.value];
      }
      SortedAll(ord, out, data);
    }
  }

  /** In order, and nothing that is left comes before it. */
  ghost predicate SortedSoFar<E(!new)>(ord: Ord<E>, out: seq<E>, rest: seq<E>) {
    Ascending(ord, out) && forall k, x :: 0 <= k < |out| && x in rest ==> ord.Cmp(out[k], x) <= 0
  }

  lemma NextInOrder<E(!new)>(ord: Ord<E>, out: seq<E>, before: seq<E>, e: E, rest: seq<E>)
    requires SortedSoFar(ord, out, before) && multiset(rest) + multiset{e} == multiset(before)
    requires forall x :: x in before ==> ord.Cmp(e, x) <= 0
    ensures SortedSoFar(ord, out + [e], rest)
  {
    assert e in multiset(before) && e in before;
    forall x | x in rest
      ensures x in before
    {
      assert x in multiset(rest) && x in multiset(before);
    }
    var longer := out + [e];
    assert forall k :: 0 <= k < |out| ==> longer[k] == out[k] && ord.Cmp(longer[k], e) <= 0;
  }

  lemma NoneSorted<E(!new)>(ord: Ord<E>, rest: seq<E>)
    ensures SortedSoFar(ord, [], rest)
  {
  }

  lemma SortedAll<E(!new)>(ord: Ord<E>, out: seq<E>, rest: seq<E>)
    requires SortedSoFar(ord, out, rest)
    ensures Ascending(ord, out) && (rest == [] ==> multiset(out) + multiset(rest) == multiset(out))
  {
  }

  datatype Op<E> = PushOp(elem: E) | PopOp

  datatype Reply<E> = Pushed(status: Status) | Popped(out: Option<E>)

  /** The reply that an operation gives: a pop yields a least element, which of several equal ones is open. */
  ghost predicate Answers<E(!new)>(ord: Ord<E>, mem: Allocator, s: multiset<E>, op: Op<E>, reply: Reply<E>) {
    match op
    case PushOp(_) => reply == Pushed(Ok) || (reply == Pushed(OutOfMemory) && !mem.generous)
    case PopOp =>
      && reply.Popped? && (reply.out.None? <==> s == multiset{})
      && (reply.out.Some? ==> reply.out.value in s && forall x :: x in s ==> ord.Cmp(reply.out.value, x) <= 0)
  }

  ghost function Effect<E>(s: multiset<E>, op: Op<E>, reply: Reply<E>): multiset<E> {
    match op
    case PushOp(e) => if reply == Pushed(Ok) then s + multiset{e} else s
    case PopOp => if reply.Popped? && reply.out.Some? then s - multiset{reply.out.value} else s
  }

  /** The operations take the multiset from s to t, with these replies on the way. */
  ghost predicate Replayed<E(!new)>(
    ord: Ord<E>, mem: Allocator, s: multiset<E>, ops: seq<Op<E>>, replies: seq<Reply<E>>, t: multiset<E>)
    decreases |ops|
  {
    if ops == [] || replies == [] then ops == [] && replies == [] && s == t
    else
      && Answers(ord, mem, s, ops[0], replies[0])
      && Replayed(ord, mem, Effect(s, ops[0], replies[0]), ops[1..], replies[1..], t)
  }

  method Execute<E(!new)>(q: PQueue<E>, op: Op<E>) returns (reply: Reply<E>)
    requires q.Valid()
    modifies q, q.mem
    ensures q.Valid() && Answers(q.ord, q.mem, old(multiset(q.data)), op, reply)
    ensures q.mem.refusals == old(q.mem.refusals) + if reply == Pushed(OutOfMemory) then 1 else 0
    ensures multiset(q.data) == Effect(old(multiset(q.data)), op, reply)
  {
    hide PQueue.Valid;
    ghost var s := q.data;
    match op {
      case PushOp(e) => var status, _ := q.Push(e); reply := Pushed(status);
      case PopOp =>
        var out, _ := q.Pop();
        reply := Popped(out);
        PopAnswers(q.ord, q.mem, s, out, q.data);
    }
  }

  lemma PopAnswers<E(!new)>(ord: Ord<E>, mem: Allocator, s: seq<E>, out: Option<E>, rest: seq<E>)
    requires s == [] ==> out == None && rest == []
    requires s != [] ==> out == Some(s[0])
    requires out.Some? ==> multiset(rest) + multiset{out.value} == multiset(s)
    requires out.Some? ==> forall x :: x in s ==> ord.Cmp(out.value, x) <= 0
    ensures Answers(ord, mem, multiset(s), PopOp, Popped(out))
    ensures multiset(rest) == Effect(multiset(s), PopOp, Popped(out))
  {
    SameElements(s);
    if out.Some? {
      assert out.value in multiset(s);
      assert multiset(rest) == multiset(s) - multiset{out.value};
    }
  }

  lemma SameElements<E>(s: seq<E>)
    ensures s == [] <==> multiset(s) == multiset{}
    ensures forall x :: x in multiset(s) <==> x in s
  {
    if s != [] {
      assert s[0] in multiset(s);
    }
  }

  /** Any run of pushes and pops: each pop takes a least element of what is there, and nothing else. */
  method Run<E(!new)>(q: PQueue<E>, ops: seq<Op<E>>) returns (replies: seq<Reply<E>>)
    requires q.Valid()
    modifies q, q.mem
    ensures q.Valid() && Replayed(q.ord, q.mem, old(multiset(q.data)), ops, replies, multiset(q.data))
    ensures q.mem.refusals == old(q.mem.refusals) + Count(replies, Pushed(OutOfMemory))
    decreases |ops|
  {
    replies := [];
    if ops != [] {
      hide PQueue.Valid, Answers, Effect;
      var reply := Execute(q, ops[0]);
      var rest := Run(q, ops[1..]);
      CountCons(reply, rest, Pushed(OutOfMemory));
      replies := [reply] + rest;
    }
  }

  /**
   * Floyd's heapify: a heap-ordered permutation of the source in fewer than n swaps. A push that is refused is
   * ignored, so that element is missing.
   */
  method CreateFromVec<E(!new)>(ord: Ord<E>, mem: Allocator, v: seq<E>)
    returns (q: PQueue?<E>, ghost granted: seq<bool>, ghost swaps: nat)
    requires ord.Lawful()
    modifies mem
    ensures |granted| == |v| && (mem.generous ==> q != null && forall i :: 0 <= i < |v| ==> granted[i])
    ensures q != null ==> fresh(q) && q.Valid() && q.ord == ord && q.mem == mem
    ensures q != null ==> multiset(q.data) == multiset(Granted(v, granted))
    ensures mem.refusals == old(mem.refusals) + if q == null then 1 else Count(granted, false)
    ensures swaps <= |v| && (|v| >= 1 ==> swaps < |v|)
  {
    var ok := mem.Request();
    hide *;
    hide PQueue.Valid;
    if !ok {
      return null, seq(|v|, _ => false), 0;
    }
    q := new PQueue(ord, mem);
    granted := q.PushAll(v);
    swaps := q.Heapify(|v|);
  }

  /** Moving the last element to the front drops the old front. */
  lemma MoveLast<E>(s: seq<E>)
    requires s != []
    ensures multiset(s[0 := s[|s| - 1]][..|s| - 1]) + multiset{s[0]} == multiset(s)
  {
    var last := |s| - 1;
    assert s == s[..last] + [s[last]];
    if last > 0 {
      assert s[0 := s[last]][..last] == [s[last]] + s[1..last];
      assert s == [s[0]] + s[1..last] + [s[last]];
    } else {
      assert s[0 := s[0]][..0] == [] && s == [s[0]];
    }
  }

  lemma UpStep<E(!new)>(ord: Ord<E>, s: seq<E>, i: nat)
    requires ord.Lawful() && 0 < i < |s| && ord.Cmp(s[i], s[Parent(i)]) < 0
    requires forall j :: 0 < j < |s| && j != i ==> Linked(ord, s, j)
    requires forall j :: 0 < j < |s| && Parent(j) == i ==> ord.Cmp(s[Parent(i)], s[j]) <= 0
    ensures var p, t := Parent(i), Swap(s, i, Parent(i));
      && (forall j :: 0 < j < |t| && j != p ==> Linked(ord, t, j))
      && (forall j :: 0 < j < |t| && p > 0 && Parent(j) == p ==> ord.Cmp(t[Parent(p)], t[j]) <= 0)
  {
    var p, t := Parent(i), Swap(s, i, Parent(i));
    forall j | 0 < j < |t| && j != p
      ensures Linked(ord, t, j)
    {
      if j != i {
        assert Linked(ord, s, j);
        assert ord.Laws(s[i], s[p], s[j]);
      }
    }
    forall j | 0 < j < |t| && p > 0 && Parent(j) == p
      ensures ord.Cmp(t[Parent(p)], t[j]) <= 0
    {
      assert Linked(ord, s, p);
      if j != i {
        assert Linked(ord, s, j);
        assert ord.Laws(s[Parent(p)], s[p], s[j]);
      }
    }
  }

  /** Loop invariant of sift_down: links above `start` aside, only those below i may be broken. */
  ghost predicate Sinking<E(!new)>(ord: Ord<E>, s: seq<E>, start: nat, i: nat) {
    && (forall j :: 0 < j < |s| && Parent(j) >= start && Parent(j) != i ==> Linked(ord, s, j))
    && (i > start ==> Parent(i) >= start)
    && (forall j :: 0 < j < |s| && i > start && Parent(j) == i ==> ord.Cmp(s[Parent(i)], s[j]) <= 0)
  }

  lemma SinkingStart<E(!new)>(ord: Ord<E>, s: seq<E>, start: nat)
    requires HeapFrom(ord, s, start + 1)
    ensures Sinking(ord, s, start, start)
  {
  }

  lemma NothingBelow<E(!new)>(ord: Ord<E>, s: seq<E>, start: nat)
    requires |s| <= start
    ensures HeapFrom(ord, s, start)
  {
  }

  lemma HeightStep(i: nat, m: nat, n: nat)
    requires (m == 2 * i + 1 || m == 2 * i + 2) && m < n
    ensures 1 + HeightAt(m + 1, n) <= HeightAt(i + 1, n)
  {
    HeightFalls(2 * (i + 1), m + 1, n);
  }

  lemma DownStop<E(!new)>(ord: Ord<E>, s: seq<E>, start: nat, i: nat)
    requires ord.Lawful() && i < |s| && Sinking(ord, s, start, i)
    requires 2 * i + 1 < |s| ==> ord.Cmp(s[2 * i + 1], s[i]) >= 0
    requires 2 * i + 2 < |s| ==> ord.Cmp(s[2 * i + 2], s[i]) >= 0
    ensures HeapFrom(ord, s, start)
  {
    forall j | 0 < j < |s| && Parent(j) == i
      ensures Linked(ord, s, j)
    {
      assert j == 2 * i + 1 || j == 2 * i + 2;
      assert ord.Laws(s[i], s[j], s[j]) && ord.Laws(s[j], s[i], s[i]);
    }
  }

  ghost predicate LeastChild<E(!new)>(ord: Ord<E>, s: seq<E>, i: nat, m: nat)
    requires i < |s| && m < |s|
  {
    ord.Cmp(s[m], s[i]) < 0 && forall j :: 0 < j < |s| && Parent(j) == i ==> ord.Cmp(s[m], s[j]) <= 0
  }

  /** The two comparisons of sift_down pick a least child, below its parent. */
  lemma SmallestIsLeast<E(!new)>(ord: Ord<E>, s: seq<E>, i: nat, m: nat)
    requires ord.Lawful() && i < |s| && m != i
    requires var l, r := 2 * i + 1, 2 * i + 2;
      var first := if l < |s| && ord.Cmp(s[l], s[i]) < 0 then l else i;
      m == if r < |s| && ord.Cmp(s[r], s[first]) < 0 then r else first
    ensures (m == 2 * i + 1 || m == 2 * i + 2) && m < |s| && LeastChild(ord, s, i, m)
  {
    forall j | 0 < j < |s| && Parent(j) == i
      ensures ord.Cmp(s[m], s[j]) <= 0
    {
      assert j == 2 * i + 1 || j == 2 * i + 2;
      Trans(ord, s[m], s[i], s[j]);
    }
    Trans(ord, s[m], s[2 * i + 1], s[i]);
  }

  lemma DownStep<E(!new)>(ord: Ord<E>, s: seq<E>, start: nat, i: nat, m: nat)
    requires ord.Lawful() && start <= i < m < |s| && Sinking(ord, s, start, i)
    requires (m == 2 * i + 1 || m == 2 * i + 2) && LeastChild(ord, s, i, m)
    ensures Sinking(ord, Swap(s, i, m), start, m)
  {
    var t := Swap(s, i, m);
    forall j | 0 < j < |t| && Parent(j) >= start && Parent(j) != m
      ensures Linked(ord, t, j)
    {
      if j == m {
      } else if Parent(j) == i {
        assert t[j] == s[j] && t[i] == s[m];
      } else if j == i {
        assert t[Parent(i)] == s[Parent(i)];
      } else {
        assert Linked(ord, s, j);
      }
    }
    forall j | 0 < j < |t| && Parent(j) == m
      ensures ord.Cmp(t[Parent(m)], t[j]) <= 0
    {
      assert Linked(ord, s, j);
    }
  }
}
