// src/ringbuf/ringbuf.c: the double-ended circular buffer.
module RingBuf {
  import opened Bits
  import opened Memory
  import opened Seqs

  const RINGBUF_INITIAL_CAP: nat := 8
  const SIZE_MAX: nat := 0xffff_ffff_ffff_ffff

  function Wrap(x: nat, cap: nat): nat
    requires x < 2 * cap
  {
    if x < cap then x else x - cap
  }

  /** The len elements that start at head, around the circle. */
  function View<T>(d: seq<T>, head: nat, len: nat): (s: seq<T>)
    requires len <= |d| && (len > 0 ==> head < |d|)
    ensures |s| == len && forall i :: 0 <= i < len ==> s[i] == d[Wrap(head + i, |d|)]
  {
    seq(len, i requires 0 <= i < len => d[Wrap(head + i, |d|)])
  }

  lemma ViewPushFront<T>(d: seq<T>, head: nat, len: nat, e: T)
    requires head < |d| && len < |d|
    ensures var h := Wrap(head + |d| - 1, |d|); View(d[h := e], h, len + 1) == [e] + View(d, head, len)
  {
  }

  lemma ViewPushBack<T>(d: seq<T>, head: nat, len: nat, e: T)
    requires head < |d| && len < |d|
    ensures View(d[Wrap(head + len, |d|) := e], head, len + 1) == View(d, head, len) + [e]
  {
  }

  lemma ViewPopFront<T>(d: seq<T>, head: nat, len: nat)
    requires head < |d| && 0 < len <= |d|
    ensures View(d, Wrap(head + 1, |d|), len - 1) == View(d, head, len)[1..] && View(d, head, len)[0] == d[head]
  {
  }

  lemma PowersOfGrowth(k: nat)
    ensures Pow2(3) == 8 && Pow2(k + 1) == 2 * Pow2(k)
  {
  }

  class RingBuf<T(0)> {
    var data: array<T>
    var cap: nat
    var len: nat
    var head: nat
    const mem: Allocator
    ghost var k: nat  // cap == 2^k once allocated

    ghost predicate Valid()
      reads this, data
    {
      && cap == data.Length && len <= cap <= SIZE_MAX + 1
      && (cap == 0 ==> head == 0)
      && (cap > 0 ==> cap == Pow2(k) && cap >= RINGBUF_INITIAL_CAP && head < cap)
    }

    /** The logical sequence, front first. */
    ghost function Contents(): (s: seq<T>)
      requires Valid()
      reads this, data
      ensures |s| == len
    {
      View(data[..], head, len)
    }

    constructor (mem: Allocator)
      ensures Valid() && Contents() == [] && fresh(data) && this.mem == mem
    {
      this.mem := mem;
      data := new T[0];
      cap, len, head, k := 0, 0, 0, 0;
    }

    /** `rb_slot`: the mask does what a remainder would. */
    function Slot(logical: nat): (slot: nat)
      requires Valid() && cap > 0 && logical < cap
      reads this, data
      ensures slot < cap && slot == Wrap(head + logical, cap) == Mod(head + logical, cap)
    {
      Mask(head + logical, cap, k);
      And(head + logical, cap - 1)
    }

    /** When growth may fail: the allocator refuses, or the capacity would overflow a size_t. */
    ghost predicate Refuses()
      reads this
    {
      !mem.generous || cap > SIZE_MAX / 2
    }

    /** A new array with the elements at its front, copied in one or two pieces. */
    method Linearised(newCap: nat) returns (nd: array<T>)
      requires Valid() && len <= newCap
      ensures fresh(nd) && nd.Length == newCap && View(nd[..], 0, len) == View(data[..], head, len)
    {
      hide And, Mod, Pow2;
      nd := new T[newCap];
      if len > 0 {
        var tail := head + len;
        if tail <= cap {
          forall i | 0 <= i < len {
            nd[i] := data[head + i];
          }
        } else {
          var first := cap - head;
          forall i | 0 <= i < first {
            nd[i] := data[head + i];
          }
          forall i | 0 <= i < len - first {
            nd[first + i] := data[i];
          }
        }
      }
      assert View(nd[..], 0, len) == View(data[..], head, len);
    }

    /** Double the capacity and copy the elements to the front, in one or two pieces. */
    method Grow() returns (status: Status)
      requires Valid()
      modifies this, mem
      ensures Valid() && Contents() == old(Contents())
      ensures status == Ok ==> fresh(data) && len < cap && head == 0 && cap >= old(cap)
      ensures status != Ok ==> status == OutOfMemory && data == old(data) && cap == old(cap) && Refuses()
      ensures status == Ok ==> cap == (if old(cap) == 0 then 8 else 2 * old(cap)) && mem.refusals == old(mem.refusals)
      ensures status != Ok ==> mem.refusals == old(mem.refusals) + if cap > 0x7fff_ffff_ffff_ffff then 0 else 1
      ensures status == Ok ==> mem.requests == old(mem.requests) + 1
    {
      hide And, Mod, View, Pow2;
      if cap > SIZE_MAX / 2 {
        return OutOfMemory;
      }
      var newCap := if cap == 0 then RINGBUF_INITIAL_CAP else cap * 2;
      var ok := mem.Request();
      if !ok {
        return OutOfMemory;
      }
      var nd := Linearised(newCap);
      PowersOfGrowth(k);
      k := if cap == 0 then 3 else k + 1;
      data, cap, head := nd, newCap, 0;
      status := Ok;
    }

    method PushBack(elem: T) returns (status: Status)
      requires Valid()
      modifies this, data, mem
      ensures Valid() && (data == old(data) || fresh(data)) && cap >= old(cap)
      ensures status == Ok ==> Contents() == old(Contents()) + [elem]
      ensures status != Ok ==> status == OutOfMemory && Contents() == old(Contents()) && Refuses()
      ensures status == Ok ==> cap == old(if len < cap then cap else if cap == 0 then 8 else 2 * cap)
      ensures status != Ok ==> len == cap == old(cap)
      ensures status != Ok ==> mem.refusals == old(mem.refusals) + if cap > 0x7fff_ffff_ffff_ffff then 0 else 1
      ensures status == Ok ==> mem.refusals == old(mem.refusals)
      ensures status == Ok ==> mem.requests == old(mem.requests + if len == cap then 1 else 0)
    {
      hide Pow2, Mod, And, View;
      if len == cap {
        var st := Grow();
        if st != Ok {
          return st;
        }
      }
      ViewPushBack(data[..], head, len, elem);
      ghost var d, slot := data[..], Slot(len);
      data[Slot(len)] := elem;
      assert data[..] == d[slot := elem];
      len := len + 1;
      status := Ok;
    }

    method PushFront(elem: T) returns (status: Status)
      requires Valid()
      modifies this, data, mem
      ensures Valid() && (data == old(data) || fresh(data)) && cap >= old(cap)
      ensures status == Ok ==> Contents() == [elem] + old(Contents())
      ensures status != Ok ==> status == OutOfMemory && Contents() == old(Contents()) && Refuses()
      ensures status == Ok ==> cap == old(if len < cap then cap else if cap == 0 then 8 else 2 * cap)
      ensures status != Ok ==> len == cap == old(cap)
      ensures status != Ok ==> mem.refusals == old(mem.refusals) + if cap > 0x7fff_ffff_ffff_ffff then 0 else 1
      ensures status == Ok ==> mem.refusals == old(mem.refusals)
      ensures status == Ok ==> mem.requests == old(mem.requests + if len == cap then 1 else 0)
    {
      hide Pow2, Mod, And, View;
      if len == cap {
        var st := Grow();
        if st != Ok {
          return st;
        }
      }
      PlaceFront(elem);
      status := Ok;
    }

    /** Where there is room, step back by one slot and write there. */
    method PlaceFront(elem: T)
      requires Valid() && len < cap
      modifies `head, `len, data
      ensures Valid() && Contents() == [elem] + old(Contents())
    {
      hide Pow2, Mod, And, View;
      ghost var h, d := head, data[..];
      Behind();
      ViewPushFront(d, h, len, elem);
      head := And(head + cap - 1, cap - 1);
      data[head] := elem;
      assert data[..] == d[head := elem];
      len := len + 1;
    }

    lemma Behind()
      requires Valid() && cap > 0
      ensures And(head + cap - 1, cap - 1) == Wrap(head + cap - 1, cap)
    {
      hide Pow2, And;
      Mask(head + cap - 1, cap, k);
    }

    method PopFront() returns (out: Option<T>)
      requires Valid()
      modifies this
      ensures Valid() && data == old(data) && cap == old(cap)
      ensures old(Contents()) == [] ==> out == None && Contents() == []
      ensures old(Contents()) != [] ==> out == Some(old(Contents())[0]) && Contents() == old(Contents())[1..]
    {
      if len == 0 {
        return None;
      }
      out := Some(data[head]);
      ViewPopFront(data[..], head, len);
      Mask(head + 1, cap, k);
      head := And(head + 1, cap - 1);
      len := len - 1;
    }

    method PopBack() returns (out: Option<T>)
      requires Valid()
      modifies this
      ensures Valid() && data == old(data) && cap == old(cap)
      ensures old(Contents()) == [] ==> out == None && Contents() == []
      ensures old(Contents()) != [] ==>
        out == Some(old(Contents())[|old(Contents())| - 1]) && Contents() == old(Contents())[..|old(Contents())| - 1]
    {
      if len == 0 {
        return None;
      }
      out := Some(data[Slot(len - 1)]);
      len := len - 1;
    }

    method GetPtr(i: nat) returns (out: Option<T>)
      requires Valid()
      ensures out == if i < |Contents()| then Some(Contents()[i]) else None
    {
      if i >= len {
        return None;
      }
      out := Some(data[Slot(i)]);
    }

    method Clear()
      requires Valid()
      modifies this
      ensures Valid() && Contents() == [] && data == old(data)
    {
      len, head := 0, 0;
    }
  }

  /** `ringbuf_iter`: the position is the logical index of the next element. */
  class Iter<T(0)> {
    const r: RingBuf<T>
    var pos: nat

    constructor (r: RingBuf<T>)
      ensures pos == 0 && this.r == r
    {
      this.r, pos := r, 0;
    }

    ghost function Remaining(): seq<T>
      requires r.Valid()
      reads this, r, r.data
    {
      if pos <= r.len then r.Contents()[pos..] else []
    }

    method Next() returns (out: Option<T>)
      requires r.Valid()
      modifies this
      ensures old(Remaining()) == [] ==> out == None && Remaining() == []
      ensures old(Remaining()) != [] ==> out == Some(old(Remaining())[0]) && Remaining() == old(Remaining())[1..]
    {
      if pos >= r.len {
        return None;
      }
      out := Some(r.data[r.Slot(pos)]);
      pos := pos + 1;
    }
  }

  /** `ringbuf_iter_rev`: the position is one past the logical index of the next element. */
  class IterRev<T(0)> {
    const r: RingBuf<T>
    var pos: nat

    constructor (r: RingBuf<T>)
      requires r.Valid()
      ensures this.r == r && pos <= r.len && Remaining() == Reverse(r.Contents())
    {
      this.r, pos := r, r.len;
      new;
      assert r.Contents()[..r.len] == r.Contents();
    }

    ghost function Remaining(): seq<T>
      requires r.Valid() && pos <= r.len
      reads this, r, r.data
    {
      Reverse(r.Contents()[..pos])
    }

    method Next() returns (out: Option<T>)
      requires r.Valid() && pos <= r.len
      modifies this
      ensures pos <= r.len
      ensures old(Remaining()) == [] ==> out == None && Remaining() == []
      ensures old(Remaining()) != [] ==> out == Some(old(Remaining())[0]) && Remaining() == old(Remaining())[1..]
    {
      if pos == 0 {
        return None;
      }
      ghost var s := r.Contents();
      pos := pos - 1;
      out := Some(r.data[r.Slot(pos)]);
      assert s[..pos + 1] == s[..pos] + [s[pos]];
      ReverseConcat(s[..pos], [s[pos]]);
    }
  }

  datatype Op<T> = PushBackOp(elem: T) | PushFrontOp(elem: T) | PopFrontOp | PopBackOp

  datatype Reply<T> = Pushed(status: Status) | Popped(out: Option<T>)

  /** The reply that an operation on the sequence s gives. */
  ghost predicate Answers<T>(s: seq<T>, op: Op<T>, reply: Reply<T>) {
    match op
    case PushBackOp(_) => reply == Pushed(Ok) || reply == Pushed(OutOfMemory)
    case PushFrontOp(_) => reply == Pushed(Ok) || reply == Pushed(OutOfMemory)
    case PopFrontOp => reply == Popped(if s == [] then None else Some(s[0]))
    case PopBackOp => reply == Popped(if s == [] then None else Some(s[|s| - 1]))
  }

  /** One operation on the sequence; a push that ran out of memory does nothing. */
  ghost function Effect<T>(s: seq<T>, op: Op<T>, reply: Reply<T>): seq<T> {
    match op
    case PushBackOp(e) => if reply == Pushed(Ok) then s + [e] else s
    case PushFrontOp(e) => if reply == Pushed(Ok) then [e] + s else s
    case PopFrontOp => if s == [] then s else s[1..]
    case PopBackOp => if s == [] then s else s[..|s| - 1]
  }

  /** The operations take the sequence from s to t, with these replies on the way. */
  ghost predicate Replayed<T>(s: seq<T>, ops: seq<Op<T>>, replies: seq<Reply<T>>, t: seq<T>)
    decreases |ops|
  {
    if ops == [] || replies == [] then ops == [] && replies == [] && s == t
    else Answers(s, ops[0], replies[0]) && Replayed(Effect(s, ops[0], replies[0]), ops[1..], replies[1..], t)
  }

  method Execute<T(0)>(r: RingBuf<T>, op: Op<T>) returns (reply: Reply<T>)
    requires r.Valid()
    modifies r, r.data, r.mem
    ensures r.Valid() && (r.data == old(r.data) || fresh(r.data))
    ensures Answers(old(r.Contents()), op, reply) && r.cap >= old(r.cap)
    ensures reply == Pushed(OutOfMemory) ==> r.Refuses()
    ensures reply != Pushed(OutOfMemory) ==> r.mem.refusals == old(r.mem.refusals)
    ensures reply == Pushed(OutOfMemory) ==>
      r.mem.refusals == old(r.mem.refusals) + if r.cap > 0x7fff_ffff_ffff_ffff then 0 else 1
    ensures r.Contents() == Effect(old(r.Contents()), op, reply)
  {
    match op {
      case PushBackOp(e) => var status := r.PushBack(e); reply := Pushed(status);
      case PushFrontOp(e) => var status := r.PushFront(e); reply := Pushed(status);
      case PopFrontOp => var out := r.PopFront(); reply := Popped(out);
      case PopBackOp => var out := r.PopBack(); reply := Popped(out);
    }
  }

  /** Any run of pushes and pops at both ends, through any number of growths. */
  method Run<T(0)>(r: RingBuf<T>, ops: seq<Op<T>>) returns (replies: seq<Reply<T>>)
    requires r.Valid()
    modifies r, r.data, r.mem
    ensures r.Valid() && (r.data == old(r.data) || fresh(r.data))
    ensures Replayed(old(r.Contents()), ops, replies, r.Contents()) && r.cap >= old(r.cap)
    ensures Pushed(OutOfMemory) in replies ==> r.Refuses()
    ensures r.cap <= 0x7fff_ffff_ffff_ffff ==>
      r.mem.refusals == old(r.mem.refusals) + Count(replies, Pushed(OutOfMemory))
    decreases |ops|
  {
    replies := [];
    if ops != [] {
      hide RingBuf.Contents;
      var reply := Execute(r, ops[0]);
      var rest := Run(r, ops[1..]);
      CountCons(reply, rest, Pushed(OutOfMemory));
      replies := [reply] + rest;
    }
  }
}
