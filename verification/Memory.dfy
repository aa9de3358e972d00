// Status codes, and an allocator that may fail, with a ledger of the blocks that a container holds.
module Memory {

  datatype Option<+T> = None | Some(value: T)

  /** How often x occurs. */
  function Count<E(==)>(s: seq<E>, x: E): nat {
    multiset(s)[x]
  }

  lemma CountCons<E>(x: E, s: seq<E>, y: E)
    ensures Count([x] + s, y) == Count(s, y) + if x == y then 1 else 0
  {
  }

  lemma CountSnoc<E>(s: seq<E>, x: E, y: E)
    ensures Count(s + [x], y) == Count(s, y) + if x == y then 1 else 0
  {
  }

  lemma CountNone<E>(y: E)
    ensures Count([], y) == 0
  {
  }

  datatype Status = Ok | NotFound | Duplicate | OutOfMemory

  /** No allocator can provide a table of more buckets than this (16 or 24 bytes each). */
  const MAX_CAP: nat := 0x400_0000_0000_0000

  /**
   * The caller's allocator, with a count of the requests made and of those it has refused. A generous one grants
   * every request that any allocator could; any other refuses as it pleases.
   */
  class Allocator {
    const generous: bool
    ghost var requests: nat
    ghost var refusals: nat

    constructor (generous: bool)
      ensures this.generous == generous && requests == refusals == 0
    {
      this.generous, requests, refusals := generous, 0, 0;
    }

    /** Ask for so many buckets, or for one small object. */
    method Request(buckets: nat := 1) returns (ok: bool)
      modifies this
      ensures requests == old(requests) + 1 && refusals == old(refusals) + if ok then 0 else 1
      ensures generous && buckets <= MAX_CAP ==> ok
      ensures buckets > MAX_CAP ==> !ok
    {
      ok := *;
      ok := (ok || generous) && buckets <= MAX_CAP;
      requests, refusals := requests + 1, refusals + if ok then 0 else 1;
    }

    /** Room for one more in a buffer of capacity cap that holds len: only a full one asks, for twice the size. */
    method MakeRoom(len: nat, cap: nat) returns (ok: bool, room: nat)
      requires len <= cap
      modifies this
      ensures requests == old(requests) + if len < cap then 0 else 1
      ensures refusals == old(refusals) + if ok then 0 else 1
      ensures len < cap || generous ==> ok
      ensures room == if len < cap || !ok then cap else if cap == 0 then 16 else 2 * cap
    {
      ok, room := true, cap;
      if len == cap {
        ok := Request();
        if ok {
          room := if cap == 0 then 16 else cap * 2;
        }
      }
    }
  }

  class Heap {
    ghost var live: set<nat>
    var next: nat
    const mem: Allocator

    ghost predicate Valid()
      reads this
    {
      forall b :: b in live ==> b < next
    }

    constructor (mem: Allocator)
      ensures Valid() && live == {} && this.mem == mem
    {
      this.mem, live, next := mem, {}, 0;
    }

    method Alloc() returns (block: Option<nat>)
      requires Valid()
      modifies this, mem
      ensures Valid() && mem.requests == old(mem.requests) + 1
      ensures mem.refusals == old(mem.refusals) + if block.Some? then 0 else 1
      ensures block.None? ==> live == old(live) && !mem.generous
      ensures block.Some? ==> block.value !in old(live) && live == old(live) + {block.value}
    {
      var ok := mem.Request();
      if !ok {
        return None;
      }
      block := Some(next);
      live := live + {next};
      next := next + 1;
    }

    /** Only live blocks can be freed, and only once. */
    method Free(block: nat)
      requires Valid() && block in live
      modifies this
      ensures Valid() && live == old(live) - {block}
    {
      live := live - {block};
    }
  }
}
