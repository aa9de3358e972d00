// src/set/set.c: the Robin Hood hash set.
module HashSet {
  import opened Bits
  import opened Memory
  import opened RobinHood
  import opened RobinHoodSteps
  import opened RobinHoodLoops

  const SET_INITIAL_CAP: nat := 16
  const SET_PSL_THRESHOLD: nat := 128

  /** k is an element of the set, up to equality. */
  ghost predicate Member<K(!new)>(env: Env<K>, s: set<K>, k: K) {
    exists r :: r in s && env.Eq(r, k)
  }

  lemma MemberIsHas<K(!new), P>(env: Env<K>, m: map<K, P>, k: K)
    ensures Has(env, m, k) == Member(env, m.Keys, k)
  {
  }

  // ----- Block ownership: an entry's load is the block of its key copy

  /** Every live block holds the key of exactly one entry. */
  ghost predicate OwnsKeys<K(!new)>(m: map<K, nat>, owner: map<nat, K>) {
    && (forall k :: k in m ==> m[k] in owner && owner[m[k]] == k)
    && (forall b :: b in owner ==> owner[b] in m && m[owner[b]] == b)
  }

  lemma {:induction false} OneBlockEach<K(!new)>(m: map<K, nat>, owner: map<nat, K>)
    requires OwnsKeys(m, owner)
    ensures |owner| == |m|
    decreases |m|
  {
    if m == map[] {
      assert owner.Keys == {};
    } else {
      var k :| k in m;
      var less: map<nat, K> := owner - {m[k]};
      assert owner.Keys == less.Keys + {m[k]} && m.Keys == (m - {k}).Keys + {k};
      OneBlockEach(m - {k}, less);
    }
  }

  lemma OwnsKeysMore<K(!new)>(m: map<K, nat>, owner: map<nat, K>, k: K, block: nat)
    requires OwnsKeys(m, owner) && k !in m && block !in owner
    ensures OwnsKeys(m[k := block], owner[block := k]) && owner[block := k].Keys == owner.Keys + {block}
  {
  }

  lemma OwnsKeysLess<K(!new)>(m: map<K, nat>, owner: map<nat, K>, k: K)
    requires OwnsKeys(m, owner) && k in m
    ensures m[k] in owner && OwnsKeys(m - {k}, owner - {m[k]}) && (owner - {m[k]}).Keys == owner.Keys - {m[k]}
  {
  }

  class HashSet<K(==, !new)> {
    const env: Env<K>
    const heap: Heap
    var buckets: array<Bucket<K, nat>>
    var cap: nat
    var len: nat
    var maxPsl: u8
    ghost var entries: map<K, nat>
    ghost var owner: map<nat, K>  // of each live key block
    ghost var doublings: nat  // since the first allocation

    /** The array agrees with `entries`; the part `set_insert_raw` keeps. */
    ghost predicate TableValid()
      reads `buckets, `cap, `maxPsl, `entries, `doublings, buckets
    {
      && cap == buckets.Length == Pow2(doublings + 4)
      && Table(env, buckets[..], entries) && PslsAtMost(buckets[..], maxPsl)
    }

    lemma OpenTable()
      requires TableValid()
      ensures cap == buckets.Length == Pow2(doublings + 4)
      ensures Table(env, buckets[..], entries) && PslsAtMost(buckets[..], maxPsl)
    {
    }

    lemma CloseTable()
      requires cap == buckets.Length == Pow2(doublings + 4)
      requires Table(env, buckets[..], entries) && PslsAtMost(buckets[..], maxPsl)
      ensures TableValid()
    {
    }

    ghost predicate Valid()
      reads this, buckets, heap
    {
      && heap.Valid() && owner.Keys == heap.live && OwnsKeys(entries, owner)
      && env.Lawful() && cap == buckets.Length && len == |entries|
      && (cap == 0 ==> len == 0 && maxPsl == 0 && doublings == 0)
      && (cap > 0 ==>
            && TableValid() && cap <= MAX_CAP
            && 4 * len <= 3 * cap && maxPsl <= SET_PSL_THRESHOLD + doublings)
    }

    /** The elements, pairwise different up to equality. */
    ghost function Elements(): set<K>
      reads this
    {
      entries.Keys
    }

    constructor (env: Env<K>, mem: Allocator)
      requires env.Lawful()
      ensures Valid() && Elements() == {} && this.env == env
      ensures fresh(buckets) && fresh(heap) && heap.mem == mem && heap.live == {}
    {
      this.env := env;
      heap := new Heap(mem);
      buckets := new Bucket<K, nat>[0](_ => Empty);
      cap, len, maxPsl := 0, 0, 0;
      entries, owner, doublings := map[], map[], 0;
    }

    lemma Open()
      requires Valid()
      ensures cap == buckets.Length && len == |entries| && env.Lawful()
      ensures heap.Valid() && owner.Keys == heap.live && OwnsKeys(entries, owner)
      ensures cap == 0 ==> entries == map[] && len == 0 && maxPsl == 0 && doublings == 0
      ensures cap > 0 ==> cap == Pow2(doublings + 4) <= MAX_CAP && Table(env, buckets[..], entries)
      ensures cap > 0 ==> TableValid() && 4 * len <= 3 * cap && maxPsl <= SET_PSL_THRESHOLD + doublings
      ensures cap > 0 ==> PslsAtMost(buckets[..], 254) && PslsAtMost(buckets[..], maxPsl) && maxPsl <= 182
    {
      if cap > 0 {
        DoublingsBound(doublings);
      }
    }

    lemma Close()
      requires TableValid() && cap <= MAX_CAP && 4 * len <= 3 * cap && len == |entries|
      requires maxPsl <= SET_PSL_THRESHOLD + doublings
      requires heap.Valid() && owner.Keys == heap.live && OwnsKeys(entries, owner)
      ensures Valid()
    {
    }

    method Contains(key: K) returns (found: bool)
      requires Valid()
      ensures found == Member(env, Elements(), key)
    {
      hide Table, PslsAtMost, Pow2, Has;
      if len == 0 {
        return false;
      }
      Open();
      MemberIsHas(env, entries, key);
      var slot;
      found, slot := Probe(env, buckets, cap, doublings + 4, key, entries);
    }

    /** `set_insert_raw`: true if the key was not there yet; otherwise its spare copy is freed. */
    method InsertRaw(incoming: Bucket<K, nat>, ghost ref: seq<Bucket<K, nat>>, ghost extra: set<K>, ghost B: nat)
      returns (inserted: bool)
      requires TableValid()
      requires incoming.Full? && |entries| + 1 < cap && heap.Valid() && incoming.load in heap.live
      requires Yardstick(env, cap, entries.Keys + {incoming.key}, ref, extra, B) && B + |extra| <= 254
      modifies `maxPsl, `entries, buckets, heap
      ensures TableValid() && heap.Valid()
      ensures heap.live == if inserted then old(heap.live) else old(heap.live) - {incoming.load}
      ensures inserted == !Has(env, old(entries), incoming.key)
      ensures inserted ==> incoming.key !in old(entries) && entries == old(entries)[incoming.key := incoming.load]
      ensures !inserted ==> entries == old(entries) && buckets[..] == old(buckets[..])
      ensures old(maxPsl) <= maxPsl && (maxPsl == old(maxPsl) || maxPsl <= B + |extra|)
    {
      hide *;
      OpenTable();
      var present, slot, high :=
        Displace(env, buckets, cap, doublings + 4, maxPsl, incoming, entries, ref, extra, B);
      maxPsl := high;
      if present {
        heap.Free(incoming.load);
      } else {
        entries := entries[incoming.key := incoming.load];
      }
      CloseTable();
      inserted := !present;
    }

    method Reinsert(oldBuckets: array<Bucket<K, nat>>, ghost m: map<K, nat>, ghost B: nat)
      requires TableValid() && cap == 2 * oldBuckets.Length && oldBuckets != buckets && entries == map[] && maxPsl == 0
      requires Table(env, oldBuckets[..], m) && PslsAtMost(oldBuckets[..], B) && B <= 254 && |m| < oldBuckets.Length
      requires heap.Valid() && forall k :: k in m ==> m[k] in heap.live
      modifies `maxPsl, `entries, buckets, heap
      ensures heap.Valid() && heap.live == old(heap.live)
      ensures TableValid() && entries == m && maxPsl <= B
    {
      hide *;
      ghost var t := oldBuckets[..];
      OpenTable();
      RehashStart(t, m);
      for i := 0 to oldBuckets.Length
        invariant TableValid() && maxPsl <= B
        invariant oldBuckets[..] == t && Rehashed(t, m, i, entries)
        invariant heap.Valid() && heap.live == old(heap.live)
      {
        var b := oldBuckets[i];
        assert b == t[i];
        if b.Full? {
          RehashStep(env, t, m, i, entries, B);
          StoredLoad(env, t, m, i);
          var _ := InsertRaw(b, t, {}, B);
        } else {
          RehashSkip(t, m, i, entries);
        }
      }
      RehashDone(env, t, m, entries);
    }

    /** When an operation may fail: the allocator refuses, or no allocator could provide a table twice the size. */
    ghost predicate Refuses()
      reads `cap
    {
      !heap.mem.generous || 2 * cap > MAX_CAP
    }

    method NewTable(newCap: nat)
      requires newCap == Pow2(doublings + 1 + 4) && env.Lawful()
      modifies this
      ensures fresh(buckets) && cap == newCap && TableValid() && entries == map[] && maxPsl == 0
      ensures doublings == old(doublings) + 1 && len == old(len) && owner == old(owner)
    {
      hide *;
      buckets := new Bucket<K, nat>[newCap](_ => Empty);
      cap, maxPsl := newCap, 0;
      entries, doublings := map[], doublings + 1;
      PowerDoubles(doublings + 3);
      EmptyTable(env, buckets[..]);
      CloseTable();
    }

    method Resize() returns (status: Status)
      requires Valid() && cap > 0
      modifies this, heap, heap.mem
      ensures Valid() && entries == old(entries) && cap > 0 && heap.live == old(heap.live)
      ensures status == OutOfMemory ==> buckets == old(buckets) && doublings == old(doublings) && cap == old(cap)
      ensures status == OutOfMemory ==> !heap.mem.generous || 2 * cap > MAX_CAP
      ensures status != OutOfMemory ==> status == Ok && fresh(buckets) && cap == 2 * old(cap)
      ensures status != OutOfMemory ==> doublings == old(doublings) + 1 && maxPsl <= old(maxPsl)
      ensures heap.mem.refusals == old(heap.mem.refusals) + if status == OutOfMemory then 1 else 0
      ensures heap.mem.requests == old(heap.mem.requests) + 1
    {
      hide *;
      var newCap := cap * 2;
      var ok := heap.mem.Request(newCap);
      if !ok {
        return OutOfMemory;
      }
      Open();
      var oldBuckets := buckets;
      ghost var m, B := entries, maxPsl;
      TableFacts(env, buckets[..], m);
      PowerDoubles(doublings + 4);
      NewTable(newCap);
      LoadsOwned(m, owner);
      Reinsert(oldBuckets, m, B);
      Close();
      status := Ok;
    }

    /** Insert a key whose copy has just been allocated; a duplicate's copy is freed. */
    method InsertOwned(key: K, block: nat) returns (inserted: bool)
      requires TableValid() && cap <= MAX_CAP && (len + 1) * 4 <= cap * 3 && len == |entries|
      requires maxPsl <= 253 && maxPsl < SET_PSL_THRESHOLD + doublings
      requires heap.Valid() && OwnsKeys(entries, owner) && block !in owner && heap.live == owner.Keys + {block}
      modifies `len, `maxPsl, `entries, `owner, buckets, heap
      ensures Valid() && inserted == !Has(env, old(entries), key)
      ensures inserted ==> entries.Keys == old(entries).Keys + {key}
      ensures !inserted ==> entries == old(entries) && heap.live == old(heap.live) - {block}
    {
      hide *;
      OpenTable();
      ghost var t, m := buckets[..], entries;
      OwnYardstick(env, t, m, key, maxPsl);
      inserted := InsertRaw(Full(key, block, 1), t, {key}, maxPsl);
      if inserted {
        OneMore(m, owner, key, block);
        owner := owner[block := key];
        len := len + 1;
        Close();
      } else {
        BlockBack(owner.Keys, block);
        Close();
      }
    }

    /** Insert a copy of the key once the table has room. */
    method InsertCopy(key: K) returns (status: Status)
      requires Valid() && 0 < cap && len * 4 < cap * 3 && maxPsl < SET_PSL_THRESHOLD + doublings
      modifies `len, `maxPsl, `entries, `owner, buckets, heap, heap.mem
      ensures Valid()
      ensures status == Ok ==> !Has(env, old(entries), key) && entries.Keys == old(entries).Keys + {key}
      ensures status == Duplicate ==> Has(env, old(entries), key)
      ensures status != Ok ==> entries == old(entries) && heap.live == old(heap.live)
      ensures status == Ok || status == Duplicate || (status == OutOfMemory && !heap.mem.generous)
      ensures heap.mem.refusals == old(heap.mem.refusals) + if status == OutOfMemory then 1 else 0
      ensures cap == old(cap)
      ensures heap.mem.requests == old(heap.mem.requests) + 1
    {
      hide *;
      Open();
      CapIsMultipleOf4();
      var copy := heap.Alloc();
      if copy.None? {
        Close();
        return OutOfMemory;
      }
      var inserted := InsertOwned(key, copy.value);
      status := if inserted then Ok else Duplicate;
    }

    lemma CapIsMultipleOf4()
      requires Valid() && len * 4 < cap * 3
      ensures (len + 1) * 4 <= cap * 3
    {
      hide *;
      Open();
      RoomForOne(len, cap, doublings);
    }

    method Add(key: K) returns (status: Status)
      requires Valid()
      modifies this, buckets, heap, heap.mem
      ensures Valid() && (buckets == old(buckets) || fresh(buckets))
      ensures status == Ok ==> !Member(env, old(Elements()), key) && Elements() == old(Elements()) + {key}
      ensures status == Duplicate ==> Member(env, old(Elements()), key) && Elements() == old(Elements())
      ensures status == OutOfMemory ==> Elements() == old(Elements())
      ensures status != Ok ==> heap.live == old(heap.live)
      ensures status == Ok || status == Duplicate || (status == OutOfMemory && Refuses())
      ensures cap >= old(cap)
      ensures heap.mem.refusals == old(heap.mem.refusals) + if status == OutOfMemory then 1 else 0
      ensures status == Ok || status == Duplicate ==>
        cap == old(if cap == 0 then 16 else if len * 4 >= cap * 3 || maxPsl >= 128 then 2 * cap else cap)
      ensures status == Ok || status == Duplicate ==>
        heap.mem.requests == old(heap.mem.requests + if len * 4 >= cap * 3 || maxPsl >= 128 then 2 else 1)
    {
      hide Table, PslsAtMost, Has, OwnsKeys;
      if cap == 0 {
        var ok := heap.mem.Request(SET_INITIAL_CAP);
        if !ok {
          return OutOfMemory;
        }
        buckets := new Bucket<K, nat>[SET_INITIAL_CAP](_ => Empty);
        cap := SET_INITIAL_CAP;
        EmptyTable(env, buckets[..]);
        SmallPowers();
      }
      if len * 4 >= cap * 3 || maxPsl >= SET_PSL_THRESHOLD {
        var rs := Resize();
        if rs != Ok {
          return rs;
        }
      }
      MemberIsHas(env, entries, key);
      status := InsertCopy(key);
    }

    /** The shift loop of `set_remove`: each bucket is overwritten by its successor. */
    method ShiftOver(start: nat, ghost m: map<K, nat>, ghost z: nat)
      requires cap == buckets.Length == Pow2(doublings + 4) && start < cap
      requires Hole(env, buckets[..][start := Empty], start, m)
      requires z < cap && z != start && buckets[z].Empty?
      modifies buckets
      ensures Table(env, buckets[..], m)
      ensures forall high :: PslsAtMost(old(buckets[..][start := Empty]), high) ==> PslsAtMost(buckets[..], high)
    {
      hide *;
      var slot: nat := start;
      ghost var t := buckets[..][slot := Empty];
      ghost var t0 := t;
      while true
        invariant slot < cap && z != slot && |t| == cap && t[z].Empty?
        invariant buckets[..][slot := Empty] == t && Hole(env, t, slot, m)
        invariant forall high :: PslsAtMost(t0, high) ==> PslsAtMost(t, high)
        decreases Dist(slot, z, cap)
      {
        NextMask(slot, cap, doublings + 4);
        NextIsElsewhere(slot, z, cap);
        ShiftableNow(t, slot);
        var next: nat := And(slot + 1, cap - 1);
        var nb := buckets[next];
        assert nb == t[next];
        if nb.Empty? || nb.psl <= 1 {
          HoleDone(env, t, slot, m);
          buckets[slot] := Empty;
          assert buckets[..] == t;
          break;
        }
        HoleShift(env, t, slot, m);
        ShiftBound(t, slot);
        NextIsCloser(slot, z, cap);
        buckets[slot] := nb.(psl := nb.psl - 1);
        t := Shift(t, slot);
        slot := next;
      }
    }

    /** Free the key of a bucket and shift the buckets behind it back. */
    method RemoveAt(slot: nat)
      requires Valid() && slot < cap && buckets[slot].Full?
      modifies this, buckets, heap
      ensures Valid() && buckets == old(buckets) && maxPsl == old(maxPsl) && doublings == old(doublings)
      ensures cap == old(cap) && entries == old(entries) - {old(buckets[slot].key)}
    {
      hide *;
      Open();
      ghost var t, m, key := buckets[..], entries, buckets[slot].key;
      ghost var z := RemoveReady(env, t, m, slot);
      StoredLoad(env, t, m, slot);
      OwnsKeysLess(m, owner, key);
      heap.Free(buckets[slot].load);
      owner := owner - {m[key]};
      entries := entries - {key};
      len := len - 1;
      ShiftOver(slot, entries, z);
      CloseTable();
      Close();
    }

    method Remove(key: K) returns (status: Status)
      requires Valid()
      modifies this, buckets, heap
      ensures Valid() && buckets == old(buckets) && maxPsl == old(maxPsl) && doublings == old(doublings)
      ensures cap == old(cap)
      ensures status == if old(Member(env, Elements(), key)) then Ok else NotFound
      ensures status == NotFound ==> Elements() == old(Elements()) && heap.live == old(heap.live)
      ensures status == Ok ==> exists r :: r in old(Elements()) && env.Eq(r, key) && Elements() == old(Elements()) - {r}
    {
      hide Table, PslsAtMost, Pow2, Has, OwnsKeys, Valid;
      Open();
      if len == 0 {
        return NotFound;
      }
      MemberIsHas(env, entries, key);
      var found, slot := Probe(env, buckets, cap, doublings + 4, key, entries);
      if !found {
        return NotFound;
      }
      ghost var r := Rep(env, entries, key);
      RemoveAt(slot);
      assert entries.Keys == old(entries).Keys - {r};
      status := Ok;
    }

    /** The freeing loop of `set_clear`. */
    method FreeAll()
      requires Valid() && cap > 0
      modifies this`owner, heap
      ensures heap.Valid() && heap.live == {} && owner == map[] && buckets[..] == old(buckets[..])
    {
      hide *;
      Open();
      ghost var t, m := buckets[..], entries;
      ghost var rest := m;
      TableFacts(env, t, m);
      UnfreedStart(env, t, m);
      for i := 0 to cap
        invariant buckets[..] == t && heap.Valid() && owner.Keys == heap.live && OwnsKeys(rest, owner)
        invariant Unfreed(t, m, i, rest)
      {
        var b := buckets[i];
        assert b == t[i];
        if b.Full? {
          UnfreedKey(env, t, m, i, rest, owner);
          heap.Free(b.load);
          owner := owner - {b.load};
          rest := rest - {b.key};
        } else {
          UnfreedSkip(t, m, i, rest);
        }
      }
      UnfreedAll(t, m, rest, owner);
    }

    method Clear()
      requires Valid()
      modifies this, buckets, heap
      ensures Valid() && Elements() == {} && len == 0 && maxPsl == 0 && buckets == old(buckets) && heap.live == {}
      ensures doublings == old(doublings) && cap == old(cap)
    {
      hide Table, PslsAtMost, Pow2, OwnsKeys, Valid;
      Open();
      if cap == 0 {
        NoBlocks(entries, owner);
        return;
      }
      FreeAll();
      TableFacts(env, buckets[..], entries);
      for i := 0 to cap
        invariant forall j :: 0 <= j < i ==> buckets[j].Empty?
        modifies buckets
      {
        buckets[i] := Empty;
      }
      entries, len, maxPsl := map[], 0, 0;
      EmptyTable(env, buckets[..]);
      OwnsNoKeys<K>();
      CloseTable();
      Close();
    }

    /** What holds between any two operations. */
    lemma Summary()
      requires Valid()
      ensures cap > 0 ==> cap == Pow2(doublings + 4)
      ensures cap == 0 ==> doublings == 0 && maxPsl == 0 && Elements() == {}
      ensures maxPsl <= SET_PSL_THRESHOLD + doublings && maxPsl <= 182 && len == |Elements()| == |heap.live|
      ensures env.Lawful() && Apart(env, Elements())
    {
      Open();
      Ledger();
      if cap > 0 {
        TableFacts(env, buckets[..], entries);
      }
    }

    /** One live block for each element. */
    lemma Ledger()
      requires Valid()
      ensures |heap.live| == len == |Elements()|
    {
      OneBlockEach(entries, owner);
      assert |owner.Keys| == |owner| && |entries.Keys| == |entries|;
    }
  }

  lemma OneMore<K(!new)>(m: map<K, nat>, owner: map<nat, K>, k: K, block: nat)
    requires OwnsKeys(m, owner) && k !in m && block !in owner
    ensures OwnsKeys(m[k := block], owner[block := k]) && owner[block := k].Keys == owner.Keys + {block}
    ensures |m[k := block]| == |m| + 1 && m[k := block].Keys == m.Keys + {k}
  {
    OwnsKeysMore(m, owner, k, block);
    assert |m[k := block].Keys| == |m.Keys| + 1;
  }

  lemma BlockBack(s: set<nat>, block: nat)
    requires block !in s
    ensures s + {block} - {block} == s
  {
  }

  lemma FourDivides(d: nat)
    ensures Pow2(d + 4) == 4 * Pow2(d + 2)
  {
    hide Pow2;
    PowerDoubles(d + 2);
    PowerDoubles(d + 3);
  }

  lemma RoomForOne(len: nat, cap: nat, d: nat)
    requires len * 4 < cap * 3 && cap == Pow2(d + 4)
    ensures (len + 1) * 4 <= cap * 3
  {
    hide Pow2;
    FourDivides(d);
    Quarters(len, Pow2(d + 2));
  }

  lemma Quarters(len: nat, q: nat)
    requires len * 4 < 12 * q
    ensures len + 1 <= 3 * q
  {
  }

  lemma OwnsNoKeys<K(!new)>()
    ensures OwnsKeys<K>(map[], map[])
  {
  }

  lemma NoBlocks<K(!new)>(m: map<K, nat>, owner: map<nat, K>)
    requires OwnsKeys(m, owner) && |m| == 0
    ensures m == map[] && owner.Keys == {}
  {
    assert |m.Keys| == 0;
  }

  lemma LoadsOwned<K(!new)>(m: map<K, nat>, owner: map<nat, K>)
    requires OwnsKeys(m, owner)
    ensures forall k :: k in m ==> m[k] in owner.Keys
  {
  }

  /** The block of bucket i is freed, once and for all. */
  lemma UnfreedKey<K(!new)>(
    env: Env<K>, t: seq<Bucket<K, nat>>, m: map<K, nat>, i: nat, rest: map<K, nat>, owner: map<nat, K>)
    requires Table(env, t, m) && Unfreed(t, m, i, rest) && i < |t| && t[i].Full? && OwnsKeys(rest, owner)
    ensures Unfreed(t, m, i + 1, rest - {t[i].key}) && t[i].load in owner
    ensures OwnsKeys(rest - {t[i].key}, owner - {t[i].load})
  {
    UnfreedLess(env, t, m, i, rest);
    OwnsKeysLess(rest, owner, t[i].key);
  }

  lemma UnfreedAll<K(!new)>(t: seq<Bucket<K, nat>>, m: map<K, nat>, rest: map<K, nat>, owner: map<nat, K>)
    requires Unfreed(t, m, |t|, rest) && OwnsKeys(rest, owner)
    ensures rest == map[] && owner.Keys == {}
  {
  }

  lemma NextIsElsewhere(slot: nat, z: nat, cap: nat)
    requires slot < cap && z < cap && z != slot
    ensures Next(slot, cap) != slot
  {
  }

  lemma RemoveReady<K(!new)>(env: Env<K>, t: seq<Bucket<K, nat>>, m: map<K, nat>, slot: nat) returns (z: nat)
    requires Table(env, t, m) && slot < |t| && t[slot].Full?
    ensures t[slot].key in m && |m - {t[slot].key}| == |m| - 1
    ensures Hole(env, t[slot := Empty], slot, m - {t[slot].key})
    ensures z < |t| && t[z].Empty? && z != slot
    ensures forall high :: PslsAtMost(t, high) ==> PslsAtMost(t[slot := Empty], high)
  {
    hide Hole, Table;
    HoleStart(env, t, m, slot);
    z := TableRoom(env, t, m);
    StoredLoad(env, t, m, slot);
    LessByOne(m, t[slot].key);
  }
}
