// src/hashmap/hashmap.c: the Robin Hood hash map.
module HashMap {
  import opened Bits
  import opened Memory
  import opened RobinHood
  import opened RobinHoodSteps
  import opened RobinHoodLoops

  const HASH_PSL_THRESHOLD: nat := 128
  const INITIAL_CAP: nat := 16
  /** A value, with the blocks that hold the copies of the key and of the value. */
  datatype Cell<V> = Cell(val: V, keyBlock: nat, valBlock: nat)

  // ----- Block ownership -----

  /** Every live block belongs to exactly one entry, and every entry has two of its own. */
  ghost predicate Owns<K(!new), V>(m: map<K, Cell<V>>, owner: map<nat, K>) {
    && (forall k :: k in m ==>
          && m[k].keyBlock in owner && owner[m[k].keyBlock] == k
          && m[k].valBlock in owner && owner[m[k].valBlock] == k
          && m[k].keyBlock != m[k].valBlock)
    && (forall b :: b in owner ==> owner[b] in m && (m[owner[b]].keyBlock == b || m[owner[b]].valBlock == b))
  }

  /** So exactly two blocks per entry are live. */
  lemma {:induction false} TwoBlocksEach<K(!new), V>(m: map<K, Cell<V>>, owner: map<nat, K>)
    requires Owns(m, owner)
    ensures |owner| == 2 * |m|
    decreases |m|
  {
    if m == map[] {
      assert owner.Keys == {};
    } else {
      var k :| k in m;
      OwnsLess(m, owner, k);
      var less: map<nat, K> := owner - {m[k].keyBlock, m[k].valBlock};
      assert owner.Keys == less.Keys + {m[k].keyBlock, m[k].valBlock};
      assert m.Keys == (m - {k}).Keys + {k};
      TwoBlocksEach(m - {k}, less);
    }
  }

  /** The value blocks of the entries are live, and none of them is `spare`. */
  ghost predicate ValuesLive<K(!new), V>(m: map<K, Cell<V>>, live: set<nat>, spare: nat) {
    forall k :: k in m ==> m[k].valBlock in live && m[k].valBlock != spare
  }

  lemma OwnValuesLive<K(!new), V>(m: map<K, Cell<V>>, owner: map<nat, K>, live: set<nat>, spare: nat)
    requires Owns(m, owner) && owner.Keys <= live && spare !in owner
    ensures ValuesLive(m, live, spare)
  {
  }

  lemma OwnsLess<K(!new), V>(m: map<K, Cell<V>>, owner: map<nat, K>, k: K)
    requires Owns(m, owner) && k in m
    ensures Owns(m - {k}, owner - {m[k].keyBlock, m[k].valBlock})
  {
  }

  lemma OwnsBoth<K(!new), V>(m: map<K, Cell<V>>, owner: map<nat, K>, k: K)
    requires Owns(m, owner) && k in m
    ensures m[k].keyBlock in owner && m[k].valBlock in owner && m[k].keyBlock != m[k].valBlock
  {
  }

  lemma OwnsMore<K(!new), V>(m: map<K, Cell<V>>, owner: map<nat, K>, k: K, c: Cell<V>)
    requires Owns(m, owner) && k !in m
    requires c.keyBlock !in owner && c.valBlock !in owner && c.keyBlock != c.valBlock
    ensures Owns(m[k := c], owner[c.keyBlock := k][c.valBlock := k])
  {
  }

  /** Replacing the value block of an entry, and freeing the old one. */
  lemma OwnsSwapped<K(!new), V>(m: map<K, Cell<V>>, owner: map<nat, K>, r: K, c: Cell<V>)
    requires Owns(m, owner) && r in m && c.keyBlock == m[r].keyBlock && c.valBlock !in owner
    ensures Owns(m[r := c], owner[c.valBlock := r] - {m[r].valBlock})
  {
    OwnsLess(m, owner, r);
    var less, rest: map<nat, K> := m - {r}, owner - {m[r].keyBlock, m[r].valBlock};
    OwnsMore(less, rest, r, c);
    assert m[r := c] == less[r := c];
    assert owner[c.valBlock := r] - {m[r].valBlock} == rest[c.keyBlock := r][c.valBlock := r];
  }

  lemma OwnsNothing<K(!new), V>()
    ensures Owns<K, V>(map[], map[])
  {
  }

  ghost function Vals<K(!new), V>(m: map<K, Cell<V>>): map<K, V> {
    map k | k in m :: m[k].val
  }

  /** `Put` and removal read as operations on the finite map modulo `eq`. */
  lemma PutIsInsert<K(!new), V>(env: Env<K>, t: seq<Bucket<K, Cell<V>>>, m: map<K, Cell<V>>, k: K, c: Cell<V>)
    requires Table(env, t, m)
    ensures !Has(env, m, k) ==> k !in m
    ensures Vals(Put(env, m, k, c)) == Insert(env, Vals(m), k, c.val)
    ensures |Put(env, m, k, c)| <= |m| + 1
  {
    hide Table;
    TableFacts(env, t, m);
    LookupVals(env, t, m, k);
    if Has(env, m, k) {
      RepIsUnique(env, Vals(m), k, Rep(env, m, k));
      PutKeys(env, m, k, c);
    }
  }

  lemma PutKeys<K(!new), V>(env: Env<K>, m: map<K, Cell<V>>, k: K, c: Cell<V>)
    requires Has(env, m, k)
    ensures |Put(env, m, k, c)| == |m|
  {
    assert Put(env, m, k, c).Keys == m.Keys;
    assert |Put(env, m, k, c).Keys| == |m.Keys|;
  }

  lemma DeleteVals<K(!new), V>(env: Env<K>, t: seq<Bucket<K, Cell<V>>>, m: map<K, Cell<V>>, k: K)
    requires Table(env, t, m)
    ensures Has(env, m, k) ==> Vals(m - {Rep(env, m, k)}) == Delete(env, Vals(m), k)
    ensures !Has(env, m, k) ==> Vals(m) == Delete(env, Vals(m), k)
  {
    TableFacts(env, t, m);
    assert Vals(m).Keys == m.Keys;
    if Has(env, m, k) {
      RepIsUnique(env, Vals(m), k, Rep(env, m, k));
    }
  }

  lemma LookupVals<K(!new), V>(env: Env<K>, t: seq<Bucket<K, Cell<V>>>, m: map<K, Cell<V>>, k: K)
    requires Table(env, t, m)
    ensures Has(env, Vals(m), k) == Has(env, m, k)
    ensures Lookup(env, Vals(m), k) == if Has(env, m, k) then Some(m[Rep(env, m, k)].val) else None
  {
    TableFacts(env, t, m);
    assert Vals(m).Keys == m.Keys;
    if Has(env, m, k) {
      RepIsUnique(env, Vals(m), k, Rep(env, m, k));
    }
    if Has(env, Vals(m), k) {
      assert Rep(env, Vals(m), k) in m;
    }
  }

  lemma RemoveStart<K(!new), V>(
    env: Env<K>, t: seq<Bucket<K, Cell<V>>>, m: map<K, Cell<V>>, owner: map<nat, K>, slot: nat) returns (z: nat)
    requires Table(env, t, m) && Owns(m, owner) && slot < |t| && t[slot].Full?
    ensures t[slot].key in m && |m - {t[slot].key}| == |m| - 1
    ensures m[t[slot].key] == t[slot].load
    ensures t[slot].load.keyBlock in owner && t[slot].load.valBlock in owner
    ensures t[slot].load.keyBlock != t[slot].load.valBlock
    ensures Owns(m - {t[slot].key}, owner - {t[slot].load.keyBlock, t[slot].load.valBlock})
    ensures Hole(env, t[slot := Empty], slot, m - {t[slot].key})
    ensures z < |t| && t[z].Empty? && z != slot
    ensures forall high :: PslsAtMost(t, high) ==> PslsAtMost(t[slot := Empty], high)
  {
    hide Hole, Table, Owns;
    HoleStart(env, t, m, slot);
    z := TableRoom(env, t, m);
    StoredLoad(env, t, m, slot);
    OwnsBoth(m, owner, t[slot].key);
    OwnsLess(m, owner, t[slot].key);
    LessByOne(m, t[slot].key);
  }

  /** What `hashmap_set` leaves in the table: a present key keeps its stored copy. */
  ghost function Put<K(!new), V>(env: Env<K>, m: map<K, Cell<V>>, k: K, c: Cell<V>): map<K, Cell<V>> {
    if Has(env, m, k) then
      var r := Rep(env, m, k);
      m[r := Cell(c.val, m[r].keyBlock, c.valBlock)]
    else
      m[k := c]
  }

  /** Ownership after `hashmap_set`: the blocks `insert_raw` frees are exactly the spare ones. */
  lemma OwnsPut<K(!new), V>(env: Env<K>, m: map<K, Cell<V>>, owner: map<nat, K>, k: K, c: Cell<V>)
    returns (after: map<nat, K>)
    requires Owns(m, owner) && c.keyBlock !in owner && c.valBlock !in owner && c.keyBlock != c.valBlock
    requires !Has(env, m, k) ==> k !in m
    ensures Owns(Put(env, m, k, c), after)
    ensures after.Keys == owner.Keys + {c.keyBlock} + {c.valBlock} - Spare(env, m, k, c)
  {
    if Has(env, m, k) {
      var r := Rep(env, m, k);
      OwnsSwapped(m, owner, r, Cell(c.val, m[r].keyBlock, c.valBlock));
      after := owner[c.valBlock := r] - {m[r].valBlock};
    } else {
      OwnsMore(m, owner, k, c);
      after := owner[c.keyBlock := k][c.valBlock := k];
    }
  }

  lemma PutFresh<K(!new), V>(env: Env<K>, m: map<K, Cell<V>>, k: K, c: Cell<V>)
    requires !Has(env, m, k)
    ensures Put(env, m, k, c) == m[k := c] && Spare(env, m, k, c) == {}
  {
  }

  /** The blocks `insert_raw` frees: the spare key copy and the displaced value of a present key. */
  ghost function Spare<K(!new), V>(env: Env<K>, m: map<K, Cell<V>>, k: K, c: Cell<V>): set<nat> {
    if Has(env, m, k) then {c.keyBlock, m[Rep(env, m, k)].valBlock} else {}
  }

  class HashMap<K(==, !new), V> {
    const env: Env<K>
    const heap: Heap
    var buckets: array<Bucket<K, Cell<V>>>
    var cap: nat
    var len: nat
    var maxPsl: u8
    ghost var entries: map<K, Cell<V>>
    ghost var owner: map<nat, K>  // of each live key or value block
    ghost var doublings: nat  // since creation

    /** The array and the counters agree with `entries`; the part `insert_raw` keeps. */
    ghost predicate TableValid()
      reads `buckets, `cap, `len, `maxPsl, `entries, `doublings, buckets
    {
      && cap == buckets.Length == Pow2(doublings + 4)
      && Table(env, buckets[..], entries)
      && len == |entries|
      && PslsAtMost(buckets[..], maxPsl)
    }

    ghost predicate Valid()
      reads this, buckets, heap
    {
      && TableValid()
      && heap.Valid() && owner.Keys == heap.live && Owns(entries, owner)
      && cap <= MAX_CAP && 4 * len <= 3 * cap
      && maxPsl <= HASH_PSL_THRESHOLD + doublings
    }

    /** The abstract value: a finite map modulo `env.eq`. */
    ghost function Contents(): map<K, V>
      reads this
    {
      Vals(entries)
    }

    constructor (env: Env<K>, mem: Allocator)
      requires env.Lawful()
      ensures Valid() && Contents() == map[] && doublings == 0 && maxPsl == 0 && this.env == env
      ensures fresh(buckets) && fresh(heap) && heap.live == {} && heap.mem == mem
    {
      this.env := env;
      heap := new Heap(mem);
      buckets := new Bucket<K, Cell<V>>[INITIAL_CAP](_ => Empty);
      cap, len, maxPsl := INITIAL_CAP, 0, 0;
      entries, owner, doublings := map[], map[], 0;
      new;
      assert Pow2(4) == 16;
      EmptyTable(env, buckets[..]);
    }

    /** Install a new value copy, and free the spare key copy and the old value copy. */
    method UpdateInPlace(slot: nat, load: Cell<V>)
      requires TableValid() && heap.Valid() && slot < cap && buckets[slot].Full?
      requires load.keyBlock in heap.live && buckets[slot].load.valBlock in heap.live - {load.keyBlock}
      modifies this`entries, buckets, heap
      ensures TableValid() && heap.Valid()
      ensures entries == old(var b := buckets[slot];
        entries[b.key := Cell(load.val, b.load.keyBlock, load.valBlock)])
      ensures heap.live == old(heap.live - {load.keyBlock, buckets[slot].load.valBlock})
    {
      hide Table;
      var cur := buckets[slot];
      var cell := Cell(load.val, cur.load.keyBlock, load.valBlock);
      ghost var t := buckets[..];
      Overwrite(env, t, entries, slot, cell);
      buckets[slot] := cur.(load := cell);
      entries := entries[cur.key := cell];
      assert buckets[..] == t[slot := cur.(load := cell)];
      heap.Free(load.keyBlock);
      heap.Free(cur.load.valBlock);
    }

    lemma Open()
      requires Valid()
      ensures TableValid() && heap.Valid() && owner.Keys == heap.live && Owns(entries, owner)
      ensures cap <= MAX_CAP && 4 * len <= 3 * cap && maxPsl <= HASH_PSL_THRESHOLD + doublings
      ensures maxPsl <= 182 && Contents() == Vals(entries)
    {
      DoublingsBound(doublings);
    }

    lemma Close()
      requires TableValid() && heap.Valid() && owner.Keys == heap.live && Owns(entries, owner)
      requires cap <= MAX_CAP && 4 * len <= 3 * cap && maxPsl <= HASH_PSL_THRESHOLD + doublings
      ensures Valid() && Contents() == Vals(entries)
    {
    }

    lemma OpenTable()
      requires TableValid()
      ensures cap == buckets.Length == Pow2(doublings + 4) && len == |entries|
      ensures Table(env, buckets[..], entries) && PslsAtMost(buckets[..], maxPsl)
    {
    }

    lemma CloseTable()
      requires cap == buckets.Length == Pow2(doublings + 4) && len == |entries|
      requires Table(env, buckets[..], entries) && PslsAtMost(buckets[..], maxPsl)
      ensures TableValid()
    {
    }

    lemma RefusesIf()
      requires !heap.mem.generous || 2 * cap > MAX_CAP
      ensures Refuses()
    {
    }

    method InsertRaw(incoming: Bucket<K, Cell<V>>,
      ghost ref: seq<Bucket<K, Cell<V>>>, ghost extra: set<K>, ghost B: nat)
      requires TableValid() && heap.Valid() && incoming.Full? && len + 1 < cap
      requires Yardstick(env, cap, entries.Keys + {incoming.key}, ref, extra, B) && B + |extra| <= 254
      requires incoming.load.keyBlock in heap.live
      requires ValuesLive(entries, heap.live, incoming.load.keyBlock)
      modifies this`len, this`maxPsl, this`entries, buckets, heap
      ensures TableValid() && heap.Valid() && len == |entries|
      ensures entries == old(Put(env, entries, incoming.key, incoming.load))
      ensures heap.live == old(heap.live - Spare(env, entries, incoming.key, incoming.load))
      ensures old(maxPsl) <= maxPsl && (maxPsl == old(maxPsl) || maxPsl <= B + |extra|)
    {
      hide Table, Yardstick, Pow2, PslsAtMost, Has;
      var present, slot, high :=
        Displace(env, buckets, cap, doublings + 4, maxPsl, incoming, entries, ref, extra, B);
      maxPsl := high;
      if present {
        UpdateInPlace(slot, incoming.load);
      } else {
        len := len + 1;
        entries := entries[incoming.key := incoming.load];
      }
    }

    /** Reinsert every bucket of the old array into the fresh, empty, doubled table. */
    method Reinsert(oldBuckets: array<Bucket<K, Cell<V>>>, ghost m: map<K, Cell<V>>, ghost B: nat)
      requires TableValid() && entries == map[] && maxPsl == 0 && heap.Valid() && oldBuckets != buckets
      requires cap == 2 * oldBuckets.Length && B <= 254 && 4 * |m| <= 3 * oldBuckets.Length
      requires Table(env, oldBuckets[..], m) && PslsAtMost(oldBuckets[..], B)
      requires Owns(m, owner) && owner.Keys == heap.live
      modifies this`len, this`maxPsl, this`entries, buckets, heap
      ensures TableValid() && heap.Valid() && entries == m && heap.live == old(heap.live) && maxPsl <= B
    {
      hide *;
      OpenTable();
      ghost var t := oldBuckets[..];
      RehashStart(t, m);
      for i := 0 to oldBuckets.Length
        invariant TableValid() && heap.Valid() && heap.live == old(heap.live) && maxPsl <= B && len == |entries|
        invariant oldBuckets[..] == t && Rehashed(t, m, i, entries)
      {
        var b := oldBuckets[i];
        assert b == t[i];
        if b.Full? {
          RehashReady(env, t, m, i, entries, B, owner, heap.live);
          InsertRaw(b, t, {}, B);
        } else {
          RehashSkip(t, m, i, entries);
        }
      }
      RehashDone(env, t, m, entries);
    }

    /** When an operation may fail: the allocator refuses, or no allocator could provide a table twice the size. */
    ghost predicate Refuses()
      reads `cap
    {
      !heap.mem.generous || 2 * cap > MAX_CAP
    }

    method ResizeAndRehash(newCap: nat) returns (status: Status)
      requires Valid() && newCap == 2 * cap
      modifies this, buckets, heap, heap.mem
      ensures Valid() && heap.live == old(heap.live) && entries == old(entries) && owner == old(owner)
      ensures status == OutOfMemory ==> buckets == old(buckets) && buckets[..] == old(buckets[..])
      ensures status == OutOfMemory ==> cap == old(cap) && doublings == old(doublings) && Refuses()
      ensures maxPsl <= old(maxPsl)
      ensures status != OutOfMemory ==> status == Ok && fresh(buckets) && cap == newCap
      ensures status != OutOfMemory ==> doublings == old(doublings) + 1
      ensures heap.mem.refusals == old(heap.mem.refusals) + if status == OutOfMemory then 1 else 0
      ensures heap.mem.requests == old(heap.mem.requests) + 1
    {
      hide *;
      Open();
      var ok := heap.mem.Request(newCap);
      if !ok {
        RefusesIf();
        Close();
        return OutOfMemory;
      }
      OpenTable();
      PowerDoubles(doublings + 4);
      var oldBuckets := buckets;
      ghost var m, B := entries, maxPsl;
      TableFacts(env, buckets[..], m);
      buckets := new Bucket<K, Cell<V>>[newCap](_ => Empty);
      cap, len, maxPsl := newCap, 0, 0;
      entries, doublings := map[], doublings + 1;
      EmptyTable(env, buckets[..]);
      CloseTable();
      Reinsert(oldBuckets, m, B);
      OpenTable();
      Close();
      status := Ok;
    }

    /** One block for the key copy and one for the value copy, or none at all. */
    method AllocCopies() returns (blocks: Option<(nat, nat)>)
      requires heap.Valid()
      modifies heap, heap.mem
      ensures heap.Valid()
      ensures blocks.None? ==> heap.live == old(heap.live) && !heap.mem.generous
      ensures blocks.Some? ==> var (kb, vb) := blocks.value;
        kb != vb && kb !in old(heap.live) && vb !in old(heap.live) && heap.live == old(heap.live) + {kb} + {vb}
      ensures heap.mem.refusals == old(heap.mem.refusals) + if blocks.None? then 1 else 0
      ensures blocks.Some? ==> heap.mem.requests == old(heap.mem.requests) + 2
    {
      var keyCopy := heap.Alloc();
      if keyCopy.None? {
        return None;
      }
      var valCopy := heap.Alloc();
      if valCopy.None? {
        heap.Free(keyCopy.value);
        assert heap.live == old(heap.live);
        return None;
      }
      blocks := Some((keyCopy.value, valCopy.value));
    }

    /** Insert a pair whose two copies have just been allocated. */
    method InsertOwned(key: K, load: Cell<V>)
      requires TableValid() && heap.Valid() && Owns(entries, owner)
      requires (len + 1) * 4 <= cap * 3 && cap <= MAX_CAP && maxPsl < HASH_PSL_THRESHOLD + doublings
      requires maxPsl <= 253 && load.keyBlock != load.valBlock && load.keyBlock !in owner && load.valBlock !in owner
      requires heap.live == owner.Keys + {load.keyBlock} + {load.valBlock}
      modifies `len, `maxPsl, `entries, `owner, buckets, heap
      ensures Valid() && maxPsl <= old(maxPsl) + 1 && Contents() == Vals(entries)
      ensures Vals(entries) == Insert(env, Vals(old(entries)), key, load.val)
    {
      hide *;
      OpenTable();
      ghost var m, t := entries, buckets[..];
      OwnYardstick(env, t, m, key, maxPsl);
      PutIsInsert(env, t, m, key, load);
      OwnValuesLive(m, owner, heap.live, load.keyBlock);
      owner := OwnsPut(env, m, owner, key, load);
      InsertRaw(Full(key, load, 1), t, {key}, maxPsl);
      Close();
    }

    /** Copy the pair, the only allocation point besides the table, and insert it. */
    method InsertCopy(key: K, value: V) returns (status: Status)
      requires Valid() && (len + 1) * 4 <= cap * 3 && maxPsl < HASH_PSL_THRESHOLD + doublings
      modifies `len, `maxPsl, `entries, `owner, buckets, heap, heap.mem
      ensures Valid()
      ensures status == Ok || (status == OutOfMemory && !heap.mem.generous)
      ensures maxPsl <= old(maxPsl) + 1
      ensures status == Ok ==> Contents() == Insert(env, old(Contents()), key, value)
      ensures status == OutOfMemory ==>
        entries == old(entries) && Contents() == old(Contents()) && heap.live == old(heap.live)
      ensures heap.mem.refusals == old(heap.mem.refusals) + if status == OutOfMemory then 1 else 0
      ensures status == Ok ==> heap.mem.requests == old(heap.mem.requests) + 2
    {
      hide *;
      Open();
      var copies := AllocCopies();
      if copies.None? {
        Close();
        return OutOfMemory;
      }
      InsertOwned(key, Cell(value, copies.value.0, copies.value.1));
      status := Ok;
    }

    method Set(key: K, value: V) returns (status: Status)
      requires Valid()
      modifies this, buckets, heap, heap.mem
      ensures Valid() && (buckets == old(buckets) || fresh(buckets))
      ensures status == Ok || (status == OutOfMemory && Refuses())
      ensures status == Ok ==> Contents() == Insert(env, old(Contents()), key, value)
      ensures status == OutOfMemory ==>
        entries == old(entries) && Contents() == old(Contents()) && heap.live == old(heap.live)
      ensures old(doublings) <= doublings <= old(doublings) + 1 && cap >= old(cap)
      ensures status == Ok ==>
        (doublings == old(doublings) + 1 <==> old((len + 1) * 4 > cap * 3 || maxPsl >= HASH_PSL_THRESHOLD))
      ensures maxPsl <= old(maxPsl) + 1
      ensures heap.mem.refusals == old(heap.mem.refusals) + if status == OutOfMemory then 1 else 0
      ensures status == Ok ==> cap == old(if (len + 1) * 4 > cap * 3 || maxPsl >= 128 then 2 * cap else cap)
      ensures status == Ok ==>
        heap.mem.requests == old(heap.mem.requests + if (len + 1) * 4 > cap * 3 || maxPsl >= 128 then 3 else 2)
    {
      hide Table, Owns, PslsAtMost, Insert, Vals, Pow2;
      if (len + 1) * 4 > cap * 3 || maxPsl >= HASH_PSL_THRESHOLD {
        var rs := ResizeAndRehash(cap * 2);
        if rs != Ok {
          return rs;
        }
      }
      status := InsertCopy(key, value);
    }

    method GetPtr(key: K) returns (value: Option<V>)
      requires Valid()
      ensures value == Lookup(env, Contents(), key)
    {
      hide Table, Owns, PslsAtMost, Pow2, Has;
      WithinThreshold();
      LookupVals(env, buckets[..], entries, key);
      var found, slot := Probe(env, buckets, cap, doublings + 4, key, entries);
      value := if found then Some(buckets[slot].load.val) else None;
    }

    /** The recorded longest PSL, and with it every 8-bit counter, stays far below 255. */
    lemma WithinThreshold()
      requires Valid()
      ensures maxPsl <= HASH_PSL_THRESHOLD + doublings <= 182 && PslsAtMost(buckets[..], 254)
    {
      DoublingsBound(doublings);
    }

    method FreeEntry(load: Cell<V>)
      requires heap.Valid() && owner.Keys == heap.live
      requires load.keyBlock in owner && load.valBlock in owner && load.keyBlock != load.valBlock
      modifies this`owner, heap
      ensures heap.Valid() && owner.Keys == heap.live && owner == old(owner) - {load.keyBlock, load.valBlock}
    {
      heap.Free(load.keyBlock);
      heap.Free(load.valBlock);
      owner := owner - {load.keyBlock, load.valBlock};
    }

    /** Free both blocks of a bucket's entry and shift the buckets behind it back. */
    method RemoveAt(slot: nat)
      requires Valid() && slot < cap && buckets[slot].Full?
      modifies this, buckets, heap
      ensures Valid() && buckets == old(buckets) && doublings == old(doublings) && maxPsl == old(maxPsl)
      ensures cap == old(cap) && entries == old(entries) - {old(buckets[slot].key)}
    {
      hide *;
      Open();
      OpenTable();
      var cur := buckets[slot];
      ghost var m, t, high := entries, buckets[..], maxPsl;
      ghost var z := RemoveStart(env, t, m, owner, slot);
      FreeEntry(cur.load);
      buckets[slot] := Empty;
      len := len - 1;
      entries := entries - {cur.key};
      assert buckets[..] == t[slot := Empty];
      ShiftBack(env, buckets, cap, doublings + 4, slot, entries, z);
      CloseTable();
      Close();
    }

    method Remove(key: K) returns (status: Status)
      requires Valid()
      modifies this, buckets, heap
      ensures Valid() && buckets == old(buckets) && doublings == old(doublings) && maxPsl == old(maxPsl)
      ensures status == if old(Has(env, Contents(), key)) then Ok else NotFound
      ensures Contents() == Delete(env, old(Contents()), key)
      ensures status == NotFound ==> buckets[..] == old(buckets[..])
    {
      hide Table, Owns, PslsAtMost, Pow2, Has, Delete, Vals, Valid;
      Open();
      OpenTable();
      WithinThreshold();
      ghost var m, t := entries, buckets[..];
      LookupVals(env, t, m, key);
      DeleteVals(env, t, m, key);
      var found, slot := Probe(env, buckets, cap, doublings + 4, key, entries);
      if !found {
        return NotFound;
      }
      RemoveAt(slot);
      status := Ok;
    }

    /** The freeing loop of `hashmap_clear`. */
    method FreeAll()
      requires Valid()
      modifies this`owner, heap
      ensures heap.Valid() && heap.live == {} && owner == map[] && buckets[..] == old(buckets[..])
    {
      hide *;
      Open();
      OpenTable();
      ghost var t, m := buckets[..], entries;
      ghost var rest := m;
      TableFacts(env, t, m);
      UnfreedStart(env, t, m);
      for i := 0 to cap
        invariant buckets[..] == t && heap.Valid() && owner.Keys == heap.live && Owns(rest, owner)
        invariant Unfreed(t, m, i, rest)
      {
        var b := buckets[i];
        assert b == t[i];
        if b.Full? {
          UnfreedStep(env, t, m, i, rest, owner);
          FreeEntry(b.load);
          rest := rest - {b.key};
        } else {
          UnfreedSkip(t, m, i, rest);
        }
      }
      UnfreedDone(t, m, rest, owner);
    }

    method Clear()
      requires Valid()
      modifies this, buckets, heap
      ensures Valid() && Contents() == map[] && heap.live == {} && len == 0 && maxPsl == 0
      ensures buckets == old(buckets) && doublings == old(doublings)
    {
      hide Table, Owns, PslsAtMost, Pow2, Valid;
      Open();
      OpenTable();
      FreeAll();
      TableFacts(env, buckets[..], entries);
      for i := 0 to cap
        invariant forall j :: 0 <= j < i ==> buckets[j].Empty?
        modifies buckets
      {
        buckets[i] := Empty;
      }
      entries, len, maxPsl := map[], 0, 0;
      EmptyTable(env, buckets[..]);
      OwnsNothing<K, V>();
      CloseTable();
      Close();
    }

    lemma Sizes()
      requires Valid()
      ensures cap == Pow2(doublings + 4) == buckets.Length && len == |Contents()| && 2 * cap <= 2 * MAX_CAP
    {
      assert Contents().Keys == entries.Keys && |Contents().Keys| == |Contents()| && |entries.Keys| == |entries|;
    }

    lemma Probes()
      requires Valid()
      ensures Table(env, buckets[..], entries) && PslsAtMost(buckets[..], maxPsl) && len == |entries|
    {
    }

    /** What holds between any two operations. */
    lemma Summary()
      requires Valid()
      ensures cap == Pow2(doublings + 4) && maxPsl <= HASH_PSL_THRESHOLD + doublings <= 182
      ensures len == |Contents()| && |heap.live| == 2 * len
      ensures forall i :: 0 <= i < cap ==> Psl(buckets[i]) <= maxPsl
    {
      DoublingsBound(doublings);
      TwoBlocksEach(entries, owner);
      assert |owner.Keys| == |owner|;
      assert Contents().Keys == entries.Keys && |Contents().Keys| == |Contents()| && |entries.Keys| == |entries|;
      forall i | 0 <= i < cap
        ensures Psl(buckets[i]) <= maxPsl
      {
        assert buckets[..][i] == buckets[i];
      }
    }

    /** Adding a fresh key and removing it again leaves the PSLs as they were. */
    method SetThenRemove(key: K, value: V) returns (status: Status)
      requires Valid() && !Has(env, Contents(), key)
      modifies this, buckets, heap, heap.mem
      ensures Valid() && Contents() == old(Contents())
      ensures doublings == old(doublings) ==>
        buckets.Length == old(buckets.Length) && forall i :: 0 <= i < cap ==> Psl(buckets[i]) == old(Psl(buckets[i]))
    {
      hide Table, Owns, PslsAtMost, Pow2, Insert, Delete, Vals, Has, Psl;
      ghost var t, m := buckets[..], entries;
      LookupVals(env, t, m, key);
      TableFacts(env, t, m);
      status := Set(key, value);
      if status == Ok {
        InsertThenDelete(env, old(Contents()), key, value);
        status := Remove(key);
      }
      SameKeys(m, entries);
      if doublings == old(doublings) {
        TableFacts(env, buckets[..], entries);
        forall i | 0 <= i < cap
          ensures Psl(buckets[i]) == Psl(t[i])
        {
          NoTraceOfHistory(env, buckets[..], entries, t, m, i);
        }
      }
    }
  }

  lemma SameKeys<K(!new), V>(m: map<K, Cell<V>>, n: map<K, Cell<V>>)
    requires Vals(m) == Vals(n)
    ensures m.Keys == n.Keys
  {
    assert Vals(m).Keys == m.Keys && Vals(n).Keys == n.Keys;
  }

  /** Everything `insert_raw` asks for when bucket i is reinserted. */
  lemma RehashReady<K(!new), V>(
    env: Env<K>, t: seq<Bucket<K, Cell<V>>>, m: map<K, Cell<V>>, i: nat, done: map<K, Cell<V>>, B: nat,
    owner: map<nat, K>, live: set<nat>)
    requires Table(env, t, m) && PslsAtMost(t, B) && Rehashed(t, m, i, done) && i < |t| && t[i].Full?
    requires Owns(m, owner) && owner.Keys == live
    ensures |done| <= |m| && Yardstick(env, 2 * |t|, done.Keys + {t[i].key}, t, {}, B)
    ensures t[i].load.keyBlock in live && ValuesLive(done, live, t[i].load.keyBlock)
    ensures Rehashed(t, m, i + 1, Put(env, done, t[i].key, t[i].load))
    ensures live - Spare(env, done, t[i].key, t[i].load) == live
  {
    RehashStep(env, t, m, i, done, B);
    PutFresh(env, done, t[i].key, t[i].load);
  }

  // ----- Clearing -----

  lemma UnfreedStep<K(!new), V>(
    env: Env<K>, t: seq<Bucket<K, Cell<V>>>, m: map<K, Cell<V>>, i: nat, rest: map<K, Cell<V>>, owner: map<nat, K>)
    requires Table(env, t, m) && Unfreed(t, m, i, rest) && i < |t| && t[i].Full? && Owns(rest, owner)
    ensures Unfreed(t, m, i + 1, rest - {t[i].key})
    ensures var c := t[i].load; c.keyBlock in owner && c.valBlock in owner && c.keyBlock != c.valBlock
    ensures Owns(rest - {t[i].key}, owner - {t[i].load.keyBlock, t[i].load.valBlock})
  {
    UnfreedLess(env, t, m, i, rest);
    OwnsLess(rest, owner, t[i].key);
  }

  lemma UnfreedDone<K(!new), V>(
    t: seq<Bucket<K, Cell<V>>>, m: map<K, Cell<V>>, rest: map<K, Cell<V>>, owner: map<nat, K>)
    requires Unfreed(t, m, |t|, rest) && Owns(rest, owner)
    ensures rest == map[] && owner.Keys == {} && Owns(rest, owner)
  {
  }
}
