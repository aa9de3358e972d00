// The loops over the bucket array that src/hashmap/hashmap.c and src/set/set.c write out
// twice, once for each container: probing, displacing, shifting back.
module RobinHoodLoops {
  import opened Bits
  import opened Memory
  import opened Finite
  import opened RobinHood
  import opened RobinHoodSteps

  // The methods below reason through the lemmas alone, so they hide every definition.

  lemma HomeMask<K(!new)>(env: Env<K>, key: K, cap: nat, k: nat)
    requires cap == Pow2(k)
    ensures And(env.Hash(key), cap - 1) == env.Home(key, cap) < cap
  {
    Mask(env.Hash(key), cap, k);
  }

  lemma NextMask(slot: nat, cap: nat, k: nat)
    requires cap == Pow2(k) && slot < cap
    ensures And(slot + 1, cap - 1) == Next(slot, cap) < cap
  {
    Mask(slot + 1, cap, k);
  }

  lemma NextIsCloser(slot: nat, z: nat, cap: nat)
    requires slot < cap && z < cap && z != slot
    ensures Next(slot, cap) < cap && Dist(Next(slot, cap), z, cap) < Dist(slot, z, cap)
  {
  }

  lemma StoreBound<K, P>(t: seq<Bucket<K, P>>, slot: nat, b: Bucket<K, P>, high: u8)
    requires slot < |t| && b.Full? && PslsAtMost(t, high)
    ensures PslsAtMost(t[slot := b], if b.psl > high then b.psl else high)
  {
  }

  lemma ProbeStep<K(!new), P>(env: Env<K>, t: seq<Bucket<K, P>>, m: map<K, P>, k: K, slot: nat, probe: nat)
    requires Table(env, t, m) && Searching(env, t, k, slot, probe) && PslsAtMost(t, 254)
    requires t[slot].Full? && t[slot].psl >= probe && !env.Eq(t[slot].key, k)
    ensures Searching(env, t, k, Next(slot, |t|), probe + 1) && probe + 1 <= |t| && probe + 1 < 256
  {
    SearchStep(env, t, m, k, slot, probe);
    assert Psl(t[slot]) <= 254;
  }

  lemma ProbeStop<K(!new), P>(env: Env<K>, t: seq<Bucket<K, P>>, m: map<K, P>, k: K, slot: nat, probe: nat)
    requires Table(env, t, m) && Searching(env, t, k, slot, probe)
    requires t[slot].Empty? || t[slot].psl < probe
    ensures !Has(env, m, k)
  {
    SearchStop(env, t, m, k, slot, probe);
  }

  lemma ProbeHit<K(!new), P>(env: Env<K>, t: seq<Bucket<K, P>>, m: map<K, P>, k: K, slot: nat)
    requires Table(env, t, m) && slot < |t| && t[slot].Full? && env.Eq(t[slot].key, k)
    ensures Has(env, m, k) && Rep(env, m, k) == t[slot].key && m[t[slot].key] == t[slot].load
  {
    SearchHit(env, t, m, k, slot);
  }

  lemma ProbeStart<K(!new), P>(env: Env<K>, t: seq<Bucket<K, P>>, m: map<K, P>, k: K)
    requires Table(env, t, m)
    ensures Searching(env, t, k, env.Home(k, |t|), 1)
  {
    SearchStart(env, t, m, k);
  }

  /** The probe of `get_ptr`, `contains` and `remove`, with its 8-bit counter. */
  method Probe<K(!new), P>(
    env: Env<K>, buckets: array<Bucket<K, P>>, cap: nat, ghost k: nat, key: K, ghost m: map<K, P>)
    returns (found: bool, slot: nat)
    requires cap == buckets.Length == Pow2(k)
    requires Table(env, buckets[..], m) && PslsAtMost(buckets[..], 254)
    ensures found == Has(env, m, key) && slot < cap
    ensures found ==> buckets[slot].Full? && buckets[slot].key == Rep(env, m, key)
    ensures found ==> m[Rep(env, m, key)] == buckets[slot].load
  {
    hide *;
    ghost var t := buckets[..];
    slot := And(env.Hash(key), cap - 1);
    HomeMask(env, key, cap, k);
    var probe: u8 := 1;
    ProbeStart(env, t, m, key);
    while true
      invariant slot < cap && probe >= 1 && Searching(env, t, key, slot, probe)
      decreases cap - probe
    {
      var cur := buckets[slot];
      assert cur == t[slot];
      if cur.Empty? || cur.psl < probe {
        ProbeStop(env, t, m, key, slot, probe);
        return false, slot;
      }
      if env.Eq(cur.key, key) {
        ProbeHit(env, t, m, key, slot);
        return true, slot;
      }
      ProbeStep(env, t, m, key, slot, probe);
      NextMask(slot, cap, k);
      slot := And(slot + 1, cap - 1);
      probe := (probe + 1) % 256;
    }
  }

  /**
   * The loop of `insert_raw`: probe for the incoming key and displace richer buckets on the
   * way.  The assertion on the 8-bit PSL is the one of the source.
   */
  method Displace<K(!new), P>(
    env: Env<K>, buckets: array<Bucket<K, P>>, cap: nat, ghost k: nat, high: u8, incoming: Bucket<K, P>,
    ghost m: map<K, P>, ghost ref: seq<Bucket<K, P>>, ghost extra: set<K>, ghost B: nat)
    returns (present: bool, slot: nat, maxPsl: u8)
    requires cap == buckets.Length == Pow2(k)
    requires Table(env, buckets[..], m) && incoming.Full? && |m| + 1 < cap && PslsAtMost(buckets[..], high)
    requires Yardstick(env, cap, m.Keys + {incoming.key}, ref, extra, B) && B + |extra| <= 254
    modifies buckets
    ensures present == Has(env, m, incoming.key)
    ensures present ==> buckets[..] == old(buckets[..]) && slot < cap && buckets[slot].Full?
    ensures present ==> buckets[slot].key == Rep(env, m, incoming.key)
    ensures present ==> buckets[slot].load == m[Rep(env, m, incoming.key)]
    ensures !present ==> incoming.key !in m && Table(env, buckets[..], m[incoming.key := incoming.load])
    ensures PslsAtMost(buckets[..], maxPsl) && high <= maxPsl && (maxPsl == high || maxPsl <= B + |extra|)
  {
    hide *;
    slot := And(env.Hash(incoming.key), cap - 1);
    HomeMask(env, incoming.key, cap, k);
    var inc := incoming.(psl := 1);
    maxPsl := high;
    ghost var t0 := buckets[..];
    ghost var t := t0;
    ghost var z := CascadeStart(env, t0, m, incoming);
    while true
      invariant slot < cap && inc.Full? && buckets[..] == t
      invariant Cascade(env, t0, m, incoming, t, slot, inc)
      invariant t[z].Empty? && PslsAtMost(t, maxPsl)
      invariant high <= maxPsl && (maxPsl == high || maxPsl <= B + |extra|)
      decreases Dist(slot, z, cap)
    {
      var cur := buckets[slot];
      assert cur == t[slot];
      if cur.Empty? {
        CascadePlace(env, t0, m, incoming, t, slot, inc, ref, extra, B);
        StoreBound(t, slot, inc, maxPsl);
        buckets[slot] := inc;
        if inc.psl > maxPsl {
          maxPsl := inc.psl;
        }
        assert buckets[..] == t[slot := inc];
        return false, slot, maxPsl;
      }
      if env.Eq(cur.key, inc.key) {
        CascadeHit(env, t0, m, incoming, t, slot, inc);
        return true, slot, maxPsl;
      }
      if cur.psl < inc.psl {
        CascadeSwap(env, t0, m, incoming, t, slot, inc, ref, extra, B);
        StoreBound(t, slot, inc, maxPsl);
        buckets[slot] := inc;
        if inc.psl > maxPsl {
          maxPsl := inc.psl;
        }
        t := t[slot := inc];
        inc := cur;
      } else {
        CascadeSkip(env, t0, m, incoming, t, slot, inc, ref, extra, B);
      }
      inc := inc.(psl := (inc.psl + 1) % 256);
      assert inc.psl != 0;
      NextMask(slot, cap, k);
      NextIsCloser(slot, z, cap);
      slot := And(slot + 1, cap - 1);
    }
  }

  /** The shift loop of `hashmap_remove`: the bucket at `hole` has just been emptied. */
  method ShiftBack<K(!new), P>(
    env: Env<K>, buckets: array<Bucket<K, P>>, cap: nat, ghost k: nat, hole: nat, ghost m: map<K, P>, ghost z: nat)
    requires cap == buckets.Length == Pow2(k)
    requires Hole(env, buckets[..], hole, m) && hole < cap
    requires z < cap && z != hole && buckets[z].Empty?
    modifies buckets
    ensures Table(env, buckets[..], m)
    ensures forall high :: PslsAtMost(old(buckets[..]), high) ==> PslsAtMost(buckets[..], high)
  {
    hide *;
    ghost var t := buckets[..];
    ghost var t0 := t;
    var prev: nat := hole;
    NextMask(prev, cap, k);
    var slot: nat := And(hole + 1, cap - 1);
    while buckets[slot].Full? && buckets[slot].psl > 1
      invariant prev < cap && slot == Next(prev, cap) < cap && z != prev
      invariant buckets[..] == t && Hole(env, t, prev, m) && t[z].Empty?
      invariant forall high :: PslsAtMost(t0, high) ==> PslsAtMost(t, high)
      decreases Dist(prev, z, cap)
    {
      ShiftableNow(t, prev);
      HoleShift(env, t, prev, m);
      ShiftBound(t, prev);
      NextIsCloser(prev, z, cap);
      buckets[prev] := buckets[slot];
      buckets[prev] := buckets[prev].(psl := buckets[prev].psl - 1);
      buckets[slot] := Empty;
      t := Shift(t, prev);
      prev := slot;
      NextMask(slot, cap, k);
      slot := And(slot + 1, cap - 1);
    }
    ShiftableNow(t, prev);
    HoleDone(env, t, prev, m);
  }

  lemma ShiftableNow<K, P>(t: seq<Bucket<K, P>>, hole: nat)
    requires hole < |t|
    ensures var next := Next(hole, |t|);
      && next < |t|
      && Shiftable(t, hole) == (t[next].Full? && t[next].psl > 1)
      && (Shiftable(t, hole) ==> Shift(t, hole) == t[hole := t[next].(psl := t[next].psl - 1)][next := Empty])
  {
  }

  lemma ShiftBound<K, P>(t: seq<Bucket<K, P>>, hole: nat)
    requires Shiftable(t, hole)
    ensures forall high :: PslsAtMost(t, high) ==> PslsAtMost(Shift(t, hole), high)
  {
    forall high | PslsAtMost(t, high)
      ensures PslsAtMost(Shift(t, hole), high)
    {
      assert Psl(t[Next(hole, |t|)]) <= high;
    }
  }

  // ----- Capacities -----

  lemma StoredLoad<K(!new), P>(env: Env<K>, t: seq<Bucket<K, P>>, m: map<K, P>, i: nat)
    requires Table(env, t, m) && i < |t| && t[i].Full?
    ensures t[i].key in m && m[t[i].key] == t[i].load
  {
  }

  lemma TableRoom<K(!new), P>(env: Env<K>, t: seq<Bucket<K, P>>, m: map<K, P>) returns (z: nat)
    requires Table(env, t, m)
    ensures z < |t| && t[z].Empty?
  {
    z := Room(env, t, m);
  }

  lemma LessByOne<K, P>(m: map<K, P>, k: K)
    requires k in m
    ensures |m - {k}| == |m| - 1
  {
    assert m.Keys == (m - {k}).Keys + {k};
  }

  lemma PowerDoubles(d: nat)
    ensures Pow2(d + 1) == 2 * Pow2(d)
  {
  }

  lemma SmallPowers()
    ensures Pow2(4) == 16 && Pow2(11) == 2048
  {
  }

  lemma DoublingsBound(d: nat)
    requires Pow2(d + 4) <= MAX_CAP
    ensures d <= 54
  {
    if d > 54 {
      Pow2Grows(59, d + 4);
      Pow2Splits(4, 55);
      Pow2Splits(11, 44);
      Pow2Splits(11, 33);
      Pow2Splits(11, 22);
      Pow2Splits(11, 11);
      SmallPowers();
    }
  }

  // ----- Tables as wholes, and rehashing -----

  lemma TableFacts<K(!new), P>(env: Env<K>, t: seq<Bucket<K, P>>, m: map<K, P>)
    requires Table(env, t, m)
    ensures env.Lawful() && Apart(env, m.Keys) && |t| >= 2
    ensures forall k :: k in m ==> Has(env, m, k)
  {
    KeysHave(env, m);
    forall a, b | a in m && b in m && a != b
      ensures !env.Eq(a, b)
    {
      var i: nat :| At(t, i, a);
      var j: nat :| At(t, j, b);
    }
  }

  lemma EmptyTable<K(!new), P>(env: Env<K>, t: seq<Bucket<K, P>>)
    requires env.Lawful() && |t| >= 2 && forall i :: 0 <= i < |t| ==> t[i].Empty?
    ensures Table(env, t, map[]) && PslsAtMost(t, 0)
  {
    forall i | 0 <= i < |t|
      ensures Edge(t, i)
    {
    }
  }

  /** A table is its own yardstick for one more key. */
  lemma OwnYardstick<K(!new), P>(env: Env<K>, t: seq<Bucket<K, P>>, m: map<K, P>, k: K, B: nat)
    requires Table(env, t, m) && PslsAtMost(t, B)
    ensures Yardstick(env, |t|, m.Keys + {k}, t, {k}, B)
  {
    KeysHave(env, m);
    forall x | x in m
      ensures Found(env, t, x)
    {
      HasFound(env, t, m, x);
    }
  }

  /** After i old buckets the new table holds exactly their pairs. */
  ghost predicate Rehashed<K(!new), P>(t: seq<Bucket<K, P>>, m: map<K, P>, i: nat, done: map<K, P>) {
    && i <= |t|
    && (forall k :: k in done ==> k in m && done[k] == m[k] && exists j: nat :: j < i && At(t, j, k))
    && (forall j :: 0 <= j < i && t[j].Full? ==> t[j].key in done)
  }

  lemma RehashStart<K(!new), P>(t: seq<Bucket<K, P>>, m: map<K, P>)
    ensures Rehashed(t, m, 0, map[])
  {
  }

  lemma RehashSkip<K(!new), P>(t: seq<Bucket<K, P>>, m: map<K, P>, i: nat, done: map<K, P>)
    requires Rehashed(t, m, i, done) && i < |t| && t[i].Empty?
    ensures Rehashed(t, m, i + 1, done)
  {
  }

  lemma RehashStep<K(!new), P>(env: Env<K>, t: seq<Bucket<K, P>>, m: map<K, P>, i: nat, done: map<K, P>, B: nat)
    requires Table(env, t, m) && PslsAtMost(t, B) && Rehashed(t, m, i, done) && i < |t| && t[i].Full?
    ensures t[i].key in m && m[t[i].key] == t[i].load
    ensures !Has(env, done, t[i].key) && |done| <= |m|
    ensures forall k :: k in done ==> k in m && done[k] == m[k] && k != t[i].key
    ensures Rehashed(t, m, i + 1, done[t[i].key := t[i].load])
    ensures Yardstick(env, 2 * |t|, done.Keys + {t[i].key}, t, {}, B)
  {
    assert env.Laws(t[i].key, t[i].key, t[i].key);
    assert done.Keys <= m.Keys;
    SubsetSize(done.Keys, m.Keys);
    KeysHave(env, m);
    forall k | k in m
      ensures Found(env, t, k)
    {
      HasFound(env, t, m, k);
    }
    RehashGrows(t, m, i, done);
  }

  lemma RehashGrows<K(!new), P>(t: seq<Bucket<K, P>>, m: map<K, P>, i: nat, done: map<K, P>)
    requires Rehashed(t, m, i, done) && i < |t| && t[i].Full? && t[i].key in m && m[t[i].key] == t[i].load
    ensures Rehashed(t, m, i + 1, done[t[i].key := t[i].load])
  {
    var more := done[t[i].key := t[i].load];
    forall k | k in more
      ensures exists j: nat :: j < i + 1 && At(t, j, k)
    {
      if k == t[i].key {
        assert At(t, i, k);
      } else {
        var j: nat :| j < i && At(t, j, k);
        assert At(t, j, k);
      }
    }
  }

  lemma RehashDone<K(!new), P>(env: Env<K>, t: seq<Bucket<K, P>>, m: map<K, P>, done: map<K, P>)
    requires Table(env, t, m) && Rehashed(t, m, |t|, done)
    ensures done == m
  {
    forall k | k in m
      ensures k in done
    {
      var j: nat :| At(t, j, k);
    }
  }

  // ----- Clearing

  /** The blocks of the first i buckets are freed, `rest` are the entries of the others. */
  ghost predicate Unfreed<K(!new), P>(t: seq<Bucket<K, P>>, m: map<K, P>, i: nat, rest: map<K, P>) {
    && i <= |t|
    && (forall k :: k in rest ==> k in m && rest[k] == m[k] && exists j: nat :: i <= j && At(t, j, k))
    && (forall j :: i <= j < |t| && t[j].Full? ==> t[j].key in rest)
  }

  lemma UnfreedStart<K(!new), P>(env: Env<K>, t: seq<Bucket<K, P>>, m: map<K, P>)
    requires Table(env, t, m)
    ensures Unfreed(t, m, 0, m)
  {
    forall k | k in m
      ensures exists j: nat :: 0 <= j && At(t, j, k)
    {
      var j: nat :| At(t, j, k);
    }
  }

  lemma UnfreedSkip<K(!new), P>(t: seq<Bucket<K, P>>, m: map<K, P>, i: nat, rest: map<K, P>)
    requires Unfreed(t, m, i, rest) && i < |t| && t[i].Empty?
    ensures Unfreed(t, m, i + 1, rest)
  {
    forall k | k in rest
      ensures exists j: nat :: i + 1 <= j && At(t, j, k)
    {
      var j: nat :| i <= j && At(t, j, k);
    }
  }

  lemma UnfreedLess<K(!new), P>(env: Env<K>, t: seq<Bucket<K, P>>, m: map<K, P>, i: nat, rest: map<K, P>)
    requires Table(env, t, m) && Unfreed(t, m, i, rest) && i < |t| && t[i].Full?
    ensures t[i].key in rest && rest[t[i].key] == t[i].load && Unfreed(t, m, i + 1, rest - {t[i].key})
  {
    hide Placed, OrderedBut;
    assert rest[t[i].key] == t[i].load;
    forall k | k in rest - {t[i].key}
      ensures exists j: nat :: i + 1 <= j && At(t, j, k)
    {
      var j: nat :| i <= j && At(t, j, k);
    }
    assert env.Laws(t[i].key, t[i].key, t[i].key);
  }
}
