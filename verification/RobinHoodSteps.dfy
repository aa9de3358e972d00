// The single steps of the Robin Hood loops: displacement on insert, backward shift on remove.
module RobinHoodSteps {
  import opened RobinHood

  // ----- Displacement cascade -----

  /**
   * The cascade holds `inc` in its hand above `slot`: the table stores every pair of m but
   * that of `inc`, and putting `inc` down here would keep the order with the slot before.
   */
  ghost predicate Pending<K(!new), P>(
    env: Env<K>, t: seq<Bucket<K, P>>, slot: nat, inc: Bucket<K, P>, m: map<K, P>)
  {
    && |m| < |t| && |t| >= 2 && env.Lawful() && Placed(env, t) && Ordered(t) && slot < |t|
    && inc.Full? && inc.key in m && m[inc.key] == inc.load
    && Stores(env, t, m - {inc.key})
    && (forall i :: 0 <= i < |t| && t[i].Full? ==> !env.Eq(t[i].key, inc.key))
    && inc.psl == Dist(env.Home(inc.key, |t|), slot, |t|) + 1
    && inc.psl <= Psl(t[Prev(slot, |t|)]) + 1
  }

  /** The search for k has failed, so k can be taken in hand. */
  lemma PendingStart<K(!new), P>(
    env: Env<K>, t: seq<Bucket<K, P>>, m: map<K, P>, slot: nat, inc: Bucket<K, P>)
    requires Table(env, t, m) && inc.Full? && Searching(env, t, inc.key, slot, inc.psl)
    requires Psl(t[slot]) < inc.psl && |m| + 1 < |t|
    ensures !Has(env, m, inc.key) && Pending(env, t, slot, inc, m[inc.key := inc.load])
  {
    SearchStop(env, t, m, inc.key, slot, inc.psl);
    assert env.Laws(inc.key, inc.key, inc.key);
    assert inc.key !in m;
    assert m[inc.key := inc.load] - {inc.key} == m;
    forall i | 0 <= i < |t| && t[i].Full?
      ensures !env.Eq(t[i].key, inc.key)
    {
      assert t[i].key in m;
    }
  }

  /** Facts about the table with `inc` put down, whatever was there before. */
  lemma PutDown<K(!new), P>(
    env: Env<K>, t: seq<Bucket<K, P>>, slot: nat, inc: Bucket<K, P>, m: map<K, P>)
    requires Pending(env, t, slot, inc, m)
    ensures var u := t[slot := inc];
      Within(env, u, m) && Placed(env, u) && OrderedBut(u, slot)
  {
    var u := t[slot := inc];
    forall i | 0 <= i < |u| && i != slot
      ensures Edge(u, i)
    {
      assert Edge(t, i);
      if Next(i, |t|) == slot {
        assert i == Prev(slot, |t|);
      }
    }
    forall i, j | 0 <= i < |u| && 0 <= j < |u| && i != j && u[i].Full? && u[j].Full?
      ensures !env.Eq(u[i].key, u[j].key)
    {
      if i == slot {
        assert env.Laws(inc.key, u[j].key, u[j].key);
      }
    }
  }

  lemma PutDownOrder<K(!new), P>(
    env: Env<K>, t: seq<Bucket<K, P>>, slot: nat, inc: Bucket<K, P>, m: map<K, P>)
    requires Pending(env, t, slot, inc, m) && Psl(t[slot]) < inc.psl
    ensures Ordered(t[slot := inc])
  {
    PutDown(env, t, slot, inc, m);
    var u := t[slot := inc];
    assert Edge(t, slot);
    forall i | 0 <= i < |u|
      ensures Edge(u, i)
    {
    }
  }

  /** An empty bucket ends the cascade. */
  lemma PendingPlace<K(!new), P>(
    env: Env<K>, t: seq<Bucket<K, P>>, slot: nat, inc: Bucket<K, P>, m: map<K, P>)
    requires Pending(env, t, slot, inc, m) && t[slot].Empty?
    ensures Table(env, t[slot := inc], m)
  {
    PutDown(env, t, slot, inc, m);
    PutDownOrder(env, t, slot, inc, m);
    var u := t[slot := inc];
    forall k | k in m
      ensures exists i: nat :: At(u, i, k)
    {
      if k == inc.key {
        assert At(u, slot, k);
      } else {
        assert k in m - {inc.key};
        var i: nat :| At(t, i, k);
        assert At(u, i, k);
      }
    }
  }

  /** A richer bucket is displaced and taken in hand instead. */
  lemma PendingSwap<K(!new), P>(
    env: Env<K>, t: seq<Bucket<K, P>>, slot: nat, inc: Bucket<K, P>, m: map<K, P>)
    requires Pending(env, t, slot, inc, m) && t[slot].Full? && t[slot].psl < inc.psl
    ensures Pending(env, t[slot := inc], Next(slot, |t|), t[slot].(psl := t[slot].psl + 1), m)
  {
    PutDown(env, t, slot, inc, m);
    PutDownOrder(env, t, slot, inc, m);
    var u, cur := t[slot := inc], t[slot];
    forall i | 0 <= i < |u| && u[i].Full?
      ensures u[i].key in m - {cur.key} && !env.Eq(u[i].key, cur.key)
    {
      assert env.Laws(cur.key, u[i].key, u[i].key) && env.Laws(u[i].key, cur.key, cur.key);
    }
    forall k | k in m - {cur.key}
      ensures exists i: nat :: At(u, i, k)
    {
      if k == inc.key {
        assert At(u, slot, k);
      } else {
        assert k in m - {inc.key};
        var i: nat :| At(t, i, k);
        assert At(u, i, k);
      }
    }
  }

  /** The probe of a bucket in hand never covers the whole circle. */
  lemma NoFullCircle<K(!new), P>(env: Env<K>, t: seq<Bucket<K, P>>, m: map<K, P>, slot: nat)
    requires env.Lawful() && Within(env, t, m) && |m| < |t| && Ordered(t) && slot < |t|
    ensures Psl(t[slot]) < |t|
  {
    var z := Room(env, t, m);
    Chain(t, slot, Dist(z, slot, |t|), -1);
    assert Back(slot, Dist(z, slot, |t|), |t|) == z;
  }

  /** A poorer or equal bucket is passed over. */
  lemma PendingSkip<K(!new), P>(
    env: Env<K>, t: seq<Bucket<K, P>>, slot: nat, inc: Bucket<K, P>, m: map<K, P>)
    requires Pending(env, t, slot, inc, m) && Psl(t[slot]) >= inc.psl && inc.psl < 255
    ensures Pending(env, t, Next(slot, |t|), inc.(psl := inc.psl + 1), m)
  {
    assert |m - {inc.key}| <= |m| by {
      assert m.Keys == (m - {inc.key}).Keys + {inc.key};
    }
    NoFullCircle(env, t, m - {inc.key}, slot);
    assert Prev(Next(slot, |t|), |t|) == slot;
  }

  // ----- The insertion loop -----

  /**
   * A table `ref` of the same or half the size, with no PSL above B, in which all the given
   * keys but those of `extra` are stored.
   */
  ghost predicate Yardstick<K(!new), P>(
    env: Env<K>, n: nat, keys: set<K>, ref: seq<Bucket<K, P>>, extra: set<K>, B: nat)
  {
    && |ref| >= 1 && (n == |ref| || n == 2 * |ref|)
    && Placed(env, ref) && PslsAtMost(ref, B)
    && forall k :: k in keys && k !in extra ==> Found(env, ref, k)
  }

  /** Loop invariant: either still searching the untouched table for inc0, or displacing. */
  ghost predicate Cascade<K(!new), P>(
    env: Env<K>, t0: seq<Bucket<K, P>>, m0: map<K, P>, inc0: Bucket<K, P>,
    t: seq<Bucket<K, P>>, slot: nat, inc: Bucket<K, P>)
  {
    && Table(env, t0, m0) && |m0| + 1 < |t0| && |t| == |t0| && inc0.Full? && inc.Full? && slot < |t|
    && (|| (t == t0 && inc == inc0.(psl := inc.psl) && Searching(env, t0, inc0.key, slot, inc.psl))
        || (!Has(env, m0, inc0.key) && Pending(env, t, slot, inc, m0[inc0.key := inc0.load])))
  }

  lemma CascadeStart<K(!new), P>(env: Env<K>, t: seq<Bucket<K, P>>, m: map<K, P>, inc: Bucket<K, P>) returns (z: nat)
    requires Table(env, t, m) && |m| + 1 < |t| && inc.Full?
    ensures Cascade(env, t, m, inc, t, env.Home(inc.key, |t|), inc.(psl := 1))
    ensures z < |t| && t[z].Empty?
  {
    SearchStart(env, t, m, inc.key);
    z := Room(env, t, m);
  }

  lemma CascadeHit<K(!new), P>(
    env: Env<K>, t0: seq<Bucket<K, P>>, m0: map<K, P>, inc0: Bucket<K, P>,
    t: seq<Bucket<K, P>>, slot: nat, inc: Bucket<K, P>)
    requires Cascade(env, t0, m0, inc0, t, slot, inc) && t[slot].Full? && env.Eq(t[slot].key, inc.key)
    ensures t == t0 && inc.key == inc0.key && inc.load == inc0.load
    ensures Has(env, m0, inc0.key) && Rep(env, m0, inc0.key) == t0[slot].key && m0[t0[slot].key] == t0[slot].load
  {
    SearchHit(env, t0, m0, inc0.key, slot);
  }

  /** Overwriting the payload of a stored key. */
  lemma Overwrite<K(!new), P>(env: Env<K>, t: seq<Bucket<K, P>>, m: map<K, P>, slot: nat, p: P)
    requires Table(env, t, m) && slot < |t| && t[slot].Full?
    ensures Table(env, t[slot := t[slot].(load := p)], m[t[slot].key := p])
    ensures |m[t[slot].key := p]| == |m|
  {
    hide Stores, Placed, Env.Lawful;
    var k := t[slot].key;
    OverwriteStores(env, t, m, slot, p);
    OverwritePlaced(env, t, slot, p);
    assert m[k := p].Keys == m.Keys;
    assert |m[k := p].Keys| == |m.Keys|;
  }

  lemma OverwritePlaced<K(!new), P>(env: Env<K>, t: seq<Bucket<K, P>>, slot: nat, p: P)
    requires Placed(env, t) && Ordered(t) && slot < |t| && t[slot].Full?
    ensures var u := t[slot := t[slot].(load := p)]; Placed(env, u) && Ordered(u)
  {
    var u := t[slot := t[slot].(load := p)];
    forall i | 0 <= i < |u|
      ensures Edge(u, i)
    {
      assert Edge(t, i);
    }
  }

  lemma OverwriteStores<K(!new), P>(env: Env<K>, t: seq<Bucket<K, P>>, m: map<K, P>, slot: nat, p: P)
    requires env.Lawful() && Stores(env, t, m) && slot < |t| && t[slot].Full?
    ensures t[slot].key in m && Stores(env, t[slot := t[slot].(load := p)], m[t[slot].key := p])
  {
    var u, k := t[slot := t[slot].(load := p)], t[slot].key;
    assert env.Laws(k, k, k);
    forall x | x in m
      ensures exists i: nat :: At(u, i, x)
    {
      var i: nat :| At(t, i, x);
      assert At(u, i, x);
    }
    forall i | 0 <= i < |u| && u[i].Full? && i != slot
      ensures u[i].key != k
    {
      assert !env.Eq(t[i].key, k);
    }
  }

  /** A swap or a placement is due only once the key is known to be absent. */
  lemma CascadeTakes<K(!new), P>(
    env: Env<K>, t0: seq<Bucket<K, P>>, m0: map<K, P>, inc0: Bucket<K, P>,
    t: seq<Bucket<K, P>>, slot: nat, inc: Bucket<K, P>,
    ref: seq<Bucket<K, P>>, extra: set<K>, B: nat)
    requires Cascade(env, t0, m0, inc0, t, slot, inc) && Psl(t[slot]) < inc.psl
    requires Yardstick(env, |t|, m0.Keys + {inc0.key}, ref, extra, B)
    ensures !Has(env, m0, inc0.key) && Pending(env, t, slot, inc, m0[inc0.key := inc0.load])
    ensures inc.psl <= B + |extra|
  {
    var m := m0[inc0.key := inc0.load];
    if !Pending(env, t, slot, inc, m) {
      PendingStart(env, t0, m0, slot, inc);
    }
    PutDown(env, t, slot, inc, m);
    NoLongerThan(env, t[slot := inc], m, slot, ref, extra, B);
  }

  lemma CascadeSwap<K(!new), P>(
    env: Env<K>, t0: seq<Bucket<K, P>>, m0: map<K, P>, inc0: Bucket<K, P>,
    t: seq<Bucket<K, P>>, slot: nat, inc: Bucket<K, P>,
    ref: seq<Bucket<K, P>>, extra: set<K>, B: nat)
    requires Cascade(env, t0, m0, inc0, t, slot, inc) && t[slot].Full? && t[slot].psl < inc.psl
    requires Yardstick(env, |t|, m0.Keys + {inc0.key}, ref, extra, B)
    ensures inc.psl <= B + |extra|
    ensures Cascade(env, t0, m0, inc0, t[slot := inc], Next(slot, |t|), t[slot].(psl := t[slot].psl + 1))
  {
    CascadeTakes(env, t0, m0, inc0, t, slot, inc, ref, extra, B);
    PendingSwap(env, t, slot, inc, m0[inc0.key := inc0.load]);
  }

  lemma CascadeSkip<K(!new), P>(
    env: Env<K>, t0: seq<Bucket<K, P>>, m0: map<K, P>, inc0: Bucket<K, P>,
    t: seq<Bucket<K, P>>, slot: nat, inc: Bucket<K, P>,
    ref: seq<Bucket<K, P>>, extra: set<K>, B: nat)
    requires Cascade(env, t0, m0, inc0, t, slot, inc) && t[slot].Full? && t[slot].psl >= inc.psl
    requires !env.Eq(t[slot].key, inc.key)
    requires Yardstick(env, |t|, m0.Keys + {inc0.key}, ref, extra, B) && B + |extra| <= 254
    ensures inc.psl < 255
    ensures Cascade(env, t0, m0, inc0, t, Next(slot, |t|), inc.(psl := inc.psl + 1))
  {
    var m := m0[inc0.key := inc0.load];
    if !Has(env, m0, inc0.key) && Pending(env, t, slot, inc, m) {
      PutDown(env, t, slot, inc, m);
      NoLongerThan(env, t[slot := inc], m, slot, ref, extra, B);
      PendingSkip(env, t, slot, inc, m);
    } else {
      NoLongerThan(env, t0, m0, slot, ref, extra, B);
      SearchStep(env, t0, m0, inc0.key, slot, inc.psl);
    }
  }

  lemma CascadePlace<K(!new), P>(
    env: Env<K>, t0: seq<Bucket<K, P>>, m0: map<K, P>, inc0: Bucket<K, P>,
    t: seq<Bucket<K, P>>, slot: nat, inc: Bucket<K, P>,
    ref: seq<Bucket<K, P>>, extra: set<K>, B: nat)
    requires Cascade(env, t0, m0, inc0, t, slot, inc) && t[slot].Empty?
    requires Yardstick(env, |t|, m0.Keys + {inc0.key}, ref, extra, B)
    ensures inc.psl <= B + |extra| && !Has(env, m0, inc0.key) && inc0.key !in m0
    ensures Table(env, t[slot := inc], m0[inc0.key := inc0.load])
  {
    assert env.Laws(inc0.key, inc0.key, inc0.key);
    CascadeTakes(env, t0, m0, inc0, t, slot, inc, ref, extra, B);
    PendingPlace(env, t, slot, inc, m0[inc0.key := inc0.load]);
  }

  // ----- Backward shift -----

  /** Slot `hole` is empty; only the edge out of it may still break the order, by one. */
  ghost predicate Hole<K(!new), P>(env: Env<K>, t: seq<Bucket<K, P>>, hole: nat, m: map<K, P>) {
    && |m| < |t| && |t| >= 2 && env.Lawful() && Placed(env, t) && Stores(env, t, m)
    && hole < |t| && t[hole].Empty? && OrderedBut(t, hole)
    && Psl(t[Next(hole, |t|)]) <= Psl(t[Prev(hole, |t|)]) + 2
  }

  lemma HoleStart<K(!new), P>(env: Env<K>, t: seq<Bucket<K, P>>, m: map<K, P>, slot: nat)
    requires Table(env, t, m) && slot < |t| && t[slot].Full?
    ensures t[slot].key in m && Hole(env, t[slot := Empty], slot, m - {t[slot].key})
  {
    hide Stores, Placed, OrderedBut, Env.Lawful;
    WithoutOrder(t, slot);
    WithoutStores(env, t, m, slot);
    WithoutPlaced(env, t, slot);
    assert m.Keys == (m - {t[slot].key}).Keys + {t[slot].key};
  }

  lemma WithoutPlaced<K(!new), P>(env: Env<K>, t: seq<Bucket<K, P>>, slot: nat)
    requires Placed(env, t) && slot < |t|
    ensures Placed(env, t[slot := Empty])
  {
  }

  lemma WithoutOrder<K, P>(t: seq<Bucket<K, P>>, slot: nat)
    requires Ordered(t) && slot < |t| && t[slot].Full?
    ensures var u := t[slot := Empty];
      OrderedBut(u, slot) && Psl(u[Next(slot, |t|)]) <= Psl(u[Prev(slot, |t|)]) + 2
  {
    var u := t[slot := Empty];
    assert Edge(t, slot) && Edge(t, Prev(slot, |t|));
    forall i | 0 <= i < |u| && i != slot
      ensures Edge(u, i)
    {
      assert Edge(t, i);
    }
  }

  lemma WithoutStores<K(!new), P>(env: Env<K>, t: seq<Bucket<K, P>>, m: map<K, P>, slot: nat)
    requires env.Lawful() && Stores(env, t, m) && slot < |t| && t[slot].Full?
    ensures t[slot].key in m && Stores(env, t[slot := Empty], m - {t[slot].key})
  {
    var u, k := t[slot := Empty], t[slot].key;
    assert env.Laws(k, k, k);
    forall i | 0 <= i < |u| && u[i].Full?
      ensures u[i].key in m - {k}
    {
      assert !env.Eq(t[i].key, t[slot].key);
    }
    forall x | x in m - {k}
      ensures exists i: nat :: At(u, i, x)
    {
      var i: nat :| At(t, i, x);
      assert At(u, i, x);
    }
  }

  /** The bucket after the hole is away from its home. */
  predicate Shiftable<K, P>(t: seq<Bucket<K, P>>, hole: nat) {
    hole < |t| && var b := t[Next(hole, |t|)]; b.Full? && b.psl > 1
  }

  /** One shift: the next bucket moves one slot home and leaves the hole behind. */
  function Shift<K, P>(t: seq<Bucket<K, P>>, hole: nat): (u: seq<Bucket<K, P>>)
    requires Shiftable(t, hole)
    ensures |u| == |t|
  {
    var next := Next(hole, |t|);
    t[hole := t[next].(psl := t[next].psl - 1)][next := Empty]
  }

  lemma HoleShift<K(!new), P>(env: Env<K>, t: seq<Bucket<K, P>>, hole: nat, m: map<K, P>)
    requires Hole(env, t, hole, m) && Shiftable(t, hole)
    ensures Hole(env, Shift(t, hole), Next(hole, |t|), m)
  {
    ShiftOrder(t, hole);
    ShiftStores(env, t, hole, m);
    ShiftPlaced(env, t, hole);
  }

  lemma ShiftPlaced<K(!new), P>(env: Env<K>, t: seq<Bucket<K, P>>, hole: nat)
    requires Placed(env, t) && Shiftable(t, hole)
    ensures Placed(env, Shift(t, hole))
  {
    var u := Shift(t, hole);
    forall i | 0 <= i < |u| && u[i].Full?
      ensures u[i].psl == Dist(env.Home(u[i].key, |u|), i, |u|) + 1
    {
      if i == hole {
        assert t[Next(hole, |t|)].Full?;
      }
    }
  }

  lemma ShiftOrder<K, P>(t: seq<Bucket<K, P>>, hole: nat)
    requires hole < |t| && |t| >= 2 && OrderedBut(t, hole) && t[hole].Empty?
    requires Shiftable(t, hole) && Psl(t[Next(hole, |t|)]) <= Psl(t[Prev(hole, |t|)]) + 2
    ensures var u, next := Shift(t, hole), Next(hole, |t|);
      && u[next].Empty? && OrderedBut(u, next)
      && Psl(u[Next(next, |t|)]) <= Psl(u[Prev(next, |t|)]) + 2
  {
    var n := |t|;
    var next, u := Next(hole, n), Shift(t, hole);
    assert Edge(t, next);
    forall i | 0 <= i < n && i != next
      ensures Edge(u, i)
    {
      if i != hole {
        assert Edge(t, i);
      }
      if Next(i, n) == hole {
        assert i == Prev(hole, n);
      }
    }
  }

  lemma ShiftStores<K(!new), P>(env: Env<K>, t: seq<Bucket<K, P>>, hole: nat, m: map<K, P>)
    requires Stores(env, t, m) && Shiftable(t, hole) && t[hole].Empty?
    ensures Stores(env, Shift(t, hole), m)
  {
    var n := |t|;
    var next, u := Next(hole, n), Shift(t, hole);
    forall i, j | 0 <= i < n && 0 <= j < n && i != j && u[i].Full? && u[j].Full?
      ensures !env.Eq(u[i].key, u[j].key)
    {
      var i', j' := if i == hole then next else i, if j == hole then next else j;
      assert u[i].key == t[i'].key && u[j].key == t[j'].key;
    }
    forall k | k in m
      ensures exists i: nat :: At(u, i, k)
    {
      var i: nat :| At(t, i, k);
      assert At(u, if i == next then hole else i, k);
    }
  }

  lemma HoleDone<K(!new), P>(env: Env<K>, t: seq<Bucket<K, P>>, hole: nat, m: map<K, P>)
    requires Hole(env, t, hole, m) && !Shiftable(t, hole)
    ensures Table(env, t, m)
  {
    assert Edge(t, hole);
    forall i | 0 <= i < |t|
      ensures Edge(t, i)
    {
    }
  }
}
