// Robin Hood open addressing on a circular array, as `hashmap` and `set` both use it.
// A table is a sequence of buckets; its abstract value is a finite map from stored keys
// to payloads, read modulo the caller's equality.  Slots are compared along the circle
// with `Dist`, so that every argument below is linear arithmetic.
module RobinHood {
  import opened Bits
  import opened Finite
  import opened Memory

  /** The 8-bit counter the buckets carry; 0 marks an empty bucket in the C struct. */
  type u8 = x: nat | x < 256

  datatype Bucket<K, P> = Empty | Full(key: K, load: P, psl: u8)

  /** The caller's hash and equality functions. */
  datatype Env<!K(!new)> = Env(hashFn: K -> nat, eqFn: (K, K) -> bool) {
    function Hash(k: K): nat {
      hashFn(k)
    }

    predicate Eq(a: K, b: K) {
      eqFn(a, b)
    }

    ghost predicate Laws(a: K, b: K, c: K) {
      && Eq(a, a)
      && (Eq(a, b) ==> Eq(b, a) && Hash(a) == Hash(b))
      && (Eq(a, b) && Eq(b, c) ==> Eq(a, c))
    }

    /** Equality is an equivalence and hashing respects it; nothing else is assumed. */
    ghost predicate Lawful() {
      forall a, b, c :: Laws(a, b, c)
    }

    /** The slot a key is hashed to in a table of n slots. */
    function Home(k: K, n: nat): (h: nat)
      requires n >= 1
      ensures h < n
    {
      Mod(Hash(k), n)
    }
  }

  lemma LawsAt<K(!new)>(env: Env<K>, a: K, b: K, c: K)
    requires env.Lawful()
    ensures env.Laws(a, b, c)
  {
  }

  // ----- The finite map modulo `eq` that a table stands for -----

  ghost predicate Has<K(!new), P>(env: Env<K>, m: map<K, P>, k: K) {
    exists r :: r in m && env.Eq(r, k)
  }

  /** The stored representative of k. */
  ghost function Rep<K(!new), P>(env: Env<K>, m: map<K, P>, k: K): (r: K)
    requires Has(env, m, k)
    ensures r in m && env.Eq(r, k)
  {
    var r :| r in m && env.Eq(r, k);
    r
  }

  ghost predicate Apart<K(!new)>(env: Env<K>, s: set<K>) {
    forall a, b :: a in s && b in s && a != b ==> !env.Eq(a, b)
  }

  ghost function Insert<K(!new), P>(env: Env<K>, m: map<K, P>, k: K, p: P): map<K, P> {
    if Has(env, m, k) then m[Rep(env, m, k) := p] else m[k := p]
  }

  ghost function Delete<K(!new), P>(env: Env<K>, m: map<K, P>, k: K): map<K, P> {
    if Has(env, m, k) then m - {Rep(env, m, k)} else m
  }

  /** What a lookup reads in the finite map modulo `eq`. */
  ghost function Lookup<K(!new), P>(env: Env<K>, m: map<K, P>, k: K): Option<P> {
    if Has(env, m, k) then Some(m[Rep(env, m, k)]) else None
  }

  lemma RepIsUnique<K(!new), P>(env: Env<K>, m: map<K, P>, k: K, r: K)
    requires env.Lawful() && Apart(env, m.Keys) && r in m && env.Eq(r, k)
    ensures Has(env, m, k) && Rep(env, m, k) == r
  {
    var q := Rep(env, m, k);
    assert env.Laws(r, k, q) && env.Laws(q, k, k);
  }

  lemma LookupIs<K(!new), P>(env: Env<K>, m: map<K, P>, k: K, r: K)
    requires env.Lawful() && Apart(env, m.Keys) && r in m && env.Eq(r, k)
    ensures Lookup(env, m, k) == Some(m[r])
  {
    RepIsUnique(env, m, k, r);
  }

  /** Reading after writing, up to equality of keys. */
  lemma LookupAfterInsert<K(!new), P>(env: Env<K>, m: map<K, P>, k: K, p: P, l: K)
    requires env.Lawful() && Apart(env, m.Keys)
    ensures Apart(env, Insert(env, m, k, p).Keys)
    ensures Lookup(env, Insert(env, m, k, p), l) == if env.Eq(k, l) then Some(p) else Lookup(env, m, l)
  {
    var n := Insert(env, m, k, p);
    var r := if Has(env, m, k) then Rep(env, m, k) else k;
    assert n == m[r := p];
    assert env.Laws(k, k, k) && env.Laws(r, k, l) && env.Laws(k, r, r) && env.Laws(r, l, l);
    forall a, b | a in n && b in n && a != b
      ensures !env.Eq(a, b)
    {
      assert env.Laws(a, b, b) && env.Laws(b, a, k) && env.Laws(a, b, k);
    }
    if env.Eq(k, l) {
      LookupIs(env, n, l, r);
    } else if Has(env, m, l) {
      var q := Rep(env, m, l);
      assert env.Laws(k, q, l) && env.Laws(q, k, k) && env.Laws(k, r, q);
      LookupIs(env, n, l, q);
    }
  }

  lemma LookupAfterDelete<K(!new), P>(env: Env<K>, m: map<K, P>, k: K, l: K)
    requires env.Lawful() && Apart(env, m.Keys)
    ensures Apart(env, Delete(env, m, k).Keys)
    ensures Lookup(env, Delete(env, m, k), l) == if env.Eq(k, l) then None else Lookup(env, m, l)
  {
    var n := Delete(env, m, k);
    if Has(env, n, l) {
      var q := Rep(env, n, l);
      LookupIs(env, m, l, q);
      if env.Eq(k, l) {
        assert env.Laws(k, l, q) && env.Laws(q, l, k) && env.Laws(l, k, k) && env.Laws(k, l, l);
        RepIsUnique(env, m, k, q);
      }
    } else if Has(env, m, l) {
      var q := Rep(env, m, l);
      assert q !in n;
      assert env.Laws(q, k, k) && env.Laws(k, q, l);
    }
  }

  lemma InsertThenDelete<K(!new), P>(env: Env<K>, m: map<K, P>, k: K, p: P)
    requires env.Lawful() && !Has(env, m, k)
    ensures Delete(env, Insert(env, m, k, p), k) == m
  {
    var n := Insert(env, m, k, p);
    assert env.Laws(k, k, k);
    assert k in n && env.Eq(k, k);
    assert Rep(env, n, k) == k;
  }

  // ----- Circular slot arithmetic -----

  function Psl<K, P>(b: Bucket<K, P>): nat {
    if b.Full? then b.psl else 0
  }

  function Next(i: nat, n: nat): nat {
    if i + 1 == n then 0 else i + 1
  }

  function Prev(i: nat, n: nat): nat
    requires n >= 1
  {
    if i == 0 then n - 1 else i - 1
  }

  /** Steps forward from a to i. */
  function Dist(a: nat, i: nat, n: nat): nat
    requires a < n && i < n
  {
    if a <= i then i - a else i + n - a
  }

  /** The slot d steps behind i. */
  function Back(i: nat, d: nat, n: nat): (j: nat)
    requires i < n && d < n
    ensures j < n && Dist(j, i, n) == d
  {
    if d <= i then i - d else i + n - d
  }

  // ----- Table invariant -----

  /** Every stored PSL is the exact distance from the key's home slot, counted from 1. */
  ghost predicate Placed<K(!new), P>(env: Env<K>, t: seq<Bucket<K, P>>) {
    forall i :: 0 <= i < |t| && t[i].Full? ==> t[i].psl == Dist(env.Home(t[i].key, |t|), i, |t|) + 1
  }

  ghost predicate Edge<K, P>(t: seq<Bucket<K, P>>, i: nat)
    requires i < |t|
  {
    Psl(t[Next(i, |t|)]) <= Psl(t[i]) + 1
  }

  /** The Robin Hood order, except possibly on the edge that leaves slot x. */
  ghost predicate OrderedBut<K, P>(t: seq<Bucket<K, P>>, x: int) {
    forall i :: 0 <= i < |t| && i != x ==> Edge(t, i)
  }

  ghost predicate Ordered<K, P>(t: seq<Bucket<K, P>>) {
    OrderedBut(t, -1)
  }

  ghost predicate At<K, P>(t: seq<Bucket<K, P>>, i: nat, k: K) {
    i < |t| && t[i].Full? && t[i].key == k
  }

  /** Full buckets hold pairwise different keys of m. */
  ghost predicate Within<K(!new), P>(env: Env<K>, t: seq<Bucket<K, P>>, m: map<K, P>) {
    && (forall i :: 0 <= i < |t| && t[i].Full? ==> t[i].key in m && m[t[i].key] == t[i].load)
    && (forall i, j :: 0 <= i < |t| && 0 <= j < |t| && i != j && t[i].Full? && t[j].Full?
          ==> !env.Eq(t[i].key, t[j].key))
  }

  /** The table stores exactly the pairs of m, one bucket each. */
  ghost predicate Stores<K(!new), P>(env: Env<K>, t: seq<Bucket<K, P>>, m: map<K, P>) {
    Within(env, t, m) && forall k :: k in m ==> exists i: nat :: At(t, i, k)
  }

  ghost predicate Table<K(!new), P>(env: Env<K>, t: seq<Bucket<K, P>>, m: map<K, P>) {
    |m| < |t| && |t| >= 2 && env.Lawful() && Placed(env, t) && Ordered(t) && Stores(env, t, m)
  }

  lemma Room<K(!new), P>(env: Env<K>, t: seq<Bucket<K, P>>, m: map<K, P>) returns (z: nat)
    requires env.Lawful() && Within(env, t, m) && |m| < |t|
    ensures z < |t| && t[z].Empty?
  {
    if forall i :: 0 <= i < |t| ==> t[i].Full? {
      forall i, j | 0 <= i < |t| && 0 <= j < |t| && t[i].key == t[j].key
        ensures i == j
      {
        assert env.Laws(t[i].key, t[j].key, t[j].key);
      }
      InjectionBound(Range(0, |t|), (i: int) => if 0 <= i < |t| then t[i].key else t[0].key, m.Keys);
    }
    z :| 0 <= z < |t| && t[z].Empty?;
  }

  // ----- Consequences of the Robin Hood order -----

  /** Walking back from a slot, the PSL drops by at most one a step. */
  lemma {:induction false} Chain<K, P>(t: seq<Bucket<K, P>>, i: nat, d: nat, x: int)
    requires i < |t| && d < |t| && OrderedBut(t, x)
    requires x == i || x == -1
    ensures Psl(t[Back(i, d, |t|)]) + d >= Psl(t[i])
  {
    if d > 0 {
      Chain(t, i, d - 1, x);
      var j := Back(i, d, |t|);
      assert Next(j, |t|) == Back(i, d - 1, |t|);
      assert Edge(t, j);
    }
  }

  /**
   * What a probe for k knows after `probe - 1` unsuccessful steps: an equal key, if any,
   * has a PSL of at least `probe`.
   */
  ghost predicate Searching<K(!new), P>(env: Env<K>, t: seq<Bucket<K, P>>, k: K, slot: nat, probe: nat) {
    && slot < |t| && probe >= 1
    && Dist(env.Home(k, |t|), slot, |t|) == probe - 1
    && (forall i :: 0 <= i < |t| && t[i].Full? && env.Eq(t[i].key, k) ==> t[i].psl >= probe)
    && (probe > 1 ==> Psl(t[Prev(slot, |t|)]) >= probe - 1)
  }

  lemma SearchStart<K(!new), P>(env: Env<K>, t: seq<Bucket<K, P>>, m: map<K, P>, k: K)
    requires Table(env, t, m)
    ensures Searching(env, t, k, env.Home(k, |t|), 1)
  {
  }

  lemma SearchStep<K(!new), P>(env: Env<K>, t: seq<Bucket<K, P>>, m: map<K, P>, k: K, slot: nat, probe: nat)
    requires Table(env, t, m) && Searching(env, t, k, slot, probe)
    requires Psl(t[slot]) >= probe && !env.Eq(t[slot].key, k)
    ensures Searching(env, t, k, Next(slot, |t|), probe + 1)
  {
    hide OrderedBut, Within;
    forall i | 0 <= i < |t| && t[i].Full? && env.Eq(t[i].key, k)
      ensures t[i].psl >= probe + 1
    {
      assert env.Laws(t[i].key, k, k);
      assert env.Home(t[i].key, |t|) == env.Home(k, |t|);
    }
    var z := Room(env, t, m);
    Chain(t, slot, Dist(z, slot, |t|), -1);
    assert Back(slot, Dist(z, slot, |t|), |t|) == z;
  }

  /** The early stop: a bucket poorer in PSL than the probe proves the key absent. */
  lemma SearchStop<K(!new), P>(env: Env<K>, t: seq<Bucket<K, P>>, m: map<K, P>, k: K, slot: nat, probe: nat)
    requires Table(env, t, m) && Searching(env, t, k, slot, probe)
    requires Psl(t[slot]) < probe
    ensures !Has(env, m, k)
  {
    hide OrderedBut, Within, Env.Lawful;
    if Has(env, m, k) {
      var r :| r in m && env.Eq(r, k);
      var i: nat :| At(t, i, r);
      LawsAt(env, r, k, k);
      assert env.Eq(t[i].key, k) && env.Home(r, |t|) == env.Home(k, |t|);
      assert Back(i, t[i].psl - probe, |t|) == slot;
      Chain(t, i, t[i].psl - probe, -1);
    }
  }

  lemma SearchHit<K(!new), P>(env: Env<K>, t: seq<Bucket<K, P>>, m: map<K, P>, k: K, slot: nat)
    requires Table(env, t, m) && slot < |t| && t[slot].Full? && env.Eq(t[slot].key, k)
    ensures Has(env, m, k) && Rep(env, m, k) == t[slot].key
  {
    var r := Rep(env, m, k);
    var i: nat :| At(t, i, r);
    assert env.Laws(r, k, t[slot].key) && env.Laws(t[slot].key, k, k);
  }

  // ----- How long probes can get -----

  /** S is a set of different keys, all hashed into the L slots that start at a. */
  ghost predicate Arc<K(!new)>(env: Env<K>, s: set<K>, a: nat, L: nat, n: nat) {
    && a < n && Apart(env, s)
    && forall k :: k in s ==> Dist(a, env.Home(k, n), n) < L
  }

  /** The bucket e steps behind slot i. */
  function Behind<K, P>(t: seq<Bucket<K, P>>, i: nat, e: nat): Bucket<K, P>
    requires i < |t| && e < |t|
  {
    t[Back(i, e, |t|)]
  }

  /**
   * Walking back from a full bucket to the first PSL 1 stays inside one cluster, in which
   * homes only move back.
   */
  lemma Cluster<K(!new), P>(env: Env<K>, t: seq<Bucket<K, P>>, m: map<K, P>, i: nat) returns (d: nat)
    requires env.Lawful() && Within(env, t, m) && |m| < |t|
    requires Placed(env, t) && OrderedBut(t, i) && i < |t| && t[i].Full?
    ensures d < |t| && forall e :: 0 <= e <= d ==> Behind(t, i, e).Full?
    ensures forall e :: 0 <= e <= d ==> t[i].psl <= e + Behind(t, i, e).psl <= d + 1
  {
    var n := |t|;
    var z := Room(env, t, m);
    d := 0;
    while Behind(t, i, d).psl != 1
      invariant d < Dist(z, i, n)
      invariant forall e :: 0 <= e <= d ==> Behind(t, i, e).Full?
      invariant forall e :: 0 <= e <= d ==> t[i].psl <= e + Behind(t, i, e).psl <= d + Behind(t, i, d).psl
      decreases n - d
    {
      var j := Back(i, d + 1, n);
      assert Next(j, n) == Back(i, d, n) && j != i;
      assert Edge(t, j);
      d := d + 1;
    }
  }

  /** The keys of the d + 1 buckets that end at slot i. */
  lemma {:induction false} KeysBehind<K(!new), P>(env: Env<K>, t: seq<Bucket<K, P>>, m: map<K, P>, i: nat, d: nat)
    returns (s: set<K>)
    requires env.Lawful() && Within(env, t, m) && i < |t| && d < |t|
    requires forall e :: 0 <= e <= d ==> Behind(t, i, e).Full?
    ensures |s| == d + 1 && s <= m.Keys
    ensures forall k :: k in s ==> exists e :: 0 <= e <= d && Behind(t, i, e).key == k
  {
    var k := Behind(t, i, d).key;
    if d == 0 {
      s := {k};
      assert Behind(t, i, 0).key == k;
    } else {
      var s' := KeysBehind(env, t, m, i, d - 1);
      assert env.Laws(k, k, k);
      forall e | 0 <= e < d
        ensures Behind(t, i, e).key != k
      {
        assert Back(i, e, |t|) != Back(i, d, |t|);
      }
      s := s' + {k};
      assert Behind(t, i, d).key == k;
    }
  }

  /**
   * Crowding: behind a bucket of PSL p lie L + p - 1 stored keys hashed into L consecutive
   * slots that end at its own home.
   */
  lemma Crowd<K(!new), P>(env: Env<K>, t: seq<Bucket<K, P>>, m: map<K, P>, i: nat)
    returns (s: set<K>, a: nat, L: nat)
    requires env.Lawful() && Within(env, t, m) && |m| < |t|
    requires Placed(env, t) && OrderedBut(t, i) && i < |t| && t[i].Full?
    ensures s <= m.Keys && Arc(env, s, a, L, |t|)
    ensures L >= 1 && |s| == L + t[i].psl - 1 && Dist(a, i, |t|) == |s| - 1
  {
    hide OrderedBut;
    var d := Cluster(env, t, m, i);
    s := KeysBehind(env, t, m, i, d);
    assert t[i].psl <= d + Behind(t, i, d).psl;
    a, L := Back(i, d, |t|), d - t[i].psl + 2;
    forall k | k in s
      ensures Dist(a, env.Home(k, |t|), |t|) < L
    {
      var e :| 0 <= e <= d && Behind(t, i, e).key == k;
    }
    forall x, y | x in s && y in s && x != y
      ensures !env.Eq(x, y)
    {
      var e :| 0 <= e <= d && Behind(t, i, e).key == x;
      var f :| 0 <= f <= d && Behind(t, i, f).key == y;
    }
  }

  ghost predicate Finds<K(!new), P>(env: Env<K>, t: seq<Bucket<K, P>>, i: nat, k: K) {
    i < |t| && t[i].Full? && env.Eq(t[i].key, k)
  }

  ghost predicate Found<K(!new), P>(env: Env<K>, t: seq<Bucket<K, P>>, k: K) {
    exists i: nat :: Finds(env, t, i, k)
  }

  ghost function SlotOf<K(!new), P>(env: Env<K>, t: seq<Bucket<K, P>>, k: K): (i: nat)
    requires Found(env, t, k)
    ensures Finds(env, t, i, k)
  {
    var i: nat :| Finds(env, t, i, k);
    i
  }

  /** How far past slot a the key k is stored, counted along its probe sequence. */
  ghost function Reach<K(!new), P>(env: Env<K>, t: seq<Bucket<K, P>>, a: nat, k: K): int
    requires a < |t|
  {
    if Found(env, t, k) then Dist(a, env.Home(k, |t|), |t|) + t[SlotOf(env, t, k)].psl - 1 else -1
  }

  lemma HasFound<K(!new), P>(env: Env<K>, t: seq<Bucket<K, P>>, m: map<K, P>, k: K)
    requires Stores(env, t, m) && Has(env, m, k)
    ensures Found(env, t, k)
  {
    var r := Rep(env, m, k);
    var i: nat :| At(t, i, r);
    assert Finds(env, t, i, k);
  }

  /** Different keys stored less than N slots past a: there are at most N of them. */
  lemma Packed<K(!new), P>(env: Env<K>, t: seq<Bucket<K, P>>, s: set<K>, a: nat, N: nat)
    requires env.Lawful() && Placed(env, t) && a < |t| && Apart(env, s)
    requires forall k :: k in s ==> Found(env, t, k) && Reach(env, t, a, k) < N
    ensures |s| <= N
  {
    forall x, y | x in s && y in s && Reach(env, t, a, x) == Reach(env, t, a, y)
      ensures x == y
    {
      var i, j := SlotOf(env, t, x), SlotOf(env, t, y);
      assert env.Laws(t[i].key, x, x) && env.Laws(t[j].key, y, y);
      assert i == j;
      assert env.Laws(x, t[i].key, y);
    }
    InjectionBound(s, k => Reach(env, t, a, k), Range(0, N));
  }

  /** Pigeonhole: L + p - 1 keys hashed into L slots push one of them to a PSL of p or more. */
  lemma Outnumbered<K(!new), P>(env: Env<K>, t: seq<Bucket<K, P>>, s: set<K>, a: nat, L: nat, p: nat)
    requires env.Lawful() && Placed(env, t) && Arc(env, s, a, L, |t|)
    requires forall k :: k in s ==> Found(env, t, k)
    requires p >= 1 && L >= 1 && |s| >= L + p - 1
    ensures exists i :: 0 <= i < |t| && Psl(t[i]) >= p
  {
    if forall i :: 0 <= i < |t| ==> Psl(t[i]) < p {
      Packed(env, t, s, a, L + p - 2);
    }
  }

  ghost predicate PslsAtMost<K, P>(t: seq<Bucket<K, P>>, B: nat) {
    forall i :: 0 <= i < |t| ==> Psl(t[i]) <= B
  }

  /** Folding a table in half keeps an arc an arc. */
  lemma ArcFolds<K(!new)>(env: Env<K>, s: set<K>, a: nat, L: nat, n: nat) returns (b: nat)
    requires n >= 1 && Arc(env, s, a, L, 2 * n)
    ensures Arc(env, s, b, L, n)
  {
    b := if a < n then a else a - n;
    forall k | k in s
      ensures Dist(b, env.Home(k, n), n) < L
    {
      ModOfDouble(env.Hash(k), n);
    }
  }

  /**
   * The length of the longest probe is bounded by that of any placement of the same keys in a
   * table of the same or half the size, plus one for every extra key.
   */
  lemma NoLongerThan<K(!new), P>(
    env: Env<K>, t: seq<Bucket<K, P>>, m: map<K, P>, i: nat,
    ref: seq<Bucket<K, P>>, extra: set<K>, B: nat)
    requires env.Lawful() && Within(env, t, m) && |m| < |t|
    requires Placed(env, t) && OrderedBut(t, i) && i < |t| && t[i].Full?
    requires |ref| >= 1 && (|t| == |ref| || |t| == 2 * |ref|)
    requires Placed(env, ref) && PslsAtMost(ref, B)
    requires forall k :: k in m && k !in extra ==> Found(env, ref, k)
    ensures t[i].psl <= B + |extra|
  {
    var s, a, L := Crowd(env, t, m, i);
    var s' := s - extra;
    assert s == s' + (s * extra) && |s * extra| <= |extra| by {
      SubsetSize(s * extra, extra);
    }
    if t[i].psl > B + |extra| {
      var b := a;
      if |t| != |ref| {
        b := ArcFolds(env, s, a, L, |ref|);
      }
      Outnumbered(env, ref, s', b, L, B + 1);
    }
  }

  // ----- Main results about tables -----

  /**
   * Among all placements of the same keys by linear probing, whatever the insertion order and
   * displacement rule, the Robin Hood table has the shortest longest probe.
   */
  lemma RobinHoodIsOptimal<K(!new), P>(env: Env<K>, t: seq<Bucket<K, P>>, m: map<K, P>, ref: seq<Bucket<K, P>>, B: nat)
    requires Table(env, t, m)
    requires |ref| == |t| && Placed(env, ref) && Stores(env, ref, m) && PslsAtMost(ref, B)
    ensures PslsAtMost(t, B)
  {
    KeysHave(env, m);
    Shortest(env, t, m, ref, m, B);
  }

  lemma KeysHave<K(!new), P>(env: Env<K>, m: map<K, P>)
    requires env.Lawful()
    ensures forall k :: k in m ==> Has(env, m, k)
  {
    forall k | k in m
      ensures Has(env, m, k)
    {
      assert env.Laws(k, k, k);
    }
  }

  lemma Shortest<K(!new), P>(
    env: Env<K>, t: seq<Bucket<K, P>>, m: map<K, P>, ref: seq<Bucket<K, P>>, refM: map<K, P>, B: nat)
    requires Table(env, t, m)
    requires |ref| >= 1 && (|t| == |ref| || |t| == 2 * |ref|)
    requires Placed(env, ref) && Stores(env, ref, refM) && PslsAtMost(ref, B)
    requires forall k :: k in m ==> Has(env, refM, k)
    ensures PslsAtMost(t, B)
  {
    forall k | k in m
      ensures Found(env, ref, k)
    {
      HasFound(env, ref, refM, k);
    }
    forall i | 0 <= i < |t|
      ensures Psl(t[i]) <= B
    {
      if t[i].Full? {
        NoLongerThan(env, t, m, i, ref, {}, B);
      }
    }
  }

  /** Doubling a table never lengthens its worst probe, whatever the hash function. */
  lemma DoublingNeverLengthens<K(!new), P>(
    env: Env<K>, t: seq<Bucket<K, P>>, m: map<K, P>, big: seq<Bucket<K, P>>, B: nat)
    requires Table(env, t, m) && Table(env, big, m) && |big| == 2 * |t| && PslsAtMost(t, B)
    ensures PslsAtMost(big, B)
  {
    KeysHave(env, m);
    Shortest(env, big, m, t, m, B);
  }

  /** In a Robin Hood table, a key stored at or past slot i leaves a long enough PSL in slot i. */
  lemma ReachesPast<K(!new), P>(env: Env<K>, t: seq<Bucket<K, P>>, a: nat, i: nat, k: K)
    requires env.Lawful() && Placed(env, t) && Ordered(t) && Found(env, t, k) && a < |t| && i < |t|
    requires Dist(a, env.Home(k, |t|), |t|) <= Dist(a, i, |t|)
    ensures Reach(env, t, a, k) >= Dist(a, i, |t|)
      ==> Psl(t[i]) >= Dist(a, i, |t|) - Dist(a, env.Home(k, |t|), |t|) + 1
  {
    var j := SlotOf(env, t, k);
    assert env.Laws(t[j].key, k, k);
    var past := Reach(env, t, a, k) - Dist(a, i, |t|);
    if past >= 0 {
      assert Back(j, past, |t|) == i;
      Chain(t, j, past, -1);
    }
  }

  /** More keys mean a longer probe in every single slot. */
  lemma PslsGrowWithKeys<K(!new), P>(
    env: Env<K>, t: seq<Bucket<K, P>>, m: map<K, P>, u: seq<Bucket<K, P>>, mu: map<K, P>, i: nat)
    requires Table(env, t, m) && Table(env, u, mu) && |t| == |u| && i < |t|
    requires forall k :: k in m ==> Has(env, mu, k)
    ensures Psl(t[i]) <= Psl(u[i])
  {
    if Psl(u[i]) < Psl(t[i]) {
      var s, a, L := Crowd(env, t, m, i);
      var d := Dist(a, i, |t|);
      forall k | k in s
        ensures Found(env, u, k) && Reach(env, u, a, k) < d
      {
        HasFound(env, u, mu, k);
        ReachesPast(env, u, a, i, k);
      }
      Packed(env, u, s, a, d);
    }
  }

  /**
   * A table keeps no trace of its history: the PSL array depends on the capacity and on the
   * keys alone, whatever cascades and shifts built it.
   */
  lemma NoTraceOfHistory<K(!new), P>(
    env: Env<K>, t: seq<Bucket<K, P>>, m: map<K, P>, u: seq<Bucket<K, P>>, mu: map<K, P>, i: nat)
    requires Table(env, t, m) && Table(env, u, mu) && |t| == |u| && i < |t|
    requires forall k :: k in m ==> Has(env, mu, k)
    requires forall k :: k in mu ==> Has(env, m, k)
    ensures Psl(t[i]) == Psl(u[i])
  {
    PslsGrowWithKeys(env, t, m, u, mu, i);
    PslsGrowWithKeys(env, u, mu, t, m, i);
  }
}
