// Whole runs of the hash map of src/hashmap/hashmap.c.
module MapRuns {
  import opened Bits
  import opened Memory
  import opened RobinHood
  import opened HashMap

  datatype Op<K, V> = SetOp(key: K, value: V) | GetOp(key: K) | RemoveOp(key: K) | ClearOp

  datatype Reply<V> = Did(status: Status) | Got(value: Option<V>)

  /** One operation on the finite map; a set that ran out of memory does nothing. */
  ghost function Effect<K(!new), V>(env: Env<K>, m: map<K, V>, op: Op<K, V>, reply: Reply<V>): map<K, V> {
    match op
    case SetOp(k, v) => if reply == Did(OutOfMemory) then m else Insert(env, m, k, v)
    case GetOp(_) => m
    case RemoveOp(k) => Delete(env, m, k)
    case ClearOp => map[]
  }

  /** The reply that an operation on the map m gives. */
  ghost predicate Answers<K(!new), V>(env: Env<K>, m: map<K, V>, op: Op<K, V>, reply: Reply<V>) {
    match op
    case SetOp(_, _) => reply == Did(Ok) || reply == Did(OutOfMemory)
    case GetOp(k) => reply == Got(Lookup(env, m, k))
    case RemoveOp(k) => reply == Did(if Has(env, m, k) then Ok else NotFound)
    case ClearOp => reply == Did(Ok)
  }

  /** The operations take the map from m to n, with these replies on the way. */
  ghost predicate Replayed<K(!new), V>(
    env: Env<K>, m: map<K, V>, ops: seq<Op<K, V>>, replies: seq<Reply<V>>, n: map<K, V>)
    decreases |ops|
  {
    if ops == [] || replies == [] then ops == [] && replies == [] && m == n
    else
      && Answers(env, m, ops[0], replies[0])
      && Replayed(env, Effect(env, m, ops[0], replies[0]), ops[1..], replies[1..], n)
  }

  method Execute<K(==, !new), V>(m: HashMap<K, V>, op: Op<K, V>) returns (reply: Reply<V>)
    requires m.Valid()
    modifies m, m.buckets, m.heap, m.heap.mem
    ensures m.Valid() && (m.buckets == old(m.buckets) || fresh(m.buckets)) && m.cap >= old(m.cap)
    ensures Answers(m.env, old(m.Contents()), op, reply)
    ensures m.Contents() == Effect(m.env, old(m.Contents()), op, reply)
    ensures reply == Did(OutOfMemory) ==> m.Refuses()
    ensures m.heap.mem.refusals == old(m.heap.mem.refusals) + if reply == Did(OutOfMemory) then 1 else 0
  {
    hide HashMap.Valid, HashMap.Contents, Has, Lookup, Insert, Delete;
    ghost var cap := m.cap;
    m.Sizes();
    match op {
      case SetOp(k, v) => var status := m.Set(k, v); reply := Did(status);
      case GetOp(k) => var value := m.GetPtr(k); reply := Got(value);
      case RemoveOp(k) => var status := m.Remove(k); reply := Did(status);
      case ClearOp => m.Clear(); reply := Did(Ok);
    }
    m.Sizes();
  }

  /** Any run of operations, with table doublings and allocation failures wherever they fall. */
  method Run<K(==, !new), V>(m: HashMap<K, V>, ops: seq<Op<K, V>>) returns (replies: seq<Reply<V>>)
    requires m.Valid()
    modifies m, m.buckets, m.heap, m.heap.mem
    ensures m.Valid() && (m.buckets == old(m.buckets) || fresh(m.buckets)) && m.cap >= old(m.cap)
    ensures Replayed(m.env, old(m.Contents()), ops, replies, m.Contents())
    ensures Did(OutOfMemory) in replies ==> m.Refuses()
    ensures m.heap.mem.refusals == old(m.heap.mem.refusals) + Count(replies, Did(OutOfMemory))
    ensures m.maxPsl <= HASH_PSL_THRESHOLD + m.doublings <= 182 && m.cap == Pow2(m.doublings + 4)
    ensures m.len == |m.Contents()| && |m.heap.live| == 2 * m.len
    decreases |ops|
  {
    hide HashMap.Valid, HashMap.Contents, Answers, Effect;
    replies := [];
    if ops != [] {
      var reply := Execute(m, ops[0]);
      var rest := Run(m, ops[1..]);
      CountCons(reply, rest, Did(OutOfMemory));
      replies := [reply] + rest;
    } else {
      m.Summary();
    }
  }

  // ----- When the table is resized for its longest probe

  /** The keys of a constant hash make one cluster, whose last PSL is the number of keys. */
  lemma ConstantHash<K(!new), P>(env: Env<K>, t: seq<Bucket<K, P>>, m: map<K, P>, high: nat)
    requires Table(env, t, m) && PslsAtMost(t, high) && m != map[]
    requires forall a, b :: env.Hash(a) == env.Hash(b)
    ensures |m| <= high
  {
    var k :| k in m;
    var home := env.Home(k, |t|);
    forall l | l in m
      ensures Found(env, t, l)
    {
      assert env.Laws(l, l, l);
      HasFound(env, t, m, l);
    }
    assert Arc(env, m.Keys, home, 1, |t|) by {
      ApartKeys(env, t, m);
    }
    Outnumbered(env, t, m.Keys, home, 1, |m|);
  }

  lemma ApartKeys<K(!new), P>(env: Env<K>, t: seq<Bucket<K, P>>, m: map<K, P>)
    requires Stores(env, t, m)
    ensures Apart(env, m.Keys)
  {
    forall x, y | x in m && y in m && x != y
      ensures !env.Eq(x, y)
    {
      var i: nat :| At(t, i, x);
      var j: nat :| At(t, j, y);
    }
  }

  /** The capacity that load alone asks for, up to 192 entries. */
  function LoadCap(len: nat): nat {
    if len <= 12 then 16 else if len <= 24 then 32 else if len <= 48 then 64 else if len <= 96 then 128 else 256
  }

  /** The keys below k, and max_psl and cap no more than k of them make. */
  ghost predicate Filled(m: HashMap<nat, ()>, k: nat)
    reads m, m.buckets, m.heap
  {
    && m.Valid() && m.env == OneHash() && m.heap.mem.generous
    && m.len == k == |m.Contents()| && m.maxPsl <= k && m.cap == LoadCap(k)
    && forall l: nat :: l in m.Contents() <==> l < k
  }

  function OneHash(): Env<nat> {
    Env((_: nat) => 0, (a: nat, b: nat) => a == b)
  }

  method SetNext(m: HashMap<nat, ()>, k: nat)
    requires Filled(m, k) && k < 128
    modifies m, m.buckets, m.heap, m.heap.mem
    ensures Filled(m, k + 1) && (m.buckets == old(m.buckets) || fresh(m.buckets))
  {
    hide HashMap.Valid, HashMap.Contents, Has, Insert;
    m.Sizes();
    FreshKey(m.env, m.Contents(), k, ());
    var status := m.Set(k, ());
    m.Sizes();
  }

  /**
   * Setting 128 keys with one hash: the last call takes max_psl to the threshold and does not resize, though
   * the documentation says that it does so at once.
   */
  method ResizeWaits() returns (m: HashMap<nat, ()>, ghost psls: seq<nat>, ghost caps: seq<nat>)
    ensures m.Valid() && m.len == 128 && |psls| == |caps| == 129
    ensures psls[127] < HASH_PSL_THRESHOLD == psls[128] == m.maxPsl && caps[127] == caps[128] == m.cap == 256
  {
    hide HashMap.Valid, HashMap.Contents, Has, Insert;
    assert OneHash().Lawful();
    var mem := new Allocator(true);
    m := new HashMap(OneHash(), mem);
    m.Sizes();
    psls, caps := [m.maxPsl as nat], [m.cap];
    assert m.Contents() == map[];
    for i := 0 to 128
      invariant |psls| == |caps| == i + 1 && psls[i] == m.maxPsl && caps[i] == m.cap
      invariant i == 128 ==> psls[127] < HASH_PSL_THRESHOLD && caps[127] == 256
      invariant fresh(m) && fresh(m.buckets) && fresh(m.heap) && Filled(m, i)
    {
      SetNext(m, i);
      psls, caps := psls + [m.maxPsl as nat], caps + [m.cap];
    }
    m.Sizes();
    m.Probes();
    ConstantHash(m.env, m.buckets[..], m.entries, m.maxPsl);
  }

  lemma FreshKey<V>(env: Env<nat>, m: map<nat, V>, k: nat, v: V)
    requires forall a, b :: env.Eq(a, b) <==> a == b
    requires forall l: nat :: l in m <==> l < k
    ensures Insert(env, m, k, v) == m[k := v] && |m[k := v]| == |m| + 1
  {
    assert m[k := v].Keys == m.Keys + {k};
  }
}
