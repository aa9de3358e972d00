// Whole runs of the hash set of src/set/set.c.
module SetRuns {
  import opened Bits
  import opened Memory
  import opened RobinHood
  import opened HashSet

  datatype Op<K> = AddOp(key: K) | ContainsOp(key: K) | RemoveOp(key: K) | ClearOp

  datatype Reply = Did(status: Status) | Said(found: bool)

  ghost function Without<K(!new)>(env: Env<K>, s: set<K>, k: K): set<K> {
    set r | r in s && !env.Eq(r, k)
  }

  /** One operation on the set; an addition that ran out of memory, or of a member, does nothing. */
  ghost function Effect<K(!new)>(env: Env<K>, s: set<K>, op: Op<K>, reply: Reply): set<K> {
    match op
    case AddOp(k) => if reply == Did(Ok) then s + {k} else s
    case ContainsOp(_) => s
    case RemoveOp(k) => Without(env, s, k)
    case ClearOp => {}
  }

  /** The reply that an operation on the set s gives. */
  ghost predicate Answers<K(!new)>(env: Env<K>, s: set<K>, op: Op<K>, reply: Reply) {
    match op
    case AddOp(k) => reply == Did(OutOfMemory) || reply == Did(if Member(env, s, k) then Duplicate else Ok)
    case ContainsOp(k) => reply == Said(Member(env, s, k))
    case RemoveOp(k) => reply == Did(if Member(env, s, k) then Ok else NotFound)
    case ClearOp => reply == Did(Ok)
  }

  /** The operations take the set from s to t, with these replies on the way. */
  ghost predicate Replayed<K(!new)>(env: Env<K>, s: set<K>, ops: seq<Op<K>>, replies: seq<Reply>, t: set<K>)
    decreases |ops|
  {
    if ops == [] || replies == [] then ops == [] && replies == [] && s == t
    else
      && Answers(env, s, ops[0], replies[0])
      && Replayed(env, Effect(env, s, ops[0], replies[0]), ops[1..], replies[1..], t)
  }

  /** Elements being pairwise different, taking out the one that equals k takes out all that do. */
  lemma TakesOutOne<K(!new)>(env: Env<K>, s: set<K>, k: K)
    requires env.Lawful() && Apart(env, s)
    ensures !Member(env, s, k) ==> Without(env, s, k) == s
    ensures forall r :: r in s && env.Eq(r, k) ==> Without(env, s, k) == s - {r}
  {
    forall r | r in s && env.Eq(r, k)
      ensures Without(env, s, k) == s - {r}
    {
      forall q | q in s && q != r
        ensures !env.Eq(q, k)
      {
        assert env.Laws(r, k, q) && env.Laws(q, k, r) && env.Laws(k, q, r);
      }
    }
  }

  method Execute<K(==, !new)>(s: HashSet<K>, op: Op<K>) returns (reply: Reply)
    requires s.Valid()
    modifies s, s.buckets, s.heap, s.heap.mem
    ensures s.Valid() && (s.buckets == old(s.buckets) || fresh(s.buckets)) && s.cap >= old(s.cap)
    ensures Answers(s.env, old(s.Elements()), op, reply)
    ensures s.Elements() == Effect(s.env, old(s.Elements()), op, reply)
    ensures reply == Did(OutOfMemory) ==> s.Refuses()
    ensures s.heap.mem.refusals == old(s.heap.mem.refusals) + if reply == Did(OutOfMemory) then 1 else 0
  {
    hide HashSet.Valid, Member, Without, Apart, Env.Lawful;
    s.Summary();
    match op {
      case AddOp(k) => var status := s.Add(k); reply := Did(status);
      case ContainsOp(k) => var found := s.Contains(k); reply := Said(found);
      case RemoveOp(k) =>
        TakesOutOne(s.env, s.Elements(), k);
        var status := s.Remove(k);
        reply := Did(status);
      case ClearOp => s.Clear(); reply := Did(Ok);
    }
  }

  /**
   * Any run, with resizes and refusals anywhere: the set is the set of its classes, the longest probe stays far
   * below 255, and one block is live for each element.
   */
  method Run<K(==, !new)>(s: HashSet<K>, ops: seq<Op<K>>) returns (replies: seq<Reply>)
    requires s.Valid()
    modifies s, s.buckets, s.heap, s.heap.mem
    ensures s.Valid() && (s.buckets == old(s.buckets) || fresh(s.buckets)) && s.cap >= old(s.cap)
    ensures Replayed(s.env, old(s.Elements()), ops, replies, s.Elements())
    ensures Did(OutOfMemory) in replies ==> s.Refuses()
    ensures s.heap.mem.refusals == old(s.heap.mem.refusals) + Count(replies, Did(OutOfMemory))
    ensures s.cap > 0 ==> s.cap == Pow2(s.doublings + 4)
    ensures s.maxPsl <= SET_PSL_THRESHOLD + s.doublings && s.maxPsl <= 182
    ensures s.len == |s.Elements()| == |s.heap.live|
    decreases |ops|
  {
    hide HashSet.Valid, Answers, Effect;
    replies := [];
    s.Summary();
    if ops != [] {
      var reply := Execute(s, ops[0]);
      ghost var refused := reply == Did(OutOfMemory);
      var rest := Run(s, ops[1..]);
      CountCons(reply, rest, Did(OutOfMemory));
      replies := [reply] + rest;
    }
  }
}
