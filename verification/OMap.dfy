// src/omap/omap.c: the ordered map.
module OMap {
  import opened Bits
  import opened Memory
  import opened Order
  import opened AvlTree
  import opened AvlContents
  import opened AvlNodes
  import opened SearchTrees

  class OMap<K(!new), V> {
    const ord: Ord<K>
    const mem: Allocator
    var root: HeapNode?<K, V>
    var len: nat

    ghost predicate Valid()
      reads this, root, ReprOf(root)
    {
      SearchTree(ord, root, len)
    }

    /** The entries in ascending order of keys. */
    ghost function Entries(): seq<Entry<K, V>>
      reads this, root
    {
      InOrder(TreeOf(root))
    }

    constructor (ord: Ord<K>, mem: Allocator)
      requires ord.Lawful()
      ensures Valid() && Entries() == [] && this.ord == ord && this.mem == mem
    {
      this.ord, this.mem, root, len := ord, mem, null, 0;
    }

    method Set(key: K, value: V) returns (status: Status)
      requires Valid()
      modifies this, ReprOf(root), mem
      ensures Valid() && (status == Ok || (status == OutOfMemory && !mem.generous))
      ensures fresh(ReprOf(root) - old(ReprOf(root)))
      ensures status == Ok ==> Entries() == Put(ord, old(Entries()), key, value)
      ensures status == OutOfMemory ==> TreeOf(root) == old(TreeOf(root))
      ensures status == Ok && Lookup(ord, old(Entries()), key).Some? ==> SameShape(TreeOf(root), old(TreeOf(root)))
      ensures mem.refusals == old(mem.refusals) + if status == OutOfMemory then 1 else 0
      ensures status == OutOfMemory ==> Lookup(ord, Entries(), key).None?
      ensures mem.requests == old(mem.requests) + if Lookup(ord, old(Entries()), key).None? then 1 else 0
    {
      hide HeapNode.Valid, Sorted, AvlTree.Avl, InOrder;
      ghost var t := TreeOf(root);
      InsertKeeps(ord, t, key, value);
      var newRoot, inserted, oom := DoInsert(mem, ord, root, key, value);
      if oom {
        return OutOfMemory;
      }
      root := newRoot;
      if inserted {
        len := len + 1;
      } else {
        OverwriteKeepsShape(ord, t, key, value);
      }
      status := Ok;
    }

    method GetPtr(key: K) returns (value: Option<V>)
      requires Valid()
      ensures value == Lookup(ord, Entries(), key)
    {
      FindIsLookup(ord, TreeOf(root), key);
      value := FindNode(ord, root, key);
    }

    method Remove(key: K) returns (status: Status)
      requires Valid()
      modifies this, ReprOf(root)
      ensures Valid() && ReprOf(root) <= old(ReprOf(root))
      ensures status == if Lookup(ord, old(Entries()), key).Some? then Ok else NotFound
      ensures Entries() == Others(ord, old(Entries()), key)
    {
      hide HeapNode.Valid, Sorted, AvlTree.Avl, InOrder;
      RemoveKeeps(ord, TreeOf(root), key);
      var newRoot, removed := DoRemove(ord, root, key);
      root := newRoot;
      if removed {
        len := len - 1;
      }
      status := if removed then Ok else NotFound;
    }

    method MinEntry() returns (entry: Option<Entry<K, V>>)
      requires Valid()
      ensures entry == if Entries() == [] then None else Some(Entries()[0])
    {
      if root == null {
        return None;
      }
      MinIsFirst(root.tree);
      var n := MinNode(root);
      entry := Some(n.data);
    }

    method MaxEntry() returns (entry: Option<Entry<K, V>>)
      requires Valid()
      ensures entry == if Entries() == [] then None else Some(Entries()[|Entries()| - 1])
    {
      if root == null {
        return None;
      }
      MaxIsLast(root.tree);
      var n := MaxNode(root);
      entry := Some(n.data);
    }

    method Clear()
      requires Valid()
      modifies this
      ensures Valid() && Entries() == [] && root == null
    {
      root, len := null, 0;
    }

    method Execute(op: Op<K, V>) returns (result: Status)
      requires Valid()
      modifies this, ReprOf(root), mem
      ensures Valid() && fresh(ReprOf(root) - old(ReprOf(root)))
      ensures Answers(ord, mem, old(Entries()), op, result)
      ensures Entries() == Effect(ord, old(Entries()), op, result)
      ensures mem.refusals == old(mem.refusals) + if result == OutOfMemory then 1 else 0
    {
      hide HeapNode.Valid, Sorted, AvlTree.Avl, InOrder, SearchTree, Lookup, Put, Others;
      match op {
        case SetOp(k, v) =>
          ghost var before := Entries();
          result := Set(k, v);
          assert result == OutOfMemory ==> Entries() == before;
        case RemoveOp(k) => result := Remove(k);
        case ClearOp => Clear(); result := Ok;
      }
    }

    /** Any run refines a finite map sorted by key, at a height logarithmic in its size. */
    method Run(ops: seq<Op<K, V>>) returns (results: seq<Status>)
      requires Valid()
      modifies this, ReprOf(root), mem
      ensures Valid() && |results| == |ops| && fresh(ReprOf(root) - old(ReprOf(root)))
      ensures Replayed(ord, mem, old(Entries()), ops, results, Entries())
      ensures len == |Entries()| && Pow2(Height(TreeOf(root)) as nat) <= (len + 1) * (len + 1)
      ensures mem.refusals == old(mem.refusals) + Count(results, OutOfMemory)
      decreases |ops|
    {
      hide HeapNode.Valid, Sorted, AvlTree.Avl, InOrder, SearchTree;
      hide Effect, Answers, Replayed, OMap.Valid, OMap.Entries;
      results := [];
      ghost var s := Entries();
      if ops == [] {
        Summary();
        ReplayedNone(ord, mem, s);
      } else {
        var result := Execute(ops[0]);
        ghost var mid := Entries();
        var rest := Run(ops[1..]);
        CountCons(result, rest, OutOfMemory);
        ReplayedCons(ord, mem, s, ops, result, rest, mid, Entries());
        results := [result] + rest;
      }
    }

    /** What holds between any two operations. */
    lemma Summary()
      requires Valid()
      ensures len == |Entries()| && Pow2(Height(TreeOf(root)) as nat) <= (len + 1) * (len + 1)
    {
      HeightIsLogarithmic(ord, root, len);
    }
  }

  lemma ReplayedNone<K(!new), V>(ord: Ord<K>, mem: Allocator, s: seq<Entry<K, V>>)
    ensures Replayed(ord, mem, s, [], [], s)
  {
  }

  lemma ReplayedCons<K(!new), V>(ord: Ord<K>, mem: Allocator, s: seq<Entry<K, V>>, ops: seq<Op<K, V>>,
    result: Status, rest: seq<Status>, mid: seq<Entry<K, V>>, t: seq<Entry<K, V>>)
    requires ops != [] && Answers(ord, mem, s, ops[0], result) && mid == Effect(ord, s, ops[0], result)
    requires Replayed(ord, mem, mid, ops[1..], rest, t)
    ensures Replayed(ord, mem, s, ops, [result] + rest, t)
  {
    hide Answers, Effect;
    assert ([result] + rest)[1..] == rest;
  }

  datatype Op<K, V> = SetOp(key: K, value: V) | RemoveOp(key: K) | ClearOp

  /** One operation on the sorted entries; a set that ran out of memory does nothing. */
  ghost function Effect<K(!new), V>(ord: Ord<K>, s: seq<Entry<K, V>>, op: Op<K, V>, result: Status): seq<Entry<K, V>> {
    match op
    case SetOp(k, v) => if result == OutOfMemory then s else Put(ord, s, k, v)
    case RemoveOp(k) => Others(ord, s, k)
    case ClearOp => []
  }

  /** The status that an operation may report. */
  ghost predicate Answers<K(!new), V>(ord: Ord<K>, mem: Allocator, s: seq<Entry<K, V>>, op: Op<K, V>, result: Status) {
    match op
    case SetOp(_, _) => result == Ok || (result == OutOfMemory && !mem.generous)
    case RemoveOp(k) => result == if Lookup(ord, s, k).Some? then Ok else NotFound
    case ClearOp => result == Ok
  }

  /** The operations take the entries from s to t, with these answers on the way. */
  ghost predicate Replayed<K(!new), V>(
    ord: Ord<K>, mem: Allocator, s: seq<Entry<K, V>>, ops: seq<Op<K, V>>, results: seq<Status>, t: seq<Entry<K, V>>)
    decreases |ops|
  {
    if ops == [] || results == [] then ops == [] && results == [] && s == t
    else
      && Answers(ord, mem, s, ops[0], results[0])
      && Replayed(ord, mem, Effect(ord, s, ops[0], results[0]), ops[1..], results[1..], t)
  }
}
