// src/avl/avl.c: the ordered set, on the same nodes as the ordered map.
module AvlSet {
  import opened Memory
  import opened Order
  import opened AvlTree
  import opened AvlContents
  import opened AvlNodes
  import opened SearchTrees

  class Avl<K(!new)> {
    const ord: Ord<K>
    const mem: Allocator
    var root: HeapNode?<K, ()>
    var len: nat

    ghost predicate Valid()
      reads this, root, ReprOf(root)
    {
      SearchTree(ord, root, len)
    }

    ghost function Elements(): seq<Entry<K, ()>>
      reads this, root
    {
      InOrder(TreeOf(root))
    }

    constructor (ord: Ord<K>, mem: Allocator)
      requires ord.Lawful()
      ensures Valid() && Elements() == [] && this.ord == ord && this.mem == mem
    {
      this.ord, this.mem, root, len := ord, mem, null, 0;
    }

    method Add(e: K) returns (status: Status)
      requires Valid()
      modifies this, ReprOf(root), mem
      ensures Valid() && (status == Ok || status == Duplicate || (status == OutOfMemory && !mem.generous))
      ensures fresh(ReprOf(root) - old(ReprOf(root)))
      ensures status == Ok ==> Lookup(ord, old(Elements()), e).None? && Elements() == Put(ord, old(Elements()), e, ())
      ensures status == Duplicate ==> Lookup(ord, old(Elements()), e).Some?
      ensures status != Ok ==> Elements() == old(Elements())
      ensures mem.refusals == old(mem.refusals) + if status == OutOfMemory then 1 else 0
      ensures mem.requests == old(mem.requests) + if status == Duplicate then 0 else 1
    {
      hide HeapNode.Valid, Sorted, AvlTree.Avl, InOrder;
      ghost var t := TreeOf(root);
      InsertKeeps(ord, t, e, ());
      var newRoot, inserted, oom := DoInsert(mem, ord, root, e, ());
      if oom {
        return OutOfMemory;
      }
      root := newRoot;
      if inserted {
        len := len + 1;
      } else {
        DuplicateChangesNothing(ord, InOrder(t), e);
      }
      status := if inserted then Ok else Duplicate;
    }

    method Contains(e: K) returns (found: bool)
      requires Valid()
      ensures found == Lookup(ord, Elements(), e).Some?
    {
      FindIsLookup(ord, TreeOf(root), e);
      var v := FindNode(ord, root, e);
      found := v.Some?;
    }

    method Remove(e: K) returns (status: Status)
      requires Valid()
      modifies this, ReprOf(root)
      ensures Valid() && ReprOf(root) <= old(ReprOf(root))
      ensures status == if Lookup(ord, old(Elements()), e).Some? then Ok else NotFound
      ensures Elements() == Others(ord, old(Elements()), e)
    {
      hide HeapNode.Valid, Sorted, AvlTree.Avl, InOrder;
      RemoveKeeps(ord, TreeOf(root), e);
      var newRoot, removed := DoRemove(ord, root, e);
      root := newRoot;
      if removed {
        len := len - 1;
      }
      status := if removed then Ok else NotFound;
    }
  }

  lemma DuplicateChangesNothing<K(!new)>(ord: Ord<K>, s: seq<Entry<K, ()>>, e: K)
    requires ord.Lawful() && Sorted(ord, s) && Lookup(ord, s, e).Some?
    ensures Put(ord, s, e, ()) == s
  {
    var i := PutChanges(ord, s, e, ());
    assert s[i].val == ();
  }
}
