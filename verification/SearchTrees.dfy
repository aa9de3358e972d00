// The invariant that src/omap/omap.c and src/avl/avl.c keep about their trees.
module SearchTrees {
  import opened Bits
  import opened Order
  import opened AvlTree
  import opened AvlContents
  import opened AvlNodes

  /** What both containers keep about their tree. */
  ghost predicate SearchTree<K(!new), V>(ord: Ord<K>, root: HeapNode?<K, V>, len: nat)
    reads root, ReprOf(root)
  {
    && ord.Lawful() && Sound(root) && AvlTree.Avl(TreeOf(root))
    && Sorted(ord, InOrder(TreeOf(root))) && len == |InOrder(TreeOf(root))|
  }

  /** The logarithmic height of every reachable tree. */
  lemma HeightIsLogarithmic<K(!new), V>(ord: Ord<K>, root: HeapNode?<K, V>, len: nat)
    requires SearchTree(ord, root, len)
    ensures var h := Height(TreeOf(root));
      h >= 0 && len >= Fib(h + 2) - 1 && Pow2(h) <= (len + 1) * (len + 1)
  {
    FibonacciBound(TreeOf(root));
    LogarithmicHeight(TreeOf(root));
  }

  lemma InsertKeeps<K(!new), V>(ord: Ord<K>, t: Tree<K, V>, k: K, v: V)
    requires ord.Lawful() && AvlTree.Avl(t) && Sorted(ord, InOrder(t))
    ensures var s := InOrder(t);
      && InOrder(Insert(ord, t, k, v)) == Put(ord, s, k, v) && Sorted(ord, Put(ord, s, k, v))
      && Find(ord, t, k) == Lookup(ord, s, k)
      && |Put(ord, s, k, v)| == |s| + (if Lookup(ord, s, k).None? then 1 else 0)
  {
    InsertIsPut(ord, t, k, v);
    PutKeepsSorted(ord, InOrder(t), k, v);
    FindIsLookup(ord, t, k);
    var _ := PutChanges(ord, InOrder(t), k, v);
  }

  lemma RemoveKeeps<K(!new), V>(ord: Ord<K>, t: Tree<K, V>, k: K)
    requires ord.Lawful() && AvlTree.Avl(t) && Sorted(ord, InOrder(t))
    ensures var s := InOrder(t);
      && InOrder(Remove(ord, t, k)) == Others(ord, s, k) && Sorted(ord, Others(ord, s, k))
      && Find(ord, t, k) == Lookup(ord, s, k)
      && |Others(ord, s, k)| == |s| - (if Lookup(ord, s, k).None? then 0 else 1)
      && (Lookup(ord, s, k).None? ==> Others(ord, s, k) == s)
  {
    RemoveIsOthers(ord, t, k);
    FindIsLookup(ord, t, k);
    var _ := OthersChanges(ord, InOrder(t), k);
  }
}
