// The heap nodes of src/avl/avl.c and src/omap/omap.c and the code both files share: each
// method changes links, heights and data in place, and does to the tree what AvlTree says.
module AvlNodes {
  import opened Memory
  import opened Order
  import T = AvlTree

  class HeapNode<K(!new), V> {
    var left: HeapNode?<K, V>
    var right: HeapNode?<K, V>
    var height: int
    var data: Entry<K, V>
    ghost var tree: T.Tree<K, V>
    ghost var Repr: set<HeapNode<K, V>>

    /** The two subtrees are sound, disjoint, and do not contain this node. */
    ghost predicate Linked()
      reads this, left, right, ReprOf(left), ReprOf(right)
    {
      && Sound(left) && Sound(right)
      && ReprOf(left) !! ReprOf(right) && this !in ReprOf(left) && this !in ReprOf(right)
    }

    ghost predicate Valid()
      reads this, Repr
      ensures Valid() ==> this in Repr && tree.Node?
    {
      && this in Repr
      && (left != null ==> left in Repr && left.Repr <= Repr && this !in left.Repr && left.Valid())
      && (right != null ==> right in Repr && right.Repr <= Repr && this !in right.Repr && right.Valid())
      && ReprOf(left) !! ReprOf(right)
      && Repr == {this} + ReprOf(left) + ReprOf(right)
      && tree == T.Node(TreeOf(left), data, TreeOf(right), height)
    }

    /** One level of `Valid`. */
    lemma Open()
      requires Valid()
      ensures Linked() && Repr == {this} + ReprOf(left) + ReprOf(right)
      ensures tree == T.Node(TreeOf(left), data, TreeOf(right), height)
      ensures (left != null <==> tree.left.Node?) && (right != null <==> tree.right.Node?)
    {
    }

    lemma Close()
      requires Linked() && Repr == {this} + ReprOf(left) + ReprOf(right)
      requires tree == T.Node(TreeOf(left), data, TreeOf(right), height)
      ensures Valid()
    {
    }

    constructor (k: K, v: V)
      ensures Valid() && fresh(Repr) && tree == T.Node(T.Leaf, Entry(k, v), T.Leaf, 1)
    {
      left, right, height, data := null, null, 1, Entry(k, v);
      tree := T.Node(T.Leaf, Entry(k, v), T.Leaf, 1);
      Repr := {this};
    }

    /** Recompute the stored height from the children, and the ghost fields with it. */
    method UpdateHeight()
      requires Linked()
      modifies this
      ensures Valid() && left == old(left) && right == old(right) && data == old(data)
      ensures Repr == {this} + old(ReprOf(left)) + old(ReprOf(right))
      ensures tree == T.Update(old(TreeOf(left)), data, old(TreeOf(right)))
    {
      hide HeapNode.Valid;
      height := 1 + T.Taller(HeightOf(left), HeightOf(right));
      tree := T.Node(TreeOf(left), data, TreeOf(right), height);
      Repr := {this} + ReprOf(left) + ReprOf(right);
      Close();
    }
  }

  ghost function ReprOf<K(!new), V>(n: HeapNode?<K, V>): set<HeapNode<K, V>>
    reads n
  {
    if n == null then {} else n.Repr
  }

  ghost function TreeOf<K(!new), V>(n: HeapNode?<K, V>): T.Tree<K, V>
    reads n
  {
    if n == null then T.Leaf else n.tree
  }

  ghost predicate Sound<K(!new), V>(n: HeapNode?<K, V>)
    reads n, ReprOf(n)
  {
    n != null ==> n.Valid()
  }

  function HeightOf<K(!new), V>(n: HeapNode?<K, V>): (h: int)
    requires Sound(n)
    reads n, ReprOf(n)
    ensures h == T.Height(TreeOf(n))
  {
    if n == null then 0 else n.height
  }

  function BalanceOf<K(!new), V>(n: HeapNode<K, V>): (b: int)
    requires n.Valid()
    reads n, n.Repr
    ensures b == T.Balance(n.tree)
  {
    HeightOf(n.left) - HeightOf(n.right)
  }

  method RotateRight<K(!new), V>(y: HeapNode<K, V>) returns (x: HeapNode<K, V>)
    requires y.Valid() && y.left != null
    modifies y, y.left
    ensures x.Valid() && x.Repr == old(y.Repr) && x.tree == T.RotateRight(old(y.tree))
  {
    hide HeapNode.Valid, T.InOrder;
    x := y.left;
    y.Open();
    x.Open();
    y.left := x.right;
    y.UpdateHeight();
    x.right := y;
    x.UpdateHeight();
  }

  method RotateLeft<K(!new), V>(x: HeapNode<K, V>) returns (y: HeapNode<K, V>)
    requires x.Valid() && x.right != null
    modifies x, x.right
    ensures y.Valid() && y.Repr == old(x.Repr) && y.tree == T.RotateLeft(old(x.tree))
  {
    hide HeapNode.Valid, T.InOrder;
    y := x.right;
    x.Open();
    y.Open();
    x.right := y.left;
    x.UpdateHeight();
    y.left := x;
    y.UpdateHeight();
  }

  /** The first half of a double rotation. */
  method TurnLeftChild<K(!new), V>(n: HeapNode<K, V>)
    requires n.Valid() && n.left != null && n.tree.left.Node? && n.tree.left.right.Node?
    modifies n, ReprOf(n.left)
    ensures n.Valid() && n.Repr == old(n.Repr) && n.left != null && n.left in old(ReprOf(n.left))
    ensures n.tree == old(n.tree.(left := T.RotateLeft(n.tree.left)))
  {
    hide HeapNode.Valid, T.InOrder;
    n.Open();
    n.left.Open();
    var l := RotateLeft(n.left);
    n.left := l;
    n.tree := T.Node(l.tree, n.data, TreeOf(n.right), n.height);
    n.Close();
  }

  method TurnRightChild<K(!new), V>(n: HeapNode<K, V>)
    requires n.Valid() && n.right != null && n.tree.right.Node? && n.tree.right.left.Node?
    modifies n, ReprOf(n.right)
    ensures n.Valid() && n.Repr == old(n.Repr) && n.right != null && n.right in old(ReprOf(n.right))
    ensures n.tree == old(n.tree.(right := T.RotateRight(n.tree.right)))
  {
    hide HeapNode.Valid, T.InOrder;
    n.Open();
    n.right.Open();
    var c := RotateRight(n.right);
    n.right := c;
    n.tree := T.Node(TreeOf(n.left), n.data, c.tree, n.height);
    n.Close();
  }

  method Rebalance<K(!new), V>(n: HeapNode<K, V>) returns (r: HeapNode<K, V>)
    requires n.Linked() && T.Avl(TreeOf(n.left)) && T.Avl(TreeOf(n.right))
    modifies n, ReprOf(n.left), ReprOf(n.right)
    ensures r.Valid() && r.Repr == {n} + old(ReprOf(n.left)) + old(ReprOf(n.right))
    ensures r.tree == T.Rebalance(old(TreeOf(n.left)), old(n.data), old(TreeOf(n.right)))
  {
    hide HeapNode.Valid, T.Avl, T.InOrder;
    RebalanceNodes(TreeOf(n.left), n.data, TreeOf(n.right));
    n.UpdateHeight();
    n.Open();
    var bf := BalanceOf(n);
    if bf > 1 && BalanceOf(n.left) >= 0 {
      r := RotateRight(n);
      return;
    }
    if bf > 1 && BalanceOf(n.left) < 0 {
      n.left.Open();
      TurnLeftChild(n);
      r := RotateRight(n);
      return;
    }
    if bf < -1 && BalanceOf(n.right) <= 0 {
      r := RotateLeft(n);
      return;
    }
    if bf < -1 && BalanceOf(n.right) > 0 {
      n.right.Open();
      TurnRightChild(n);
      r := RotateLeft(n);
      return;
    }
    r := n;
  }

  /** The grandchildren a rebalancing step reaches for are there. */
  lemma RebalanceNodes<K, V>(l: T.Tree<K, V>, x: Entry<K, V>, r: T.Tree<K, V>)
    requires T.Avl(l) && T.Avl(r)
    ensures var bf := T.Balance(T.Update(l, x, r));
      && (bf > 1 ==> l.Node? && (T.Balance(l) < 0 ==> l.right.Node?))
      && (bf < -1 ==> r.Node? && (T.Balance(r) > 0 ==> r.left.Node?))
  {
  }

  /**
   * `do_insert` and `do_set`.  A present key changes no link; the map overwrites its value in
   * place, and the set, whose elements carry the value (), is left as it was.
   */
  method DoInsert<K(!new), V>(mem: Allocator, ord: Ord<K>, node: HeapNode?<K, V>, k: K, v: V)
    returns (r: HeapNode?<K, V>, inserted: bool, oom: bool)
    requires Sound(node) && T.Avl(TreeOf(node))
    modifies ReprOf(node), mem
    ensures oom ==> !mem.generous
    ensures oom ==> r == node && Sound(r) && ReprOf(r) == old(ReprOf(node))
    ensures oom ==> TreeOf(r) == old(TreeOf(node)) && !inserted
    ensures !oom ==> r != null && r.Valid() && old(ReprOf(node)) <= r.Repr && fresh(r.Repr - old(ReprOf(node)))
    ensures !oom ==> TreeOf(r) == T.Insert(ord, old(TreeOf(node)), k, v)
    ensures !oom ==> inserted == T.Find(ord, old(TreeOf(node)), k).None?
    ensures mem.requests == old(mem.requests) + if oom || inserted then 1 else 0
    decreases TreeOf(node)
    ensures mem.refusals == old(mem.refusals) + if oom then 1 else 0
    ensures oom ==> T.Find(ord, old(TreeOf(node)), k).None?
  {
    hide HeapNode.Valid, T.InOrder, T.Avl;
    if node == null {
      var ok := mem.Request();
      if !ok {
        return null, false, true;
      }
      var n := new HeapNode(k, v);
      return n, true, false;
    }
    node.Open();
    AvlOpen(node.tree);
    var c := ord.Cmp(k, node.data.key);
    if c < 0 {
      var newLeft;
      newLeft, inserted, oom := DoInsert(mem, ord, node.left, k, v);
      if oom {
        node.Close();
        return node, false, true;  // preserve the existing tree
      }
      node.left := newLeft;
    } else if c > 0 {
      var newRight;
      newRight, inserted, oom := DoInsert(mem, ord, node.right, k, v);
      if oom {
        node.Close();
        return node, false, true;
      }
      node.right := newRight;
    } else {
      node.data := Entry(node.data.key, v);
      node.tree := T.Node(TreeOf(node.left), node.data, TreeOf(node.right), node.height);
      node.Close();
      return node, false, false;
    }
    r := Rebalance(node);
  }

  lemma AvlOpen<K, V>(t: T.Tree<K, V>)
    requires T.Avl(t) && t.Node?
    ensures T.Avl(t.left) && T.Avl(t.right)
  {
  }

  /** The successor: leftmost node of a subtree. */
  method MinNode<K(!new), V>(node: HeapNode<K, V>) returns (n: HeapNode<K, V>)
    requires node.Valid()
    ensures n in node.Repr && n.data == T.Min(node.tree)
  {
    hide HeapNode.Valid;
    n := node;
    while n.left != null
      invariant n.Valid() && n in node.Repr && n.Repr <= node.Repr
      invariant T.Min(n.tree) == T.Min(node.tree)
      decreases n.tree
    {
      n.Open();
      n := n.left;
    }
    n.Open();
  }

  method MaxNode<K(!new), V>(node: HeapNode<K, V>) returns (n: HeapNode<K, V>)
    requires node.Valid()
    ensures n in node.Repr && n.data == T.Max(node.tree)
  {
    hide HeapNode.Valid;
    n := node;
    while n.right != null
      invariant n.Valid() && n in node.Repr && n.Repr <= node.Repr
      invariant T.Max(n.tree) == T.Max(node.tree)
      decreases n.tree
    {
      n.Open();
      n := n.right;
    }
    n.Open();
  }

  /** The descent of `avl_contains` and `omap_get_ptr`. */
  method FindNode<K(!new), V>(ord: Ord<K>, root: HeapNode?<K, V>, k: K) returns (v: Option<V>)
    requires Sound(root)
    ensures v == T.Find(ord, TreeOf(root), k)
  {
    hide HeapNode.Valid;
    var cur := root;
    while cur != null
      invariant cur != null ==> cur.Valid()
      invariant T.Find(ord, TreeOf(cur), k) == T.Find(ord, TreeOf(root), k)
      decreases TreeOf(cur)
    {
      cur.Open();
      var c := ord.Cmp(k, cur.data.key);
      if c < 0 {
        cur := cur.left;
      } else if c > 0 {
        cur := cur.right;
      } else {
        return Some(cur.data.val);
      }
    }
    v := None;
  }

  /** Two children: take over the in-order successor, then delete it below. */
  method TakeSuccessor<K(!new), V>(ord: Ord<K>, node: HeapNode<K, V>)
    requires node.Valid() && T.Avl(node.tree) && node.left != null && node.right != null
    modifies node, node.right.Repr
    ensures node.Linked() && node.left == old(node.left) && ReprOf(node.right) <= old(node.right.Repr)
    ensures TreeOf(node.left) == old(node.tree.left) && ReprOf(node.left) == old(ReprOf(node.left))
    ensures node.data == T.Min(old(node.tree.right))
    ensures TreeOf(node.right) == T.Remove(ord, old(node.tree.right), node.data.key)
    decreases node.tree, 0
  {
    hide HeapNode.Valid, T.InOrder, T.Avl, T.Remove;
    node.Open();
    AvlOpen(node.tree);
    var succ := MinNode(node.right);
    node.data := succ.data;
    var rr, dummy := DoRemove(ord, node.right, node.data.key);
    node.right := rr;
  }

  /** `do_remove` of both files. */
  method DoRemove<K(!new), V>(ord: Ord<K>, node: HeapNode?<K, V>, k: K) returns (r: HeapNode?<K, V>, removed: bool)
    requires Sound(node) && T.Avl(TreeOf(node))
    modifies ReprOf(node)
    ensures Sound(r) && ReprOf(r) <= old(ReprOf(node))
    ensures TreeOf(r) == T.Remove(ord, old(TreeOf(node)), k)
    ensures removed == T.Find(ord, old(TreeOf(node)), k).Some?
    decreases TreeOf(node), 1
  {
    hide HeapNode.Valid, T.InOrder, T.Avl;
    if node == null {
      return null, false;
    }
    node.Open();
    AvlOpen(node.tree);
    var c := ord.Cmp(k, node.data.key);
    if c < 0 {
      var l;
      l, removed := DoRemove(ord, node.left, k);
      node.left := l;
    } else if c > 0 {
      var rr;
      rr, removed := DoRemove(ord, node.right, k);
      node.right := rr;
    } else {
      removed := true;
      if node.left == null {
        return node.right, true;
      }
      if node.right == null {
        return node.left, true;
      }
      TakeSuccessor(ord, node);
    }
    r := Rebalance(node);
  }
}
