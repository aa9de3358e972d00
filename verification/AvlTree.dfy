// The trees of src/avl/avl.c and src/omap/omap.c as values: rotations, rebalancing,
// insertion and removal, and what they keep.
module AvlTree {
  import opened Memory
  import opened Order

  datatype Tree<K, V> = Leaf | Node(left: Tree<K, V>, data: Entry<K, V>, right: Tree<K, V>, height: int)

  function InOrder<K, V>(t: Tree<K, V>): seq<Entry<K, V>> {
    match t
    case Leaf => []
    case Node(l, x, r, _) => InOrder(l) + [x] + InOrder(r)
  }

  /** The stored height, 0 for the missing node. */
  function Height<K, V>(t: Tree<K, V>): int {
    if t.Leaf? then 0 else t.height
  }

  function Taller(a: int, b: int): int {
    if a > b then a else b
  }

  function Update<K, V>(l: Tree<K, V>, x: Entry<K, V>, r: Tree<K, V>): Tree<K, V> {
    Node(l, x, r, 1 + Taller(Height(l), Height(r)))
  }

  function Balance<K, V>(t: Tree<K, V>): int
    requires t.Node?
  {
    Height(t.left) - Height(t.right)
  }

  function RotateRight<K, V>(y: Tree<K, V>): (x: Tree<K, V>)
    requires y.Node? && y.left.Node?
    ensures x.Node? && InOrder(x) == InOrder(y)
  {
    var x := y.left;
    assert InOrder(x.left) + [x.data] + InOrder(x.right) + [y.data] + InOrder(y.right)
        == InOrder(x.left) + [x.data] + (InOrder(x.right) + [y.data] + InOrder(y.right));
    Update(x.left, x.data, Update(x.right, y.data, y.right))
  }

  function RotateLeft<K, V>(x: Tree<K, V>): (y: Tree<K, V>)
    requires x.Node? && x.right.Node?
    ensures y.Node? && InOrder(y) == InOrder(x)
  {
    var y := x.right;
    assert InOrder(x.left) + [x.data] + InOrder(y.left) + [y.data] + InOrder(y.right)
        == InOrder(x.left) + [x.data] + (InOrder(y.left) + [y.data] + InOrder(y.right));
    Update(Update(x.left, x.data, y.left), y.data, y.right)
  }

  /** Exact stored heights, and balance within one, at every node. */
  predicate Avl<K, V>(t: Tree<K, V>): (ok: bool)
    ensures ok ==> Height(t) >= 0 && (t.Node? <==> Height(t) > 0)
  {
    t.Leaf? || (
      && Avl(t.left) && Avl(t.right)
      && t.height == 1 + Taller(Height(t.left), Height(t.right))
      && -1 <= Balance(t) <= 1)
  }

  function Rebalance<K, V>(l: Tree<K, V>, x: Entry<K, V>, r: Tree<K, V>): (t: Tree<K, V>)
    requires Avl(l) && Avl(r)
    ensures t.Node? && InOrder(t) == InOrder(l) + [x] + InOrder(r)
  {
    var n := Update(l, x, r);
    var bf := Balance(n);
    if bf > 1 && Balance(l) >= 0 then RotateRight(n)
    else if bf > 1 && Balance(l) < 0 then
      var n' := Node(RotateLeft(l), x, r, n.height);
      RotateRight(n')
    else if bf < -1 && Balance(r) <= 0 then RotateLeft(n)
    else if bf < -1 && Balance(r) > 0 then
      var n' := Node(l, x, RotateRight(r), n.height);
      RotateLeft(n')
    else n
  }

  lemma UpdateIsAvl<K, V>(l: Tree<K, V>, x: Entry<K, V>, r: Tree<K, V>)
    requires Avl(l) && Avl(r) && -1 <= Height(l) - Height(r) <= 1
    ensures Avl(Update(l, x, r)) && Height(Update(l, x, r)) == 1 + Taller(Height(l), Height(r))
  {
  }

  /** The four cases of a rebalancing step. */
  lemma RebalanceCases<K, V>(l: Tree<K, V>, x: Entry<K, V>, r: Tree<K, V>)
    requires Avl(l) && Avl(r)
    ensures -1 <= Height(l) - Height(r) <= 1 ==> Rebalance(l, x, r) == Update(l, x, r)
    ensures Height(l) > Height(r) + 1 ==> l.Node?
    ensures Height(l) > Height(r) + 1 && Balance(l) >= 0
      ==> Rebalance(l, x, r) == Update(l.left, l.data, Update(l.right, x, r))
    ensures Height(l) > Height(r) + 1 && Balance(l) < 0
      ==> (l.right.Node? && Rebalance(l, x, r) ==
           Update(Update(l.left, l.data, l.right.left), l.right.data, Update(l.right.right, x, r)))
    ensures Height(r) > Height(l) + 1 ==> r.Node?
    ensures Height(r) > Height(l) + 1 && Balance(r) <= 0
      ==> Rebalance(l, x, r) == Update(Update(l, x, r.left), r.data, r.right)
    ensures Height(r) > Height(l) + 1 && Balance(r) > 0
      ==> (r.left.Node? && Rebalance(l, x, r) ==
           Update(Update(l, x, r.left.left), r.left.data, Update(r.left.right, r.data, r.right)))
  {
    hide InOrder;
  }

  lemma LeftHeavy<K, V>(l: Tree<K, V>, x: Entry<K, V>, r: Tree<K, V>)
    requires Avl(l) && Avl(r) && Height(l) == Height(r) + 2
    ensures Avl(Rebalance(l, x, r)) && Height(r) + 2 <= Height(Rebalance(l, x, r)) <= Height(r) + 3
  {
    hide InOrder, Rebalance;
    RebalanceCases(l, x, r);
    if Balance(l) >= 0 {
      UpdateIsAvl(l.right, x, r);
      UpdateIsAvl(l.left, l.data, Update(l.right, x, r));
    } else {
      var m := l.right;
      assert Avl(m) && Height(m) == Height(r) + 1 && Height(l.left) == Height(r);
      UpdateIsAvl(l.left, l.data, m.left);
      UpdateIsAvl(m.right, x, r);
      UpdateIsAvl(Update(l.left, l.data, m.left), m.data, Update(m.right, x, r));
    }
  }

  lemma RightHeavy<K, V>(l: Tree<K, V>, x: Entry<K, V>, r: Tree<K, V>)
    requires Avl(l) && Avl(r) && Height(r) == Height(l) + 2
    ensures Avl(Rebalance(l, x, r)) && Height(l) + 2 <= Height(Rebalance(l, x, r)) <= Height(l) + 3
  {
    hide InOrder, Rebalance;
    RebalanceCases(l, x, r);
    if Balance(r) <= 0 {
      UpdateIsAvl(l, x, r.left);
      UpdateIsAvl(Update(l, x, r.left), r.data, r.right);
    } else {
      var m := r.left;
      assert Avl(m) && Height(m) == Height(l) + 1 && Height(r.right) == Height(l);
      UpdateIsAvl(l, x, m.left);
      UpdateIsAvl(m.right, r.data, r.right);
      UpdateIsAvl(Update(l, x, m.left), m.data, Update(m.right, r.data, r.right));
    }
  }

  /** One rebalancing step repairs an imbalance of two and loses at most one level. */
  lemma RebalanceKeepsAvl<K, V>(l: Tree<K, V>, x: Entry<K, V>, r: Tree<K, V>)
    requires Avl(l) && Avl(r) && -2 <= Height(l) - Height(r) <= 2
    ensures Avl(Rebalance(l, x, r))
    ensures var h := 1 + Taller(Height(l), Height(r));
      && h - 1 <= Height(Rebalance(l, x, r)) <= h
      && (-1 <= Height(l) - Height(r) <= 1 ==> Height(Rebalance(l, x, r)) == h)
  {
    hide InOrder, Rebalance, Avl;
    if Height(l) - Height(r) == 2 {
      LeftHeavy(l, x, r);
    } else if Height(l) - Height(r) == -2 {
      RightHeavy(l, x, r);
    } else {
      RebalanceCases(l, x, r);
      UpdateIsAvl(l, x, r);
    }
  }

  // ----- Insertion -----

  /** Insert an entry; if the key is present, only its value is replaced. */
  function Insert<K(!new), V>(ord: Ord<K>, t: Tree<K, V>, k: K, v: V): (u: Tree<K, V>)
    requires Avl(t)
    ensures u.Node? && Avl(u) && Height(t) <= Height(u) <= Height(t) + 1
  {
    match t
    case Leaf => Node(Leaf, Entry(k, v), Leaf, 1)
    case Node(l, x, r, h) =>
      var c := ord.Cmp(k, x.key);
      if c < 0 then
        var l' := Insert(ord, l, k, v);
        RebalanceKeepsAvl(l', x, r);
        Rebalance(l', x, r)
      else if c > 0 then
        var r' := Insert(ord, r, k, v);
        RebalanceKeepsAvl(l, x, r');
        Rebalance(l, x, r')
      else
        Node(l, Entry(x.key, v), r, h)
  }

  function Min<K, V>(t: Tree<K, V>): Entry<K, V>
    requires t.Node?
  {
    if t.left.Leaf? then t.data else Min(t.left)
  }

  function Max<K, V>(t: Tree<K, V>): Entry<K, V>
    requires t.Node?
  {
    if t.right.Leaf? then t.data else Max(t.right)
  }

  /** Remove the entry of k; a node with two children takes over its successor. */
  function Remove<K(!new), V>(ord: Ord<K>, t: Tree<K, V>, k: K): (u: Tree<K, V>)
    requires Avl(t)
    ensures Avl(u) && Height(t) - 1 <= Height(u) <= Height(t)
  {
    match t
    case Leaf => Leaf
    case Node(l, x, r, _) =>
      var c := ord.Cmp(k, x.key);
      if c < 0 then
        var l' := Remove(ord, l, k);
        RebalanceKeepsAvl(l', x, r);
        Rebalance(l', x, r)
      else if c > 0 then
        var r' := Remove(ord, r, k);
        RebalanceKeepsAvl(l, x, r');
        Rebalance(l, x, r')
      else if l.Leaf? then r
      else if r.Leaf? then l
      else
        var succ := Min(r);
        var r' := Remove(ord, r, succ.key);
        RebalanceKeepsAvl(l, succ, r');
        Rebalance(l, succ, r')
  }

  function Find<K(!new), V>(ord: Ord<K>, t: Tree<K, V>, k: K): Option<V> {
    match t
    case Leaf => None
    case Node(l, x, r, _) =>
      var c := ord.Cmp(k, x.key);
      if c < 0 then Find(ord, l, k) else if c > 0 then Find(ord, r, k) else Some(x.val)
  }
}
