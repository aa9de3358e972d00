// The explicit-stack iterators of src/avl/avl.c and src/omap/omap.c.  They walk the nodes; a tree
// that changes meanwhile makes them invalid.  A refused stack push ends an iteration early.
module TreeIter {
  import opened Memory
  import opened Order
  import opened Seqs
  import opened AvlTree
  import opened AvlNodes
  import OMap
  import AvlSet

  ghost predicate Nodes<K, V>(stack: seq<Tree<K, V>>) {
    forall i :: 0 <= i < |stack| ==> stack[i].Node?
  }

  /** What the stacked nodes, top last, still have to yield: each itself, then its right subtree. */
  ghost function Pending<K, V>(stack: seq<Tree<K, V>>): seq<Entry<K, V>>
    requires Nodes(stack)
  {
    if stack == [] then [] else
      var top := stack[|stack| - 1];
      [top.data] + InOrder(top.right) + Pending(stack[..|stack| - 1])
  }

  ghost function PendingDown<K, V>(stack: seq<Tree<K, V>>): seq<Entry<K, V>>
    requires Nodes(stack)
  {
    if stack == [] then [] else
      var top := stack[|stack| - 1];
      [top.data] + Reverse(InOrder(top.left)) + PendingDown(stack[..|stack| - 1])
  }

  /** The nodes are sound and root these trees. */
  ghost predicate Rooted<K(!new), V>(nodes: seq<HeapNode<K, V>>, trees: seq<Tree<K, V>>)
    reads nodes, set n, o | n in nodes && o in n.Repr :: o
  {
    |nodes| == |trees| && forall i :: 0 <= i < |nodes| ==> nodes[i].Valid() && nodes[i].tree == trees[i]
  }

  /** What an iterator at this state still has to yield is goal. */
  ghost predicate Owes<K, V>(stack: seq<Tree<K, V>>, current: Tree<K, V>, goal: seq<Entry<K, V>>)
    requires Nodes(stack)
  {
    InOrder(current) + Pending(stack) == goal
  }

  lemma OwesPush<K, V>(stack: seq<Tree<K, V>>, current: Tree<K, V>, goal: seq<Entry<K, V>>)
    requires Nodes(stack) && current.Node? && Owes(stack, current, goal)
    ensures Nodes(stack + [current]) && Owes(stack + [current], current.left, goal)
  {
    PendingPush(stack, current);
    Regroup(InOrder(current.left), [current.data], InOrder(current.right), Pending(stack));
  }

  lemma OwesPop<K, V>(stack: seq<Tree<K, V>>, goal: seq<Entry<K, V>>)
    requires Nodes(stack) && Owes(stack, Leaf, goal)
    ensures stack == [] ==> goal == []
    ensures stack != [] ==> var node := stack[|stack| - 1];
      goal != [] && goal[0] == node.data && Owes(stack[..|stack| - 1], node.right, goal[1..])
  {
    if stack != [] {
      var node := stack[|stack| - 1];
      Assoc([node.data], InOrder(node.right), Pending(stack[..|stack| - 1]));
    }
  }

  ghost predicate OwesDown<K, V>(stack: seq<Tree<K, V>>, current: Tree<K, V>, goal: seq<Entry<K, V>>)
    requires Nodes(stack)
  {
    Reverse(InOrder(current)) + PendingDown(stack) == goal
  }

  lemma OwesDownPush<K, V>(stack: seq<Tree<K, V>>, current: Tree<K, V>, goal: seq<Entry<K, V>>)
    requires Nodes(stack) && current.Node? && OwesDown(stack, current, goal)
    ensures Nodes(stack + [current]) && OwesDown(stack + [current], current.right, goal)
  {
    var l, x, r := InOrder(current.left), current.data, InOrder(current.right);
    ReverseConcat(l + [x], r);
    ReverseConcat(l, [x]);
    assert Reverse([x]) == [x] && (stack + [current])[..|stack|] == stack;
    Assoc(Reverse(r), [x], Reverse(l));
    Regroup(Reverse(r), [x], Reverse(l), PendingDown(stack));
  }

  lemma OwesDownPop<K, V>(stack: seq<Tree<K, V>>, goal: seq<Entry<K, V>>)
    requires Nodes(stack) && OwesDown(stack, Leaf, goal)
    ensures stack == [] ==> goal == []
    ensures stack != [] ==> var node := stack[|stack| - 1];
      goal != [] && goal[0] == node.data && OwesDown(stack[..|stack| - 1], node.left, goal[1..])
  {
    if stack != [] {
      var node := stack[|stack| - 1];
      Assoc([node.data], Reverse(InOrder(node.left)), PendingDown(stack[..|stack| - 1]));
    }
  }

  class Iter<K(!new), V> {
    const mem: Allocator
    var stack: seq<HeapNode<K, V>>
    var cap: nat  // of the array that holds stack
    var current: HeapNode?<K, V>
    ghost var trees: seq<Tree<K, V>>  // that the stacked nodes root
    ghost var tree: Tree<K, V>  // that current roots

    ghost predicate Valid()
      reads this, stack, set n, o | n in stack && o in n.Repr :: o, current, ReprOf(current)
      ensures Valid() ==> Nodes(trees)
    {
      Nodes(trees) && Rooted(stack, trees) && Sound(current) && TreeOf(current) == tree && |stack| <= cap
    }

    ghost function Remaining(): seq<Entry<K, V>>
      requires Nodes(trees)
      reads this
    {
      InOrder(tree) + Pending(trees)
    }

    constructor (root: HeapNode?<K, V>, mem: Allocator)
      requires Sound(root)
      ensures Valid() && this.mem == mem && Remaining() == InOrder(TreeOf(root))
    {
      this.mem := mem;
      stack, cap, current, trees, tree := [], 0, root, [], TreeOf(root);
      new;
      AppendNothing(InOrder(tree));
    }

    /** Push the left spine of `current`. */
    method Descend() returns (ok: bool)
      requires Valid()
      modifies this, mem
      ensures Valid() && Owes(trees, tree, old(Remaining()))
      ensures if ok then current == null && tree == Leaf else !mem.generous
      ensures mem.refusals == old(mem.refusals) + if ok then 0 else 1
    {
      hide InOrder, Pending, HeapNode.Valid, Rooted;
      ghost var goal := Remaining();
      while current != null
        invariant Valid() && Owes(trees, tree, goal) && mem.refusals == old(mem.refusals)
        decreases tree
      {
        var room;
        ok, room := mem.MakeRoom(|stack|, cap);
        cap := room;
        if !ok {
          return;
        }
        current.Open();
        OwesPush(trees, tree, goal);
        RootedPush(stack, trees, current);
        stack, trees := stack + [current], trees + [tree];
        current, tree := current.left, tree.left;
      }
      ok := true;
    }

    method Next() returns (out: Option<Entry<K, V>>)
      requires Valid()
      modifies this, mem
      ensures Valid()
      ensures out.Some? ==> old(Remaining()) != [] && out.value == old(Remaining())[0]
      ensures out.Some? ==> Remaining() == old(Remaining())[1..]
      ensures out.None? ==> Remaining() == old(Remaining()) && (Remaining() == [] || !mem.generous)
      ensures mem.generous ==> mem.refusals == old(mem.refusals)
      ensures out.Some? ==> mem.refusals == old(mem.refusals)
      ensures out.None? && Remaining() != [] ==> mem.refusals == old(mem.refusals) + 1
      ensures old(mem.refusals) <= mem.refusals <= old(mem.refusals) + 1
    {
      hide InOrder, Pending, HeapNode.Valid;
      var ok := Descend();
      if !ok {
        return None;
      }
      OwesPop(trees, old(Remaining()));
      if |stack| == 0 {
        return None;
      }
      var node := stack[|stack| - 1];
      node.Open();
      stack, trees := stack[..|stack| - 1], trees[..|stack| - 1];
      out := Some(node.data);
      current, tree := node.right, node.tree.right;
    }

    /** The plain iterator yields the contents in ascending order. */
    method Drain() returns (out: seq<Entry<K, V>>)
      requires Valid()
      modifies this, mem
      ensures Valid() && Adds(out, Remaining(), old(Remaining()))
      ensures out == old(Remaining()) || !mem.generous
      ensures mem.generous ==> mem.refusals == old(mem.refusals)
      ensures mem.refusals == old(mem.refusals) ==> out == old(Remaining())
      ensures old(mem.refusals) <= mem.refusals <= old(mem.refusals) + 1
    {
      hide *;
      out := [];
      Nothing(Remaining());
      while true
        invariant Valid() && Adds(out, Remaining(), old(Remaining())) && mem.refusals == old(mem.refusals)
        decreases |Remaining()|
      {
        AddOne(out, Remaining(), old(Remaining()));
        var e := Next();
        if e.None? {
          break;
        }
        out := out + [e.value];
      }
    }
  }

  class IterRev<K(!new), V> {
    const mem: Allocator
    var stack: seq<HeapNode<K, V>>
    var cap: nat  // of the array that holds stack
    var current: HeapNode?<K, V>
    ghost var trees: seq<Tree<K, V>>  // that the stacked nodes root
    ghost var tree: Tree<K, V>  // that current roots

    ghost predicate Valid()
      reads this, stack, set n, o | n in stack && o in n.Repr :: o, current, ReprOf(current)
      ensures Valid() ==> Nodes(trees)
    {
      Nodes(trees) && Rooted(stack, trees) && Sound(current) && TreeOf(current) == tree && |stack| <= cap
    }

    ghost function Remaining(): seq<Entry<K, V>>
      requires Nodes(trees)
      reads this
    {
      Reverse(InOrder(tree)) + PendingDown(trees)
    }

    constructor (root: HeapNode?<K, V>, mem: Allocator)
      requires Sound(root)
      ensures Valid() && this.mem == mem && Remaining() == Reverse(InOrder(TreeOf(root)))
    {
      this.mem := mem;
      stack, cap, current, trees, tree := [], 0, root, [], TreeOf(root);
      new;
      AppendNothing(Reverse(InOrder(tree)));
    }

    /** Push the right spine of `current`. */
    method Descend() returns (ok: bool)
      requires Valid()
      modifies this, mem
      ensures Valid() && OwesDown(trees, tree, old(Remaining()))
      ensures if ok then current == null && tree == Leaf else !mem.generous
      ensures mem.refusals == old(mem.refusals) + if ok then 0 else 1
    {
      hide InOrder, PendingDown, Reverse, HeapNode.Valid, Rooted;
      ghost var goal := Remaining();
      while current != null
        invariant Valid() && OwesDown(trees, tree, goal) && mem.refusals == old(mem.refusals)
        decreases tree
      {
        var room;
        ok, room := mem.MakeRoom(|stack|, cap);
        cap := room;
        if !ok {
          return;
        }
        current.Open();
        OwesDownPush(trees, tree, goal);
        RootedPush(stack, trees, current);
        stack, trees := stack + [current], trees + [tree];
        current, tree := current.right, tree.right;
      }
      ok := true;
    }

    method Next() returns (out: Option<Entry<K, V>>)
      requires Valid()
      modifies this, mem
      ensures Valid()
      ensures out.Some? ==> old(Remaining()) != [] && out.value == old(Remaining())[0]
      ensures out.Some? ==> Remaining() == old(Remaining())[1..]
      ensures out.None? ==> Remaining() == old(Remaining()) && (Remaining() == [] || !mem.generous)
      ensures mem.generous ==> mem.refusals == old(mem.refusals)
      ensures out.Some? ==> mem.refusals == old(mem.refusals)
      ensures out.None? && Remaining() != [] ==> mem.refusals == old(mem.refusals) + 1
      ensures old(mem.refusals) <= mem.refusals <= old(mem.refusals) + 1
    {
      hide InOrder, PendingDown, Reverse, HeapNode.Valid;
      var ok := Descend();
      if !ok {
        return None;
      }
      OwesDownPop(trees, old(Remaining()));
      if |stack| == 0 {
        return None;
      }
      var node := stack[|stack| - 1];
      node.Open();
      stack, trees := stack[..|stack| - 1], trees[..|stack| - 1];
      out := Some(node.data);
      current, tree := node.left, node.tree.left;
    }

    /** The reverse iterator yields the exact reverse. */
    method Drain() returns (out: seq<Entry<K, V>>)
      requires Valid()
      modifies this, mem
      ensures Valid() && Adds(out, Remaining(), old(Remaining()))
      ensures out == old(Remaining()) || !mem.generous
      ensures mem.generous ==> mem.refusals == old(mem.refusals)
      ensures mem.refusals == old(mem.refusals) ==> out == old(Remaining())
      ensures old(mem.refusals) <= mem.refusals <= old(mem.refusals) + 1
    {
      hide *;
      out := [];
      Nothing(Remaining());
      while true
        invariant Valid() && Adds(out, Remaining(), old(Remaining())) && mem.refusals == old(mem.refusals)
        decreases |Remaining()|
      {
        AddOne(out, Remaining(), old(Remaining()));
        var e := Next();
        if e.None? {
          break;
        }
        out := out + [e.value];
      }
    }
  }

  // ----- Ranges -----

  predicate FromLo<K(!new), V>(ord: Ord<K>, lo: Option<K>, x: Entry<K, V>) {
    lo.Some? ==> ord.Cmp(x.key, lo.value) >= 0
  }

  predicate UpToHi<K(!new), V>(ord: Ord<K>, hi: Option<K>, x: Entry<K, V>) {
    hi.Some? ==> ord.Cmp(x.key, hi.value) <= 0
  }

  function KeepAbove<K(!new), V>(ord: Ord<K>, lo: Option<K>, s: seq<Entry<K, V>>): seq<Entry<K, V>> {
    Filter(s, (x: Entry<K, V>) => FromLo(ord, lo, x))
  }

  function KeepBelow<K(!new), V>(ord: Ord<K>, hi: Option<K>, s: seq<Entry<K, V>>): seq<Entry<K, V>> {
    Filter(s, (x: Entry<K, V>) => UpToHi(ord, hi, x))
  }

  /** The entries with `lo <= key <= hi`, a missing bound being no bound. */
  function Range<K(!new), V>(ord: Ord<K>, lo: Option<K>, hi: Option<K>, s: seq<Entry<K, V>>): seq<Entry<K, V>> {
    Filter(s, (x: Entry<K, V>) => FromLo(ord, lo, x) && UpToHi(ord, hi, x))
  }

  lemma {:induction false} BelowAbove<K(!new), V>(ord: Ord<K>, lo: Option<K>, hi: Option<K>, s: seq<Entry<K, V>>)
    ensures KeepBelow(ord, hi, KeepAbove(ord, lo, s)) == Range(ord, lo, hi, s)
  {
    if s != [] {
      BelowAbove(ord, lo, hi, s[1..]);
      var p := (x: Entry<K, V>) => FromLo(ord, lo, x);
      var rest := KeepAbove(ord, lo, s[1..]);
      if p(s[0]) {
        assert KeepAbove(ord, lo, s) == [s[0]] + rest && ([s[0]] + rest)[1..] == rest;
      } else {
        assert KeepAbove(ord, lo, s) == rest;
      }
    }
  }

  /** Which part of a subtree lies above the lower bound. */
  lemma AboveSplit<K(!new), V>(ord: Ord<K>, lo: Option<K>, l: seq<Entry<K, V>>, x: Entry<K, V>, r: seq<Entry<K, V>>)
    requires ord.Lawful() && Sorted(ord, l + [x] + r)
    ensures FromLo(ord, lo, x) ==> KeepAbove(ord, lo, l + [x] + r) == KeepAbove(ord, lo, l) + [x] + r
    ensures !FromLo(ord, lo, x) ==> KeepAbove(ord, lo, l + [x] + r) == KeepAbove(ord, lo, r)
  {
    var p := (y: Entry<K, V>) => FromLo(ord, lo, y);
    SortedSplit(ord, l, x, r);
    hide Sorted;
    FilterConcat(l + [x], r, p);
    FilterConcat(l, [x], p);
    if FromLo(ord, lo, x) {
      AllFromLo(ord, lo, x, r);
      FilterAll(r, p);
      assert Filter([x], p) == [x];
    } else {
      NoneFromLo(ord, lo, l, x);
      FilterNone(l, p);
      assert Filter([x], p) == [];
    }
  }

  lemma AllFromLo<K(!new), V>(ord: Ord<K>, lo: Option<K>, x: Entry<K, V>, r: seq<Entry<K, V>>)
    requires ord.Lawful() && FromLo(ord, lo, x) && Above(ord, x.key, r)
    ensures forall i :: 0 <= i < |r| ==> FromLo(ord, lo, r[i])
  {
    if lo.Some? {
      forall i | 0 <= i < |r|
        ensures FromLo(ord, lo, r[i])
      {
        Trans(ord, lo.value, x.key, r[i].key);
      }
    }
  }

  lemma NoneFromLo<K(!new), V>(ord: Ord<K>, lo: Option<K>, l: seq<Entry<K, V>>, x: Entry<K, V>)
    requires ord.Lawful() && !FromLo(ord, lo, x) && Below(ord, l, x.key)
    ensures forall i :: 0 <= i < |l| ==> !FromLo(ord, lo, l[i])
  {
    forall i | 0 <= i < |l|
      ensures !FromLo(ord, lo, l[i])
    {
      Trans(ord, l[i].key, x.key, lo.value);
    }
  }

  /** Past the first entry beyond the upper bound there is nothing to yield. */
  lemma BelowStops<K(!new), V>(ord: Ord<K>, hi: Option<K>, s: seq<Entry<K, V>>)
    requires ord.Lawful() && Sorted(ord, s) && s != []
    ensures UpToHi(ord, hi, s[0]) ==> KeepBelow(ord, hi, s) == [s[0]] + KeepBelow(ord, hi, s[1..])
    ensures !UpToHi(ord, hi, s[0]) ==> KeepBelow(ord, hi, s) == []
  {
    if !UpToHi(ord, hi, s[0]) {
      forall i | 0 <= i < |s|
        ensures !UpToHi(ord, hi, s[i])
      {
        Trans(ord, hi.value, s[0].key, s[i].key);
      }
      FilterNone(s, (x: Entry<K, V>) => UpToHi(ord, hi, x));
    }
  }

  lemma PendingEmpty<K, V>()
    ensures Nodes<K, V>([]) && Pending<K, V>([]) == []
  {
  }

  lemma PendingPush<K, V>(stack: seq<Tree<K, V>>, node: Tree<K, V>)
    requires Nodes(stack) && node.Node?
    ensures Nodes(stack + [node])
    ensures Pending(stack + [node]) == [node.data] + InOrder(node.right) + Pending(stack)
  {
    assert (stack + [node])[..|stack|] == stack;
  }

  lemma Regroup<E>(a: seq<E>, b: seq<E>, c: seq<E>, d: seq<E>)
    ensures a + b + c + d == a + (b + c + d)
  {
  }

  lemma AvlChildren<K, V>(t: Tree<K, V>)
    requires t.Node? && Avl(t)
    ensures Avl(t.left) && Avl(t.right) && Height(t.left) < Height(t) && Height(t.right) < Height(t)
  {
  }

  /** One step of the descent towards the lower bound. */
  lemma LoStep<K(!new), V>(ord: Ord<K>, lo: Option<K>, node: Tree<K, V>, rest: seq<Entry<K, V>>)
    requires ord.Lawful() && lo.Some? && node.Node? && Avl(node) && Sorted(ord, InOrder(node))
    ensures Avl(node.left) && Avl(node.right)
    ensures Height(node.left) < Height(node) && Height(node.right) < Height(node)
    ensures Sorted(ord, InOrder(node.left)) && Sorted(ord, InOrder(node.right))
    ensures ord.Cmp(node.data.key, lo.value) < 0 ==>
      KeepAbove(ord, lo, InOrder(node)) == KeepAbove(ord, lo, InOrder(node.right))
    ensures ord.Cmp(node.data.key, lo.value) >= 0 ==>
      KeepAbove(ord, lo, InOrder(node)) + rest
      == KeepAbove(ord, lo, InOrder(node.left)) + ([node.data] + InOrder(node.right) + rest)
  {
    var l, x, r := InOrder(node.left), node.data, InOrder(node.right);
    assert InOrder(node) == l + [x] + r;
    AvlChildren(node);
    hide InOrder, KeepAbove, Sorted, Avl;
    AboveSplit(ord, lo, l, x, r);
    SortedSplit(ord, l, x, r);
    Regroup(KeepAbove(ord, lo, l), [x], r, rest);
  }

  /** On the way down: what is above the bound in t lies in the subtree at hand and with the stacked nodes. */
  ghost predicate Priming<K(!new), V>(
    ord: Ord<K>, lo: Option<K>, t: Tree<K, V>, node: Tree<K, V>, stack: seq<Tree<K, V>>)
    requires Nodes(stack)
  {
    && Avl(node) && Sorted(ord, InOrder(node)) && |stack| + Height(node) <= Height(t)
    && KeepAbove(ord, lo, InOrder(t)) == KeepAbove(ord, lo, InOrder(node)) + Pending(stack)
  }

  lemma PrimingStarts<K(!new), V>(ord: Ord<K>, lo: Option<K>, t: Tree<K, V>)
    requires Avl(t) && Sorted(ord, InOrder(t))
    ensures Nodes<K, V>([]) && Priming(ord, lo, t, t, [])
  {
    hide InOrder, KeepAbove, Sorted, Avl, Height;
    AppendNothing(KeepAbove(ord, lo, InOrder(t)));
  }

  lemma PrimingStep<K(!new), V>(
    ord: Ord<K>, lo: Option<K>, t: Tree<K, V>, node: Tree<K, V>, stack: seq<Tree<K, V>>)
    requires ord.Lawful() && lo.Some? && Nodes(stack) && node.Node? && Priming(ord, lo, t, node, stack)
    ensures ord.Cmp(node.data.key, lo.value) < 0 ==> Priming(ord, lo, t, node.right, stack)
    ensures ord.Cmp(node.data.key, lo.value) >= 0 ==>
      Nodes(stack + [node]) && Priming(ord, lo, t, node.left, stack + [node])
  {
    LoStep(ord, lo, node, Pending(stack));
    PendingPush(stack, node);
    hide InOrder, KeepAbove, Pending, Sorted, Avl, Height;
  }

  lemma LoDone<K(!new), V>(ord: Ord<K>, lo: Option<K>, t: Tree<K, V>, node: Tree<K, V>, stack: seq<Tree<K, V>>)
    requires ord.Lawful() && Sorted(ord, InOrder(t)) && Nodes(stack) && Priming(ord, lo, t, node, stack)
    ensures EndsWith(KeepAbove(ord, lo, InOrder(t)), Pending(stack)) && Sorted(ord, Pending(stack))
    ensures |stack| <= Height(t)
    ensures node.Leaf? ==> KeepAbove(ord, lo, InOrder(t)) == Pending(stack)
  {
    hide InOrder, KeepAbove, Pending, Sorted, Avl, Height, EndsWith;
    AboveIsSorted(ord, lo, InOrder(t));
    AvlLeaf(node);
    EndOf(KeepAbove(ord, lo, InOrder(node)), Pending(stack));
    SortedEnd(ord, KeepAbove(ord, lo, InOrder(t)), Pending(stack));
    NoneAbove<K, V>(ord, lo);
    HeadOf([], Pending(stack));
  }

  lemma AboveIsSorted<K(!new), V>(ord: Ord<K>, lo: Option<K>, s: seq<Entry<K, V>>)
    requires ord.Lawful() && Sorted(ord, s)
    ensures Sorted(ord, KeepAbove(ord, lo, s))
  {
    var _ := AboveIsSuffix(ord, lo, s);
  }

  lemma AvlLeaf<K, V>(t: Tree<K, V>)
    requires Avl(t)
    ensures Height(t) >= 0 && (t.Leaf? ==> InOrder(t) == [])
  {
  }

  lemma NoneAbove<K(!new), V>(ord: Ord<K>, lo: Option<K>)
    ensures KeepAbove<K, V>(ord, lo, []) == []
  {
  }

  lemma NothingLeft<K(!new), V>(ord: Ord<K>, hi: Option<K>)
    ensures InOrder<K, V>(Leaf) + Pending([]) == [] && KeepBelow<K, V>(ord, hi, []) == []
    ensures Sorted<K, V>(ord, [])
  {
  }

  lemma AllAbove<K(!new), V>(ord: Ord<K>, lo: Option<K>, s: seq<Entry<K, V>>)
    requires lo.None?
    ensures KeepAbove(ord, lo, s) == s
  {
    FilterAll(s, (x: Entry<K, V>) => FromLo(ord, lo, x));
  }

  lemma HeightIsNatural<K, V>(t: Tree<K, V>)
    requires Avl(t)
    ensures Height(t) >= 0
  {
  }

  lemma RootedEmpty<K(!new), V>()
    ensures Nodes<K, V>([]) && Pending<K, V>([]) == [] && Rooted<K, V>([], [])
  {
  }

  lemma NoNode<K(!new), V>()
    ensures TreeOf<K, V>(null) == Leaf
  {
  }

  lemma RootedPush<K(!new), V>(nodes: seq<HeapNode<K, V>>, trees: seq<Tree<K, V>>, node: HeapNode<K, V>)
    requires Rooted(nodes, trees) && node.Valid()
    ensures Rooted(nodes + [node], trees + [node.tree])
  {
  }

  lemma SoundIs<K(!new), V>(node: HeapNode<K, V>)
    requires Sound(node)
    ensures node.Valid() && node.tree.Node? && TreeOf(node) == node.tree
  {
  }

  lemma SoundChildren<K(!new), V>(node: HeapNode<K, V>)
    requires node.Valid()
    ensures Sound(node.left) && Sound(node.right)
    ensures TreeOf(node.left) == node.tree.left && TreeOf(node.right) == node.tree.right
    ensures node.data == node.tree.data
  {
  }

  /** An iterator primed without all of its memory lacks entries at the front. */
  ghost predicate EndsWith<E>(whole: seq<E>, part: seq<E>) {
    |part| <= |whole| && whole[|whole| - |part|..] == part
  }

  lemma EndOf<E>(front: seq<E>, part: seq<E>)
    ensures EndsWith(front + part, part)
  {
  }

  lemma EndOfItself<E>(s: seq<E>)
    ensures EndsWith(s, s)
  {
  }

  lemma FilterEnd<E>(whole: seq<E>, part: seq<E>, p: E -> bool)
    requires EndsWith(whole, part)
    ensures EndsWith(Filter(whole, p), Filter(part, p))
  {
    var front := whole[..|whole| - |part|];
    assert whole == front + part;
    FilterConcat(front, part, p);
  }

  lemma SortedEnd<K(!new), V>(ord: Ord<K>, whole: seq<Entry<K, V>>, part: seq<Entry<K, V>>)
    requires Sorted(ord, whole) && EndsWith(whole, part)
    ensures Sorted(ord, part)
  {
    var n := |whole| - |part|;
    forall i, j | 0 <= i < j < |part|
      ensures ord.Cmp(part[i].key, part[j].key) < 0
    {
      assert part[i] == whole[n + i] && part[j] == whole[n + j];
    }
  }

  lemma BelowEnd<K(!new), V>(ord: Ord<K>, hi: Option<K>, whole: seq<Entry<K, V>>, part: seq<Entry<K, V>>)
    requires EndsWith(whole, part)
    ensures EndsWith(KeepBelow(ord, hi, whole), KeepBelow(ord, hi, part))
  {
    FilterEnd(whole, part, (x: Entry<K, V>) => UpToHi(ord, hi, x));
  }

  class RangeIter<K(!new), V> {
    const mem: Allocator
    const ord: Ord<K>
    const hi: Option<K>
    var stack: seq<HeapNode<K, V>>
    var cap: nat  // of the array that holds stack
    var current: HeapNode?<K, V>
    ghost var trees: seq<Tree<K, V>>  // that the stacked nodes root
    ghost var tree: Tree<K, V>  // that current roots

    ghost function Remaining(): seq<Entry<K, V>>
      requires Nodes(trees)
      reads this
    {
      InOrder(tree) + Pending(trees)
    }

    ghost predicate OnNodes()
      reads this, stack, set n, o | n in stack && o in n.Repr :: o, current, ReprOf(current)
    {
      Nodes(trees) && Rooted(stack, trees) && Sound(current) && TreeOf(current) == tree && |stack| <= cap
    }

    ghost predicate Valid()
      reads this, stack, set n, o | n in stack && o in n.Repr :: o, current, ReprOf(current)
      ensures Valid() ==> Nodes(trees)
    {
      ord.Lawful() && OnNodes() && Sorted(ord, Remaining())
    }

    ghost function Yields(): seq<Entry<K, V>>
      requires Nodes(trees)
      reads this
    {
      KeepBelow(ord, hi, Remaining())
    }

    /** The bounds decide what there is to yield; without the memory to prime it some is missing at the front. */
    constructor (ord: Ord<K>, root: HeapNode?<K, V>, lo: Option<K>, hi: Option<K>, mem: Allocator)
      requires ord.Lawful() && Sound(root) && Avl(TreeOf(root)) && Sorted(ord, InOrder(TreeOf(root)))
      modifies mem
      ensures old(mem.refusals) <= mem.refusals <= old(mem.refusals) + 1
      ensures Valid() && this.ord == ord && this.mem == mem
      ensures EndsWith(Range(ord, lo, hi, InOrder(TreeOf(root))), Yields())
      ensures mem.generous ==> mem.refusals == old(mem.refusals)
      ensures mem.refusals == old(mem.refusals) ==> Yields() == Range(ord, lo, hi, InOrder(TreeOf(root)))
      ensures |stack| <= Height(TreeOf(root))
    {
      this.ord, this.hi, this.mem := ord, hi, mem;
      stack, cap, current, trees, tree := [], 0, root, [], TreeOf(root);
      new;
      hide HeapNode.Valid, Sorted, Avl, Pending, InOrder, KeepBelow, KeepAbove, Range, EndsWith;
      ghost var t := TreeOf(root);
      PendingEmpty<K, V>();
      AppendNothing(InOrder(t));
      if lo.Some? {
        current, tree := null, Leaf;
        PushLo(root, lo);
      } else {
        AllAbove(ord, lo, InOrder(t));
        HeightIsNatural(t);
        EndOfItself(InOrder(t));
      }
      BelowAbove(ord, lo, hi, InOrder(t));
      BelowEnd(ord, hi, KeepAbove(ord, lo, InOrder(t)), Remaining());
    }

    /** Stack the nodes of the search path to the lower bound that are not below it. */
    method PushLo(root: HeapNode?<K, V>, lo: Option<K>)
      requires ord.Lawful() && Sound(root) && Avl(TreeOf(root)) && Sorted(ord, InOrder(TreeOf(root))) && lo.Some?
      requires stack == [] && cap == 0 && trees == [] && current == null && tree == Leaf
      modifies this, mem
      ensures Valid() && EndsWith(KeepAbove(ord, lo, InOrder(TreeOf(root))), Remaining())
      ensures mem.generous ==> mem.refusals == old(mem.refusals)
      ensures old(mem.refusals) <= mem.refusals <= old(mem.refusals) + 1
      ensures mem.refusals == old(mem.refusals) ==> Remaining() == KeepAbove(ord, lo, InOrder(TreeOf(root)))
      ensures |stack| <= Height(TreeOf(root))
    {
      hide *;
      ghost var t := TreeOf(root);
      var node := root;
      RootedEmpty<K, V>();
      PrimingStarts(ord, lo, t);
      while node != null
        invariant Nodes(trees) && Rooted(stack, trees) && Sound(node) && |stack| <= cap
        invariant mem.refusals == old(mem.refusals)
        invariant current == null && tree == Leaf && |stack| == |trees|
        invariant Priming(ord, lo, t, TreeOf(node), trees)
        decreases TreeOf(node)
      {
        SoundIs(node);
        node.Open();
        PrimingStep(ord, lo, t, node.tree, trees);
        RootedPush(stack, trees, node);
        SoundChildren(node);
        if ord.Cmp(node.data.key, lo.value) < 0 {
          node := node.right;
        } else {
          var ok, room := mem.MakeRoom(|stack|, cap);
          cap := room;
          if !ok {
            break;
          }
          stack, trees := stack + [node], trees + [node.tree];
          node := node.left;
        }
      }
      NoNode<K, V>();
      LoDone(ord, lo, t, TreeOf(node), trees);
      RemainingIs();
      ValidIf();
    }

    lemma RemainingIs()
      requires Nodes(trees)
      ensures Remaining() == InOrder(tree) + Pending(trees)
      ensures tree == Leaf ==> Remaining() == Pending(trees)
    {
    }

    lemma ValidIf()
      requires |stack| <= cap
      requires ord.Lawful() && Nodes(trees) && Rooted(stack, trees) && current == null && tree == Leaf
      requires Sorted(ord, Remaining())
      ensures Valid()
    {
    }

    /** Push the left spine of `current`. */
    method Descend(ghost rest: seq<Entry<K, V>>) returns (ok: bool)
      requires OnNodes() && Owes(trees, tree, rest)
      modifies this, mem
      ensures OnNodes() && Owes(trees, tree, rest)
      ensures if ok then current == null && tree == Leaf else !mem.generous
      ensures mem.refusals == old(mem.refusals) + if ok then 0 else 1
    {
      hide InOrder, Pending, HeapNode.Valid, Rooted;
      while current != null
        invariant OnNodes() && Owes(trees, tree, rest) && mem.refusals == old(mem.refusals)
        decreases tree
      {
        var room;
        ok, room := mem.MakeRoom(|stack|, cap);
        cap := room;
        if !ok {
          return;
        }
        current.Open();
        OwesPush(trees, tree, rest);
        RootedPush(stack, trees, current);
        stack, trees := stack + [current], trees + [tree];
        current, tree := current.left, tree.left;
      }
      ok := true;
    }

    lemma RemainingOwed(rest: seq<Entry<K, V>>)
      requires Nodes(trees)
      ensures Owes(trees, tree, rest) <==> Remaining() == rest
    {
    }

    lemma NothingRemains()
      ensures trees == [] && tree == Leaf ==> Remaining() == []
    {
    }

    method Pop(ghost rest: seq<Entry<K, V>>) returns (node: HeapNode<K, V>)
      requires OnNodes() && current == null && tree == Leaf && Owes(trees, Leaf, rest) && stack != []
      modifies this
      ensures OnNodes() && current == null && tree == Leaf
      ensures rest != [] && rest[0] == node.data && Sound(node.right) && Owes(trees, TreeOf(node.right), rest[1..])
    {
      hide InOrder, Pending, HeapNode.Valid, Owes;
      OwesPop(trees, rest);
      node := stack[|stack| - 1];
      node.Open();
      SoundChildren(node);
      stack, trees := stack[..|stack| - 1], trees[..|stack| - 1];
    }

    method Next() returns (out: Option<Entry<K, V>>)
      requires Valid()
      modifies this, mem
      ensures Valid()
      ensures out.Some? ==> old(Yields()) != [] && out.value == old(Yields())[0] && Yields() == old(Yields())[1..]
      ensures out.None? ==> Yields() == old(Yields()) && (Yields() == [] || !mem.generous)
      ensures mem.generous ==> mem.refusals == old(mem.refusals)
      ensures out.Some? ==> mem.refusals == old(mem.refusals)
      ensures out.None? && Yields() != [] ==> mem.refusals == old(mem.refusals) + 1
      ensures old(mem.refusals) <= mem.refusals <= old(mem.refusals) + 1
    {
      hide InOrder, Pending, Sorted, KeepBelow, HeapNode.Valid, Owes, Remaining;
      ghost var rest := Remaining();
      RemainingOwed(rest);
      var ok := Descend(rest);
      RemainingOwed(rest);
      if !ok {
        return None;
      }
      NothingLeft<K, V>(ord, hi);
      NothingRemains();
      if |stack| == 0 {
        OwesPop(trees, rest);
        assert trees == [] && rest == [];
        return None;
      }
      var node := Pop(rest);
      BelowStops(ord, hi, rest);
      SortedTail(ord, rest);
      if hi.Some? && ord.Cmp(node.data.key, hi.value) > 0 {
        stack, trees := [], [];
        current, tree := null, Leaf;
        NothingRemains();
        return None;
      }
      out := Some(node.data);
      current, tree := node.right, TreeOf(node.right);
      RemainingOwed(rest[1..]);
    }

    /** The range iterator yields exactly the entries in range. */
    method Drain() returns (out: seq<Entry<K, V>>)
      requires Valid()
      modifies this, mem
      ensures Valid() && Adds(out, Yields(), old(Yields()))
      ensures out == old(Yields()) || !mem.generous
      ensures mem.generous ==> mem.refusals == old(mem.refusals)
      ensures mem.refusals == old(mem.refusals) ==> out == old(Yields())
      ensures old(mem.refusals) <= mem.refusals <= old(mem.refusals) + 1
    {
      hide *;
      out := [];
      Nothing(Yields());
      while true
        invariant Valid() && Adds(out, Yields(), old(Yields())) && mem.refusals == old(mem.refusals)
        decreases |Yields()|
      {
        AddOne(out, Yields(), old(Yields()));
        var e := Next();
        if e.None? {
          break;
        }
        out := out + [e.value];
      }
    }
  }

  /** The entries above the lower bound are a suffix. */
  lemma {:induction false} AboveIsSuffix<K(!new), V>(ord: Ord<K>, lo: Option<K>, s: seq<Entry<K, V>>) returns (i: nat)
    requires ord.Lawful() && Sorted(ord, s)
    ensures i <= |s| && KeepAbove(ord, lo, s) == s[i..]
  {
    if s == [] {
      i := 0;
    } else if FromLo(ord, lo, s[0]) {
      i := 0;
      assert [] + [s[0]] + s[1..] == s;
      AboveSplit(ord, lo, [], s[0], s[1..]);
      assert KeepAbove(ord, lo, s[..0]) == [] == s[..0];
    } else {
      var j := AboveIsSuffix(ord, lo, s[1..]);
      i := j + 1;
    }
  }

  // ----- Over the containers

  /** What an iterator yields when memory may run out: a part without gaps. */
  ghost predicate PartOf<E>(out: seq<E>, whole: seq<E>) {
    exists i, j :: 0 <= i <= j <= |whole| && out == whole[i..j]
  }

  lemma PartIs<E>(out: seq<E>, rest: seq<E>, due: seq<E>, whole: seq<E>)
    requires Adds(out, rest, due) && EndsWith(whole, due)
    ensures PartOf(out, whole)
  {
    var i := |whole| - |due|;
    assert due[..|out|] == out;
    assert out == whole[i..i + |out|];
  }

  lemma NoPart<E>(whole: seq<E>)
    ensures PartOf([], whole)
  {
    assert whole[0..0] == [];
  }

  /** `omap_iter`, drained: the entries in ascending order of keys, up to where memory ran out. */
  method Ascending<K(!new), V>(m: OMap.OMap<K, V>) returns (out: seq<Entry<K, V>>)
    requires m.Valid()
    modifies m.mem
    ensures out <= m.Entries() && (m.mem.generous ==> m.mem.refusals == old(m.mem.refusals))
    ensures m.mem.refusals == old(m.mem.refusals) ==> out == m.Entries()
  {
    out := DrainUp(m.root, m.mem);
  }

  /** `omap_iter_rev`, drained. */
  method Descending<K(!new), V>(m: OMap.OMap<K, V>) returns (out: seq<Entry<K, V>>)
    requires m.Valid()
    modifies m.mem
    ensures out <= Reverse(m.Entries()) && (m.mem.generous ==> m.mem.refusals == old(m.mem.refusals))
    ensures m.mem.refusals == old(m.mem.refusals) ==> out == Reverse(m.Entries())
    ensures m.mem.refusals == old(m.mem.refusals) ==>
      |out| == |m.Entries()| && forall i :: 0 <= i < |out| ==> out[i] == m.Entries()[|out| - 1 - i]
  {
    out := DrainDown(m.root, m.mem);
    ReverseAt(m.Entries());
  }

  /** `omap_iter_range`, drained: the entries in range, and no others. */
  method InRange<K(!new), V>(m: OMap.OMap<K, V>, lo: Option<K>, hi: Option<K>) returns (out: seq<Entry<K, V>>)
    requires m.Valid()
    modifies m.mem
    ensures PartOf(out, Range(m.ord, lo, hi, m.Entries())) && Sorted(m.ord, out)
    ensures m.mem.generous ==> m.mem.refusals == old(m.mem.refusals)
    ensures m.mem.refusals == old(m.mem.refusals) ==> out == Range(m.ord, lo, hi, m.Entries())
    ensures forall x :: x in out ==>
      x in m.Entries()
      && (lo.Some? ==> m.ord.Cmp(x.key, lo.value) >= 0) && (hi.Some? ==> m.ord.Cmp(x.key, hi.value) <= 0)
    ensures m.mem.refusals == old(m.mem.refusals) ==> forall x :: x in m.Entries() ==>
      (lo.Some? ==> m.ord.Cmp(x.key, lo.value) >= 0) && (hi.Some? ==> m.ord.Cmp(x.key, hi.value) <= 0) ==> x in out
  {
    hide InOrder, Sorted, Avl, Range, PartOf, HeapNode.Valid;
    out := DrainRange(m.ord, m.root, lo, hi, m.mem);
  }

  /** `avl_iter_range`, drained. */
  method ElementsInRange<K(!new)>(s: AvlSet.Avl<K>, lo: Option<K>, hi: Option<K>) returns (out: seq<Entry<K, ()>>)
    requires s.Valid()
    modifies s.mem
    ensures PartOf(out, Range(s.ord, lo, hi, s.Elements())) && Sorted(s.ord, out)
    ensures s.mem.generous ==> s.mem.refusals == old(s.mem.refusals)
    ensures s.mem.refusals == old(s.mem.refusals) ==> out == Range(s.ord, lo, hi, s.Elements())
    ensures forall x :: x in out ==>
      x in s.Elements()
      && (lo.Some? ==> s.ord.Cmp(x.key, lo.value) >= 0) && (hi.Some? ==> s.ord.Cmp(x.key, hi.value) <= 0)
    ensures s.mem.refusals == old(s.mem.refusals) ==> forall x :: x in s.Elements() ==>
      (lo.Some? ==> s.ord.Cmp(x.key, lo.value) >= 0) && (hi.Some? ==> s.ord.Cmp(x.key, hi.value) <= 0) ==> x in out
  {
    hide InOrder, Sorted, Avl, Range, PartOf, HeapNode.Valid;
    out := DrainRange(s.ord, s.root, lo, hi, s.mem);
  }

  method DrainUp<K(!new), V>(root: HeapNode?<K, V>, mem: Allocator) returns (out: seq<Entry<K, V>>)
    requires Sound(root)
    modifies mem
    ensures out <= InOrder(TreeOf(root)) && (mem.generous ==> mem.refusals == old(mem.refusals))
    ensures mem.refusals == old(mem.refusals) ==> out == InOrder(TreeOf(root))
  {
    hide InOrder, Pending, HeapNode.Valid;
    var ok := mem.Request();
    if !ok {
      return [];
    }
    var it := new Iter(root, mem);
    out := it.Drain();
  }

  method DrainDown<K(!new), V>(root: HeapNode?<K, V>, mem: Allocator) returns (out: seq<Entry<K, V>>)
    requires Sound(root)
    modifies mem
    ensures out <= Reverse(InOrder(TreeOf(root))) && (mem.generous ==> mem.refusals == old(mem.refusals))
    ensures mem.refusals == old(mem.refusals) ==> out == Reverse(InOrder(TreeOf(root)))
  {
    hide InOrder, PendingDown, HeapNode.Valid, Reverse;
    var ok := mem.Request();
    if !ok {
      return [];
    }
    var it := new IterRev(root, mem);
    out := it.Drain();
  }

  /** Exactly the entries within both bounds, the bounds themselves included, in order. */
  lemma RangeHolds<K(!new), V>(ord: Ord<K>, lo: Option<K>, hi: Option<K>, s: seq<Entry<K, V>>)
    requires Sorted(ord, s)
    ensures Sorted(ord, Range(ord, lo, hi, s))
    ensures forall x :: x in Range(ord, lo, hi, s) <==>
      x in s && (lo.Some? ==> ord.Cmp(x.key, lo.value) >= 0) && (hi.Some? ==> ord.Cmp(x.key, hi.value) <= 0)
  {
    forall x
      ensures x in Range(ord, lo, hi, s) <==>
        x in s && (lo.Some? ==> ord.Cmp(x.key, lo.value) >= 0) && (hi.Some? ==> ord.Cmp(x.key, hi.value) <= 0)
    {
      FilterHolds(s, (x: Entry<K, V>) => FromLo(ord, lo, x) && UpToHi(ord, hi, x), x);
    }
    FilterSorted(ord, s, (x: Entry<K, V>) => FromLo(ord, lo, x) && UpToHi(ord, hi, x));
  }

  lemma {:induction false} FilterSorted<K(!new), V>(ord: Ord<K>, s: seq<Entry<K, V>>, p: Entry<K, V> -> bool)
    requires Sorted(ord, s)
    ensures Sorted(ord, Filter(s, p))
  {
    if s != [] {
      SortedTail(ord, s);
      FilterSorted(ord, s[1..], p);
      if p(s[0]) {
        assert Filter(s, p) == [s[0]] + Filter(s[1..], p);
        var rest := Filter(s[1..], p);
        forall i | 0 <= i < |rest|
          ensures ord.Cmp(s[0].key, rest[i].key) < 0
        {
          var x := rest[i];
          FilterHolds(s[1..], p, x);
          assert x in rest;
          var j :| 0 <= j < |s[1..]| && s[1..][j] == x;
          assert s[j + 1] == x;
        }
      }
    }
  }

  lemma PartHolds<K(!new), V>(
    ord: Ord<K>, lo: Option<K>, hi: Option<K>, s: seq<Entry<K, V>>, out: seq<Entry<K, V>>)
    requires Sorted(ord, s) && PartOf(out, Range(ord, lo, hi, s))
    ensures Sorted(ord, out) && forall x :: x in out ==>
      x in s && (lo.Some? ==> ord.Cmp(x.key, lo.value) >= 0) && (hi.Some? ==> ord.Cmp(x.key, hi.value) <= 0)
    ensures out == Range(ord, lo, hi, s) ==> forall x :: x in s ==>
      (lo.Some? ==> ord.Cmp(x.key, lo.value) >= 0) && (hi.Some? ==> ord.Cmp(x.key, hi.value) <= 0) ==> x in out
  {
    var whole := Range(ord, lo, hi, s);
    RangeHolds(ord, lo, hi, s);
    hide Range;
    var i, j :| 0 <= i <= j <= |whole| && out == whole[i..j];
    forall x | x in out
      ensures x in whole
    {
    }
  }

  /** The state, the copy of hi and the stack all come from the container's allocator. */
  method DrainRange<K(!new), V>(ord: Ord<K>, root: HeapNode?<K, V>, lo: Option<K>, hi: Option<K>, mem: Allocator)
    returns (out: seq<Entry<K, V>>)
    requires ord.Lawful() && Sound(root) && Avl(TreeOf(root)) && Sorted(ord, InOrder(TreeOf(root)))
    modifies mem
    ensures PartOf(out, Range(ord, lo, hi, InOrder(TreeOf(root))))
    ensures mem.generous ==> mem.refusals == old(mem.refusals)
    ensures mem.refusals == old(mem.refusals) ==> out == Range(ord, lo, hi, InOrder(TreeOf(root)))
    ensures Sorted(ord, out) && forall x :: x in out ==>
      x in InOrder(TreeOf(root))
      && (lo.Some? ==> ord.Cmp(x.key, lo.value) >= 0) && (hi.Some? ==> ord.Cmp(x.key, hi.value) <= 0)
    ensures mem.refusals == old(mem.refusals) ==> forall x :: x in InOrder(TreeOf(root)) ==>
      (lo.Some? ==> ord.Cmp(x.key, lo.value) >= 0) && (hi.Some? ==> ord.Cmp(x.key, hi.value) <= 0) ==> x in out
  {
    hide Range, KeepBelow, InOrder, Sorted, Avl, Pending, PartOf, EndsWith;
    ghost var whole := Range(ord, lo, hi, InOrder(TreeOf(root)));
    NoPart(whole);
    PartHolds(ord, lo, hi, InOrder(TreeOf(root)), []);
    var ok := mem.Request();
    if ok && hi.Some? {
      ok := mem.Request();
    }
    if !ok {
      return [];
    }
    var it := new RangeIter(ord, root, lo, hi, mem);
    ghost var due := it.Yields();
    out := it.Drain();
    PartIs(out, it.Yields(), due, whole);
    PartHolds(ord, lo, hi, InOrder(TreeOf(root)), out);
  }
}
