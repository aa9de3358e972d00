// What the tree operations do to the sorted sequence a tree stands for, and how high a tree gets.
module AvlContents {
  import opened Bits
  import opened Memory
  import opened Order
  import opened Seqs
  import opened AvlTree

  // ----- Reference operations on sequences of entries -----

  /** Put an entry at its place; if its key is there, replace the value only. */
  function Put<K(!new), V>(ord: Ord<K>, s: seq<Entry<K, V>>, k: K, v: V): seq<Entry<K, V>> {
    if s == [] then [Entry(k, v)]
    else
      var c := ord.Cmp(k, s[0].key);
      if c < 0 then [Entry(k, v)] + s
      else if c == 0 then [Entry(s[0].key, v)] + s[1..]
      else [s[0]] + Put(ord, s[1..], k, v)
  }

  /** All entries but those of k. */
  function Others<K(!new), V>(ord: Ord<K>, s: seq<Entry<K, V>>, k: K): seq<Entry<K, V>> {
    Filter(s, (x: Entry<K, V>) => ord.Cmp(k, x.key) != 0)
  }

  function Lookup<K(!new), V>(ord: Ord<K>, s: seq<Entry<K, V>>, k: K): Option<V> {
    if s == [] then None
    else if ord.Cmp(k, s[0].key) == 0 then Some(s[0].val)
    else Lookup(ord, s[1..], k)
  }

  // ----- They are those of a finite map sorted by key -----

  lemma {:induction false} LookupAfterPut<K(!new), V>(ord: Ord<K>, s: seq<Entry<K, V>>, k: K, v: V, l: K)
    requires ord.Lawful()
    ensures Lookup(ord, Put(ord, s, k, v), l) == if ord.Cmp(k, l) == 0 then Some(v) else Lookup(ord, s, l)
  {
    Trans(ord, k, l, k);
    if s != [] {
      LookupAfterPut(ord, s[1..], k, v, l);
      Trans(ord, k, l, s[0].key);
      Trans(ord, l, k, s[0].key);
      Trans(ord, k, s[0].key, l);
    }
  }

  lemma {:induction false} LookupAfterOthers<K(!new), V>(ord: Ord<K>, s: seq<Entry<K, V>>, k: K, l: K)
    requires ord.Lawful()
    ensures Lookup(ord, Others(ord, s, k), l) == if ord.Cmp(k, l) == 0 then None else Lookup(ord, s, l)
  {
    if s != [] {
      var rest := Others(ord, s[1..], k);
      LookupAfterOthers(ord, s[1..], k, l);
      if ord.Cmp(k, s[0].key) != 0 {
        assert Others(ord, s, k) == [s[0]] + rest && Others(ord, s, k)[1..] == rest;
      } else {
        assert Others(ord, s, k) == rest;
      }
      Trans(ord, k, l, s[0].key);
      Trans(ord, k, s[0].key, l);
    }
  }

  /** Putting changes exactly one entry: a fresh one is added, or a value replaced. */
  lemma PutChanges<K(!new), V>(ord: Ord<K>, s: seq<Entry<K, V>>, k: K, v: V) returns (i: nat)
    requires ord.Lawful() && Sorted(ord, s)
    ensures i <= |s|
    ensures Lookup(ord, s, k).None? ==> Put(ord, s, k, v) == s[..i] + [Entry(k, v)] + s[i..]
    ensures Lookup(ord, s, k).Some?
      ==> i < |s| && ord.Cmp(k, s[i].key) == 0 && Put(ord, s, k, v) == s[i := Entry(s[i].key, v)]
  {
    if j :| 0 <= j < |s| && ord.Cmp(k, s[j].key) == 0 {
      hide Put;
      hide Sorted;
      hide Lookup;
      i := j;
      Around(s, i, Entry(s[i].key, v));
      PutSplit(ord, s[..i], s[i], s[i + 1..], k, v);
      LookupSplit(ord, s[..i], s[i], s[i + 1..], k);
    } else {
      i := PutFresh(ord, s, k, v);
      LookupPast(ord, s, [], k);
      AppendNothing(s);
    }
  }

  lemma {:induction false} PutFresh<K(!new), V>(ord: Ord<K>, s: seq<Entry<K, V>>, k: K, v: V) returns (i: nat)
    requires forall j :: 0 <= j < |s| ==> ord.Cmp(k, s[j].key) != 0
    ensures i <= |s| && Put(ord, s, k, v) == s[..i] + [Entry(k, v)] + s[i..]
  {
    i := 0;
    if s != [] && ord.Cmp(k, s[0].key) > 0 {
      var j := PutFresh(ord, s[1..], k, v);
      i := j + 1;
      assert s[..i] == [s[0]] + s[1..][..j];
    }
  }

  lemma PutHead<K(!new), V>(ord: Ord<K>, s: seq<Entry<K, V>>, k: K, v: V)
    ensures s == [] ==> Put(ord, s, k, v) == [Entry(k, v)]
    ensures s != [] && ord.Cmp(k, s[0].key) < 0 ==> Put(ord, s, k, v) == [Entry(k, v)] + s
    ensures s != [] && ord.Cmp(k, s[0].key) == 0 ==> Put(ord, s, k, v) == [Entry(s[0].key, v)] + s[1..]
    ensures s != [] && ord.Cmp(k, s[0].key) > 0 ==> Put(ord, s, k, v) == [s[0]] + Put(ord, s[1..], k, v)
    ensures s != [] ==> s == [s[0]] + s[1..]
  {
  }

  lemma {:induction false} PutKeepsAbove<K(!new), V>(ord: Ord<K>, x: K, s: seq<Entry<K, V>>, k: K, v: V)
    requires ord.Cmp(x, k) < 0 && Above(ord, x, s)
    ensures Above(ord, x, Put(ord, s, k, v))
  {
    PutHead(ord, s, k, v);
    if s != [] {
      hide Put;
      hide Above;
      AboveCons(ord, x, s[0], s[1..]);
      AboveCons(ord, x, Entry(k, v), s);
      AboveCons(ord, x, Entry(s[0].key, v), s[1..]);
      PutKeepsAbove(ord, x, s[1..], k, v);
      AboveCons(ord, x, s[0], Put(ord, s[1..], k, v));
    }
  }

  lemma AboveAll<K(!new), V>(ord: Ord<K>, k: K, l: K, s: seq<Entry<K, V>>)
    requires ord.Lawful() && ord.Cmp(k, l) < 0 && Above(ord, l, s)
    ensures Above(ord, k, s)
  {
    forall i | 0 <= i < |s|
      ensures ord.Cmp(k, s[i].key) < 0
    {
      Trans(ord, k, l, s[i].key);
    }
  }

  lemma {:induction false} PutKeepsSorted<K(!new), V>(ord: Ord<K>, s: seq<Entry<K, V>>, k: K, v: V)
    requires ord.Lawful() && Sorted(ord, s)
    ensures Sorted(ord, Put(ord, s, k, v))
  {
    PutHead(ord, s, k, v);
    if s == [] {
      assert |Put(ord, s, k, v)| == 1;
    } else {
      hide Put;
      hide Sorted;
      hide Above;
      hide Ord.Lawful;
      var later := s[1..];
      SortedCons(ord, s[0], later);
      Trans(ord, s[0].key, k, k);
      if ord.Cmp(k, s[0].key) > 0 {
        PutKeepsSorted(ord, later, k, v);
        PutKeepsAbove(ord, s[0].key, later, k, v);
        SortedCons(ord, s[0], Put(ord, later, k, v));
      } else if ord.Cmp(k, s[0].key) < 0 {
        AboveAll(ord, k, s[0].key, later);
        AboveCons(ord, k, s[0], later);
        SortedCons(ord, Entry(k, v), s);
      } else {
        SortedCons(ord, Entry(s[0].key, v), later);
      }
    }
  }

  /** Removing takes out exactly the one entry of k, if there is one. */
  lemma OthersChanges<K(!new), V>(ord: Ord<K>, s: seq<Entry<K, V>>, k: K) returns (i: nat)
    requires ord.Lawful() && Sorted(ord, s)
    ensures i <= |s| && Sorted(ord, Others(ord, s, k))
    ensures Lookup(ord, s, k).None? ==> Others(ord, s, k) == s
    ensures Lookup(ord, s, k).Some?
      ==> i < |s| && ord.Cmp(k, s[i].key) == 0 && Others(ord, s, k) == s[..i] + s[i + 1..]
  {
    i := 0;
    if j :| 0 <= j < |s| && ord.Cmp(k, s[j].key) == 0 {
      hide Filter;
      hide Sorted;
      hide Lookup;
      i := j;
      Around(s, i, s[i]);
      OthersSplit(ord, s[..i], s[i], s[i + 1..], k);
      LookupSplit(ord, s[..i], s[i], s[i + 1..], k);
    } else {
      FilterAll(s, (x: Entry<K, V>) => ord.Cmp(k, x.key) != 0);
      LookupPast(ord, s, [], k);
      AppendNothing(s);
    }
  }

  // ----- How they split around a node -----

  lemma {:induction false} PutPast<K(!new), V>(ord: Ord<K>, l: seq<Entry<K, V>>, s: seq<Entry<K, V>>, k: K, v: V)
    requires forall i :: 0 <= i < |l| ==> ord.Cmp(k, l[i].key) > 0
    ensures Put(ord, l + s, k, v) == l + Put(ord, s, k, v)
  {
    hide Put;
    HeadOf(l, s);
    if l == [] {
      HeadOf([], Put(ord, s, k, v));
    } else {
      PutHead(ord, l + s, k, v);
      PutPast(ord, l[1..], s, k, v);
      Assoc([l[0]], l[1..], Put(ord, s, k, v));
      assert l == [l[0]] + l[1..];
    }
  }

  lemma {:induction false} PutWithin<K(!new), V>(ord: Ord<K>, l: seq<Entry<K, V>>, s: seq<Entry<K, V>>, k: K, v: V)
    requires s != [] && ord.Cmp(k, s[0].key) < 0
    ensures Put(ord, l + s, k, v) == Put(ord, l, k, v) + s
  {
    hide Put;
    HeadOf(l, s);
    PutHead(ord, l, k, v);
    PutHead(ord, l + s, k, v);
    if l != [] {
      PutWithin(ord, l[1..], s, k, v);
      Assoc([Entry(k, v)], l, s);
      Assoc([Entry(l[0].key, v)], l[1..], s);
      Assoc([l[0]], Put(ord, l[1..], k, v), s);
    }
  }

  lemma {:induction false} LookupPast<K(!new), V>(ord: Ord<K>, l: seq<Entry<K, V>>, s: seq<Entry<K, V>>, k: K)
    requires forall i :: 0 <= i < |l| ==> ord.Cmp(k, l[i].key) != 0
    ensures Lookup(ord, l + s, k) == Lookup(ord, s, k)
  {
    if l == [] {
      assert l + s == s;
    } else {
      assert (l + s)[1..] == l[1..] + s;
      LookupPast(ord, l[1..], s, k);
    }
  }

  lemma {:induction false} LookupWithin<K(!new), V>(ord: Ord<K>, l: seq<Entry<K, V>>, s: seq<Entry<K, V>>, k: K)
    requires forall i :: 0 <= i < |s| ==> ord.Cmp(k, s[i].key) != 0
    ensures Lookup(ord, l + s, k) == Lookup(ord, l, k)
  {
    if l == [] {
      LookupPast(ord, s, [], k);
      assert s + [] == s && l + s == s;
    } else {
      assert (l + s)[1..] == l[1..] + s;
      LookupWithin(ord, l[1..], s, k);
    }
  }

  /** Every entry to the left of x is below k when x is not above k, and so on the right. */
  lemma Sides<K(!new), V>(ord: Ord<K>, l: seq<Entry<K, V>>, x: Entry<K, V>, r: seq<Entry<K, V>>, k: K)
    requires ord.Lawful() && Sorted(ord, l + [x] + r)
    ensures ord.Cmp(k, x.key) >= 0 ==> forall i :: 0 <= i < |l| ==> ord.Cmp(k, l[i].key) > 0
    ensures ord.Cmp(k, x.key) <= 0 ==> forall i :: 0 <= i < |r| ==> ord.Cmp(k, r[i].key) < 0
  {
    SortedSplit(ord, l, x, r);
    if ord.Cmp(k, x.key) >= 0 {
      forall i | 0 <= i < |l|
        ensures ord.Cmp(k, l[i].key) > 0
      {
        Trans(ord, l[i].key, x.key, k);
      }
    }
    if ord.Cmp(k, x.key) <= 0 {
      forall i | 0 <= i < |r|
        ensures ord.Cmp(k, r[i].key) < 0
      {
        Trans(ord, k, x.key, r[i].key);
      }
    }
  }

  lemma PutSplit<K(!new), V>(ord: Ord<K>, l: seq<Entry<K, V>>, x: Entry<K, V>, r: seq<Entry<K, V>>, k: K, v: V)
    requires ord.Lawful() && Sorted(ord, l + [x] + r)
    ensures ord.Cmp(k, x.key) < 0 ==> Put(ord, l + [x] + r, k, v) == Put(ord, l, k, v) + [x] + r
    ensures ord.Cmp(k, x.key) == 0 ==> Put(ord, l + [x] + r, k, v) == l + [Entry(x.key, v)] + r
    ensures ord.Cmp(k, x.key) > 0 ==> Put(ord, l + [x] + r, k, v) == l + [x] + Put(ord, r, k, v)
  {
    Sides(ord, l, x, r, k);
    assert l + [x] + r == l + ([x] + r);
    if ord.Cmp(k, x.key) < 0 {
      PutWithin(ord, l, [x] + r, k, v);
    } else if ord.Cmp(k, x.key) == 0 {
      PutPast(ord, l, [x] + r, k, v);
      assert ([x] + r)[1..] == r;
    } else {
      PutPast(ord, l + [x], r, k, v);
    }
  }

  lemma OthersSplit<K(!new), V>(ord: Ord<K>, l: seq<Entry<K, V>>, x: Entry<K, V>, r: seq<Entry<K, V>>, k: K)
    requires ord.Lawful() && Sorted(ord, l + [x] + r)
    ensures ord.Cmp(k, x.key) < 0 ==> Others(ord, l + [x] + r, k) == Others(ord, l, k) + [x] + r
    ensures ord.Cmp(k, x.key) == 0 ==> Others(ord, l + [x] + r, k) == l + r && Sorted(ord, l + r)
    ensures ord.Cmp(k, x.key) > 0 ==> Others(ord, l + [x] + r, k) == l + [x] + Others(ord, r, k)
  {
    Sides(ord, l, x, r, k);
    hide Sorted;
    hide Filter;
    var p := (y: Entry<K, V>) => ord.Cmp(k, y.key) != 0;
    FilterConcat(l + [x], r, p);
    FilterConcat(l, [x], p);
    FilterOne(x, p);
    if ord.Cmp(k, x.key) >= 0 {
      FilterAll(l, p);
    }
    if ord.Cmp(k, x.key) <= 0 {
      FilterAll(r, p);
    }
    if ord.Cmp(k, x.key) == 0 {
      AppendNothing(l);
      WithoutMiddle(ord, l, x, r);
    }
  }

  lemma WithoutMiddle<K(!new), V>(ord: Ord<K>, l: seq<Entry<K, V>>, x: Entry<K, V>, r: seq<Entry<K, V>>)
    requires Sorted(ord, l + [x] + r)
    ensures Sorted(ord, l + r)
  {
    var s, t := l + [x] + r, l + r;
    forall i, j | 0 <= i < j < |t|
      ensures ord.Cmp(t[i].key, t[j].key) < 0
    {
      var i', j' := if i < |l| then i else i + 1, if j < |l| then j else j + 1;
      assert t[i] == s[i'] && t[j] == s[j'];
    }
  }

  lemma LookupSplit<K(!new), V>(ord: Ord<K>, l: seq<Entry<K, V>>, x: Entry<K, V>, r: seq<Entry<K, V>>, k: K)
    requires ord.Lawful() && Sorted(ord, l + [x] + r)
    ensures Lookup(ord, l + [x] + r, k) ==
      if ord.Cmp(k, x.key) < 0 then Lookup(ord, l, k)
      else if ord.Cmp(k, x.key) > 0 then Lookup(ord, r, k)
      else Some(x.val)
  {
    Sides(ord, l, x, r, k);
    if ord.Cmp(k, x.key) < 0 {
      assert l + [x] + r == l + ([x] + r);
      LookupWithin(ord, l, [x] + r, k);
    } else if ord.Cmp(k, x.key) > 0 {
      LookupPast(ord, l + [x], r, k);
    } else {
      assert l + [x] + r == l + ([x] + r);
      LookupPast(ord, l, [x] + r, k);
    }
  }

  // ----- The tree operations implement them -----

  lemma Children<K(!new), V>(ord: Ord<K>, t: Tree<K, V>)
    requires t.Node? && Sorted(ord, InOrder(t))
    ensures Sorted(ord, InOrder(t.left)) && Sorted(ord, InOrder(t.right))
    ensures Below(ord, InOrder(t.left), t.data.key) && Above(ord, t.data.key, InOrder(t.right))
  {
    SortedSplit(ord, InOrder(t.left), t.data, InOrder(t.right));
  }

  lemma {:induction false} InsertIsPut<K(!new), V>(ord: Ord<K>, t: Tree<K, V>, k: K, v: V)
    requires ord.Lawful() && Avl(t) && Sorted(ord, InOrder(t))
    ensures InOrder(Insert(ord, t, k, v)) == Put(ord, InOrder(t), k, v)
  {
    if t.Node? {
      Children(ord, t);
      PutSplit(ord, InOrder(t.left), t.data, InOrder(t.right), k, v);
      if ord.Cmp(k, t.data.key) < 0 {
        InsertIsPut(ord, t.left, k, v);
      } else if ord.Cmp(k, t.data.key) > 0 {
        InsertIsPut(ord, t.right, k, v);
      }
    }
  }

  lemma {:induction false} MinIsFirst<K, V>(t: Tree<K, V>)
    requires t.Node?
    ensures InOrder(t) != [] && Min(t) == InOrder(t)[0]
  {
    if t.left.Node? {
      MinIsFirst(t.left);
    }
  }

  lemma {:induction false} MaxIsLast<K, V>(t: Tree<K, V>)
    requires t.Node?
    ensures InOrder(t) != [] && Max(t) == InOrder(t)[|InOrder(t)| - 1]
  {
    if t.right.Node? {
      MaxIsLast(t.right);
    }
  }

  lemma {:induction false} RemoveIsOthers<K(!new), V>(ord: Ord<K>, t: Tree<K, V>, k: K)
    requires ord.Lawful() && Avl(t) && Sorted(ord, InOrder(t))
    ensures InOrder(Remove(ord, t, k)) == Others(ord, InOrder(t), k)
  {
    if t.Node? {
      var l, x, r := t.left, t.data, t.right;
      Children(ord, t);
      OthersSplit(ord, InOrder(l), x, InOrder(r), k);
      if ord.Cmp(k, x.key) < 0 {
        RemoveIsOthers(ord, l, k);
      } else if ord.Cmp(k, x.key) > 0 {
        RemoveIsOthers(ord, r, k);
      } else if l.Node? && r.Node? {
        MinIsFirst(r);
        RemoveIsOthers(ord, r, Min(r).key);
        SuccessorFirst(ord, InOrder(r));
        var succ, rest := InOrder(r)[0], InOrder(r)[1..];
        assert InOrder(l) + [succ] + rest == InOrder(l) + ([succ] + rest);
        assert [succ] + rest == InOrder(r);
      }
    }
  }

  lemma SuccessorFirst<K(!new), V>(ord: Ord<K>, s: seq<Entry<K, V>>)
    requires ord.Lawful() && Sorted(ord, s) && s != []
    ensures Others(ord, s, s[0].key) == s[1..]
  {
    assert s == [] + [s[0]] + s[1..];
    Trans(ord, s[0].key, s[0].key, s[0].key);
    OthersSplit(ord, [], s[0], s[1..], s[0].key);
    assert [] + s[1..] == s[1..];
  }

  lemma {:induction false} FindIsLookup<K(!new), V>(ord: Ord<K>, t: Tree<K, V>, k: K)
    requires ord.Lawful() && Sorted(ord, InOrder(t))
    ensures Find(ord, t, k) == Lookup(ord, InOrder(t), k)
  {
    if t.Node? {
      Children(ord, t);
      FindIsLookup(ord, t.left, k);
      FindIsLookup(ord, t.right, k);
      LookupSplit(ord, InOrder(t.left), t.data, InOrder(t.right), k);
    }
  }

  /** Same links, same keys, same stored heights: only values may differ. */
  ghost predicate SameShape<K, V>(t: Tree<K, V>, u: Tree<K, V>) {
    if t.Leaf? || u.Leaf? then t.Leaf? && u.Leaf?
    else t.data.key == u.data.key && t.height == u.height && SameShape(t.left, u.left) && SameShape(t.right, u.right)
  }

  lemma {:induction false} SameShapeReflexive<K, V>(t: Tree<K, V>)
    ensures SameShape(t, t)
  {
    if t.Node? {
      SameShapeReflexive(t.left);
      SameShapeReflexive(t.right);
    }
  }

  /** Setting a present key rotates nothing. */
  lemma {:induction false} OverwriteKeepsShape<K(!new), V>(ord: Ord<K>, t: Tree<K, V>, k: K, v: V)
    requires Avl(t) && Find(ord, t, k).Some?
    ensures SameShape(Insert(ord, t, k, v), t)
  {
    SameShapeReflexive(t);
    if ord.Cmp(k, t.data.key) < 0 {
      OverwriteKeepsShape(ord, t.left, k, v);
      RebalanceCases(Insert(ord, t.left, k, v), t.data, t.right);
    } else if ord.Cmp(k, t.data.key) > 0 {
      OverwriteKeepsShape(ord, t.right, k, v);
      RebalanceCases(t.left, t.data, Insert(ord, t.right, k, v));
    }
  }

  // ----- Height -----

  function Fib(n: nat): nat {
    if n < 2 then n else Fib(n - 1) + Fib(n - 2)
  }

  lemma {:induction false} FibGrows(a: nat, b: nat)
    requires a <= b
    ensures Fib(a) <= Fib(b)
  {
    if a < b {
      FibGrows(a, b - 1);
      assert b >= 2 || Fib(b) == b;
    }
  }

  /** A tree of height h has at least fib(h + 2) - 1 elements. */
  lemma {:induction false} FibonacciBound<K, V>(t: Tree<K, V>)
    requires Avl(t)
    ensures |InOrder(t)| >= Fib(Height(t) + 2) - 1
  {
    if t.Node? {
      FibonacciBound(t.left);
      FibonacciBound(t.right);
      var h := Height(t);
      if Height(t.left) >= Height(t.right) {
        FibGrows(h, Height(t.right) + 2);
      } else {
        FibGrows(h, Height(t.left) + 2);
      }
    }
  }

  /** The height is at most twice the binary logarithm of the number of elements plus one. */
  lemma {:induction false} LogarithmicHeight<K, V>(t: Tree<K, V>)
    requires Avl(t)
    ensures Pow2(Height(t)) <= (|InOrder(t)| + 1) * (|InOrder(t)| + 1)
  {
    if t.Node? {
      LogarithmicHeight(t.left);
      LogarithmicHeight(t.right);
      var h, a, b := Height(t), |InOrder(t.left)| + 1, |InOrder(t.right)| + 1;
      assert |InOrder(t)| + 1 == a + b;
      if Height(t.left) >= Height(t.right) {
        SquareOfSum(a, b, Height(t.left), Height(t.right));
      } else {
        SquareOfSum(b, a, Height(t.right), Height(t.left));
      }
    }
  }

  lemma SquareOfSum(a: nat, b: nat, p: nat, q: nat)
    requires p - 1 <= q <= p && Pow2(p) <= a * a && Pow2(q) <= b * b
    ensures Pow2(p + 1) <= (a + b) * (a + b)
  {
    Pow2Grows(q, p);
    assert Pow2(p) <= 2 * Pow2(q);
    Square(a, b);
  }

  lemma Square(a: nat, b: nat)
    ensures (a + b) * (a + b) == a * a + 2 * (a * b) + b * b
    ensures a * a <= a * b || b * b <= a * b
  {
    if a <= b {
      Monotone(a, b, a);
    } else {
      Monotone(b, a, b);
    }
  }

  lemma Monotone(x: nat, y: nat, z: nat)
    requires x <= y
    ensures x * z <= y * z
  {
  }
}
