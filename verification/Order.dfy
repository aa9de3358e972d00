// Comparison functions and sorted sequences.
module Order {

  /** A stored key with its value; the elements of a set carry the value (). */
  datatype Entry<+K, +V> = Entry(key: K, val: V)

  /** The caller's compare_fn: negative, zero or positive. */
  datatype Ord<!E(!new)> = Ord(cmpFn: (E, E) -> int) {
    function Cmp(a: E, b: E): int {
      cmpFn(a, b)
    }

    ghost predicate Laws(a: E, b: E, c: E) {
      && Cmp(a, a) == 0
      && (Cmp(a, b) < 0 <==> Cmp(b, a) > 0)
      && (Cmp(a, b) <= 0 && Cmp(b, c) <= 0 ==> Cmp(a, c) <= 0)
    }

    /** A total preorder. */
    ghost predicate Lawful() {
      forall a, b, c :: Laws(a, b, c)
    }
  }

  ghost predicate Opposite(x: int, y: int) {
    (x < 0 <==> y > 0) && (x > 0 <==> y < 0)
  }

  /** How the sign of a comparison carries over along a third element. */
  lemma Trans<E(!new)>(ord: Ord<E>, a: E, b: E, c: E)
    requires ord.Lawful()
    ensures ord.Cmp(a, b) < 0 && ord.Cmp(b, c) <= 0 ==> ord.Cmp(a, c) < 0
    ensures ord.Cmp(a, b) <= 0 && ord.Cmp(b, c) < 0 ==> ord.Cmp(a, c) < 0
    ensures ord.Cmp(a, b) == 0 && ord.Cmp(b, c) == 0 ==> ord.Cmp(a, c) == 0
    ensures ord.Cmp(a, b) > 0 && ord.Cmp(b, c) >= 0 ==> ord.Cmp(a, c) > 0
    ensures ord.Cmp(a, b) >= 0 && ord.Cmp(b, c) > 0 ==> ord.Cmp(a, c) > 0
    ensures Opposite(ord.Cmp(a, b), ord.Cmp(b, a))
    ensures Opposite(ord.Cmp(b, c), ord.Cmp(c, b))
    ensures Opposite(ord.Cmp(a, c), ord.Cmp(c, a))
    ensures ord.Cmp(a, a) == 0
  {
    assert ord.Laws(a, b, c) && ord.Laws(c, b, a) && ord.Laws(b, c, a) && ord.Laws(c, a, b);
    assert ord.Laws(a, c, b) && ord.Laws(b, a, c) && ord.Laws(c, b, b);
  }

  ghost predicate Below<K(!new), V>(ord: Ord<K>, s: seq<Entry<K, V>>, k: K) {
    forall i :: 0 <= i < |s| ==> ord.Cmp(s[i].key, k) < 0
  }

  ghost predicate Above<K(!new), V>(ord: Ord<K>, k: K, s: seq<Entry<K, V>>) {
    forall i :: 0 <= i < |s| ==> ord.Cmp(k, s[i].key) < 0
  }

  lemma AboveCons<K(!new), V>(ord: Ord<K>, k: K, x: Entry<K, V>, s: seq<Entry<K, V>>)
    ensures Above(ord, k, [x] + s) <==> ord.Cmp(k, x.key) < 0 && Above(ord, k, s)
  {
    var t := [x] + s;
    assert t[0] == x && forall i :: 0 <= i < |s| ==> t[i + 1] == s[i];
  }

  lemma SortedCons<K(!new), V>(ord: Ord<K>, x: Entry<K, V>, s: seq<Entry<K, V>>)
    ensures Sorted(ord, [x] + s) <==> Above(ord, x.key, s) && Sorted(ord, s)
  {
    var t := [x] + s;
    assert t[0] == x && forall i :: 0 <= i < |s| ==> t[i + 1] == s[i];
    if Sorted(ord, t) {
      forall i | 0 <= i < |s| ensures ord.Cmp(x.key, s[i].key) < 0 {
        assert t[i + 1] == s[i];
      }
      forall i, j | 0 <= i < j < |s| ensures ord.Cmp(s[i].key, s[j].key) < 0 {
        assert t[i + 1] == s[i] && t[j + 1] == s[j];
      }
    }
  }

  /** Keys strictly ascending. */
  ghost predicate Sorted<K(!new), V>(ord: Ord<K>, s: seq<Entry<K, V>>) {
    forall i, j :: 0 <= i < j < |s| ==> ord.Cmp(s[i].key, s[j].key) < 0
  }

  lemma SortedSplit<K(!new), V>(ord: Ord<K>, l: seq<Entry<K, V>>, x: Entry<K, V>, r: seq<Entry<K, V>>)
    requires Sorted(ord, l + [x] + r)
    ensures Sorted(ord, l) && Sorted(ord, r) && Below(ord, l, x.key) && Above(ord, x.key, r)
  {
    var s := l + [x] + r;
    assert s[|l|] == x;
    assert forall i :: 0 <= i < |l| ==> s[i] == l[i];
    assert forall i :: 0 <= i < |r| ==> s[|l| + 1 + i] == r[i];
  }

  lemma SortedTail<K(!new), V>(ord: Ord<K>, s: seq<Entry<K, V>>)
    requires Sorted(ord, s) && s != []
    ensures Sorted(ord, s[1..])
  {
  }
}
