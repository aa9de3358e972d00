// src/set/set.c: union, intersection and difference by bucket scans.
module SetAlgebra {
  import opened Memory
  import opened RobinHood
  import opened HashSet

  /** k is equal to a key among the first i buckets. */
  ghost predicate Scanned<K(!new), P>(env: Env<K>, t: seq<Bucket<K, P>>, i: nat, k: K) {
    exists j: nat :: j < i && Finds(env, t, j, k)
  }

  /** d is d0 with the first i keys of t added, but for those that `other` filters out. */
  ghost predicate Gathered<K(!new), P>(
    env: Env<K>, d0: set<K>, d: set<K>, t: seq<Bucket<K, P>>, i: nat, other: set<K>, keep: bool)
  {
    forall k :: Member(env, d, k) <==>
      Member(env, d0, k) || (Scanned(env, t, i, k) && Member(env, other, k) == keep)
  }

  lemma MembersAgree<K(!new)>(env: Env<K>, s: set<K>, k: K, l: K)
    requires env.Lawful() && env.Eq(k, l)
    ensures Member(env, s, k) == Member(env, s, l)
  {
    if Member(env, s, k) {
      var r :| r in s && env.Eq(r, k);
      assert env.Laws(r, k, l);
    }
    if Member(env, s, l) {
      var r :| r in s && env.Eq(r, l);
      assert env.Laws(k, l, l) && env.Laws(r, l, k);
    }
  }

  lemma ScanNext<K(!new), P>(env: Env<K>, t: seq<Bucket<K, P>>, i: nat, k: K)
    requires i < |t|
    ensures Scanned(env, t, i + 1, k) == (Scanned(env, t, i, k) || Finds(env, t, i, k))
  {
    if Scanned(env, t, i + 1, k) {
      var j: nat :| j < i + 1 && Finds(env, t, j, k);
    }
  }

  lemma GatherStart<K(!new), P>(env: Env<K>, d: set<K>, t: seq<Bucket<K, P>>, other: set<K>, keep: bool)
    ensures Gathered(env, d, d, t, 0, other, keep)
  {
  }

  /** A bucket that is empty or filtered out adds nothing. */
  lemma GatherSkip<K(!new), P>(
    env: Env<K>, d0: set<K>, d: set<K>, t: seq<Bucket<K, P>>, i: nat, other: set<K>, keep: bool)
    requires env.Lawful() && Gathered(env, d0, d, t, i, other, keep) && i < |t|
    requires t[i].Full? ==> Member(env, other, t[i].key) != keep
    ensures Gathered(env, d0, d, t, i + 1, other, keep)
  {
    forall k
      ensures Member(env, d, k) <==>
        Member(env, d0, k) || (Scanned(env, t, i + 1, k) && Member(env, other, k) == keep)
    {
      ScanNext(env, t, i, k);
      if Finds(env, t, i, k) {
        MembersAgree(env, other, t[i].key, k);
      }
    }
  }

  /** A bucket that passes the filter adds its class of keys, if it is not there yet. */
  lemma GatherAdd<K(!new), P>(
    env: Env<K>, d0: set<K>, d: set<K>, t: seq<Bucket<K, P>>, i: nat, other: set<K>, keep: bool, after: set<K>)
    requires env.Lawful() && Gathered(env, d0, d, t, i, other, keep) && i < |t| && t[i].Full?
    requires Member(env, other, t[i].key) == keep
    requires after == d + {t[i].key} || (after == d && Member(env, d, t[i].key))
    ensures Gathered(env, d0, after, t, i + 1, other, keep)
  {
    forall k
      ensures Member(env, after, k) <==>
        Member(env, d0, k) || (Scanned(env, t, i + 1, k) && Member(env, other, k) == keep)
    {
      ScanNext(env, t, i, k);
      if Finds(env, t, i, k) {
        MembersAgree(env, other, t[i].key, k);
        MembersAgree(env, d, t[i].key, k);
        if after != d {
          assert t[i].key in after;
        }
      }
      AddedMember(env, d, t[i].key, after, k);
    }
  }

  lemma AddedMember<K(!new)>(env: Env<K>, d: set<K>, key: K, after: set<K>, k: K)
    requires after == d + {key} || after == d
    ensures Member(env, d, k) ==> Member(env, after, k)
    ensures Member(env, after, k) ==> Member(env, d, k) || env.Eq(key, k)
  {
    if Member(env, d, k) {
      var r :| r in d && env.Eq(r, k);
      assert r in after;
    }
  }

  lemma GatherDone<K(!new)>(env: Env<K>, d0: set<K>, d: set<K>, s: HashSet<K>, other: set<K>, keep: bool)
    requires s.Valid() && s.env == env && Gathered(env, d0, d, s.buckets[..], s.cap, other, keep)
    ensures forall k :: Member(env, d, k) <==>
      Member(env, d0, k) || (Member(env, s.Elements(), k) && Member(env, other, k) == keep)
  {
    s.Open();
    var t := s.buckets[..];
    forall k
      ensures Scanned(env, t, s.cap, k) == Member(env, s.Elements(), k)
    {
      if Scanned(env, t, s.cap, k) {
        var j: nat :| j < s.cap && Finds(env, t, j, k);
        assert t[j].key in s.Elements();
      }
      if Member(env, s.Elements(), k) {
        MemberIsHas(env, s.entries, k);
        HasFound(env, t, s.entries, k);
        var j := SlotOf(env, t, k);
      }
    }
  }

  /** s is dest itself, or a set with memory of its own. */
  ghost predicate Beside<K(!new)>(dest: HashSet<K>, s: HashSet<K>)
    reads dest, s, s.buckets, s.heap
  {
    s.Valid() && s.env == dest.env && (s != dest ==> s.buckets != dest.buckets && s.heap != dest.heap)
  }

  /** The three sets share the caller's functions; dest may be one of the operands, or both. */
  ghost predicate Operands<K(!new)>(dest: HashSet<K>, a: HashSet<K>, b: HashSet<K>)
    reads dest, a, b, dest.buckets, a.buckets, b.buckets, dest.heap, a.heap, b.heap
  {
    dest.Valid() && Beside(dest, a) && Beside(dest, b)
  }

  lemma OperandsAre<K(!new)>(dest: HashSet<K>, src: HashSet<K>, other: HashSet<K>)
    requires Operands(dest, src, other)
    ensures dest.Valid() && src.Valid() && other.Valid() && src.cap == src.buckets.Length
    ensures dest.env == src.env == other.env && dest.env.Lawful()
  {
  }

  /** The set is as it was. */
  twostate predicate Untouched<K(!new)>(s: HashSet<K>)
    reads s, s.buckets
  {
    && s.buckets == old(s.buckets) && s.buckets[..] == old(s.buckets[..]) && s.cap == old(s.cap)
    && s.Elements() == old(s.Elements())
  }

  method AddBeside<K(==, !new)>(dest: HashSet<K>, ghost src: HashSet<K>, ghost other: HashSet<K>, key: K)
    returns (status: Status)
    requires Operands(dest, src, other)
    modifies dest, dest.buckets, dest.heap, dest.heap.mem
    ensures Operands(dest, src, other) && (dest.buckets == old(dest.buckets) || fresh(dest.buckets))
    ensures (src != dest ==> Untouched(src)) && (other != dest ==> Untouched(other))
    ensures status == Ok || status == Duplicate || (status == OutOfMemory && dest.Refuses())
    ensures status == Ok ==> !old(Member(dest.env, dest.Elements(), key))
    ensures status == Ok ==> dest.Elements() == old(dest.Elements()) + {key}
    ensures status == Duplicate ==> Member(dest.env, dest.Elements(), key)
    ensures status != Ok ==> dest.Elements() == old(dest.Elements())
    ensures dest.cap >= old(dest.cap)
    ensures dest.heap.mem.refusals == old(dest.heap.mem.refusals) + if status == OutOfMemory then 1 else 0
  {
    hide Member, Env.Lawful, HashSet.Valid;
    status := dest.Add(key);
  }

  /** Against which members a bucket is tested: those that `other` had when the scan began. */
  ghost function Tested<K(!new)>(dest: HashSet<K>, other: HashSet<K>, filtered: bool, d0: set<K>): set<K>
    reads other
  {
    if !filtered then {} else if other == dest then d0 else other.Elements()
  }

  /** Testing against dest as it grows comes to the same as testing against what it was. */
  lemma TestedAsItGrows<K(!new), P>(
    env: Env<K>, d0: set<K>, d: set<K>, t: seq<Bucket<K, P>>, i: nat, keep: bool, k: K)
    requires Gathered(env, d0, d, t, i, d0, keep)
    ensures Member(env, d, k) == keep ==> Member(env, d0, k) == keep
    ensures Member(env, d, k) != keep && Member(env, d0, k) == keep ==> Member(env, d, k)
  {
  }

  /** One bucket of a scan: the membership test, and the addition if it passes. */
  method AddIfKept<K(==, !new)>(dest: HashSet<K>, ghost src: HashSet<K>, other: HashSet<K>, b: Bucket<K, nat>,
    filtered: bool, keep: bool, ghost d0: set<K>, ghost t: seq<Bucket<K, nat>>, ghost i: nat, ghost tested: set<K>)
    returns (status: Status)
    requires Operands(dest, src, other) && src != dest && i < |t| && t[i] == b
    requires tested == Tested(dest, other, filtered, d0)
    requires Gathered(dest.env, d0, dest.Elements(), t, i, tested, filtered && keep)
    modifies dest, dest.buckets, dest.heap, dest.heap.mem
    ensures Operands(dest, src, other) && (dest.buckets == old(dest.buckets) || fresh(dest.buckets))
    ensures Untouched(src) && (other != dest ==> Untouched(other))
    ensures status == Ok || (status == OutOfMemory && dest.Refuses())
    ensures status == Ok ==> Gathered(dest.env, d0, dest.Elements(), t, i + 1, tested, filtered && keep)
    ensures dest.heap.mem.refusals == old(dest.heap.mem.refusals) + if status == OutOfMemory then 1 else 0
  {
    hide Operands, Gathered, Member, Env.Lawful, HashSet.Valid;
    ghost var env, d := dest.env, dest.Elements();
    OperandsAre(dest, src, other);
    EmptyHasNoMembers(env);
    status := Ok;
    var kept := b.Full?;
    if kept && filtered {
      var present := other.Contains(b.key);
      kept := present == keep;
      if other == dest {
        TestedAsItGrows(env, d0, d, t, i, keep, b.key);
      }
    }
    if kept {
      var added := AddBeside(dest, src, other, b.key);
      if added != Ok && added != Duplicate {
        return added;
      }
      GatherAdd(env, d0, d, t, i, tested, filtered && keep, dest.Elements());
    } else if b.Full? && Member(env, tested, b.key) == keep {
      GatherAdd(env, d0, d, t, i, tested, filtered && keep, d);
    } else {
      GatherSkip(env, d0, d, t, i, tested, filtered && keep);
    }
  }

  lemma StoredMember<K(!new)>(s: HashSet<K>, i: nat)
    requires s.Valid() && i < s.cap && s.buckets[i].Full?
    ensures Member(s.env, s.Elements(), s.buckets[i].key)
  {
    s.Open();
    assert s.env.Laws(s.buckets[i].key, s.buckets[i].key, s.buckets[i].key);
    assert s.buckets[..][i] == s.buckets[i];
  }

  lemma CapBounded<K(!new)>(s: HashSet<K>)
    requires s.Valid()
    ensures s.cap <= MAX_CAP && s.cap == s.buckets.Length
  {
    s.Open();
  }

  /**
   * dest scanning itself: every addition is a duplicate, though it may resize the table under the scan, which
   * goes on in the new one.
   */
  method ScanSelf<K(==, !new)>(dest: HashSet<K>, other: HashSet<K>, filtered: bool, keep: bool)
    returns (status: Status)
    requires Operands(dest, dest, other)
    modifies dest, dest.buckets, dest.heap, dest.heap.mem
    ensures Operands(dest, dest, other) && (dest.buckets == old(dest.buckets) || fresh(dest.buckets))
    ensures other != dest ==> Untouched(other)
    ensures dest.Elements() == old(dest.Elements())
    ensures status == Ok || (status == OutOfMemory && dest.Refuses())
    ensures dest.heap.mem.refusals == old(dest.heap.mem.refusals) + if status == OutOfMemory then 1 else 0
  {
    hide Operands, Member, Env.Lawful, HashSet.Valid;
    var i := 0;
    OperandsAre(dest, dest, other);
    CapBounded(dest);
    while i < dest.cap
      invariant Operands(dest, dest, other) && (dest.buckets == old(dest.buckets) || fresh(dest.buckets))
      invariant dest.Valid() && other.Valid() && dest.cap == dest.buckets.Length <= MAX_CAP
      invariant (other != dest ==> Untouched(other)) && dest.Elements() == old(dest.Elements())
      invariant dest.heap.mem.refusals == old(dest.heap.mem.refusals)
      decreases MAX_CAP - dest.cap, dest.cap - i
    {
      var b := dest.buckets[i];
      var kept := b.Full?;
      if kept && filtered {
        var present := other.Contains(b.key);
        kept := present == keep;
      }
      if kept {
        StoredMember(dest, i);
        var added := AddBeside(dest, dest, other, b.key);
        if added == OutOfMemory {
          return added;
        }
        OperandsAre(dest, dest, other);
        CapBounded(dest);
      }
      i := i + 1;
    }
    status := Ok;
  }

  /** The scan of a set that is not dest. */
  method ScanOther<K(==, !new)>(dest: HashSet<K>, src: HashSet<K>, other: HashSet<K>, filtered: bool, keep: bool,
    ghost d0: set<K>, ghost tested: set<K>) returns (status: Status)
    requires Operands(dest, src, other) && src != dest
    requires d0 == dest.Elements() && tested == Tested(dest, other, filtered, d0)
    modifies dest, dest.buckets, dest.heap, dest.heap.mem
    ensures Operands(dest, src, other) && (dest.buckets == old(dest.buckets) || fresh(dest.buckets))
    ensures Untouched(src) && (other != dest ==> Untouched(other))
    ensures status == Ok || (status == OutOfMemory && dest.Refuses())
    ensures dest.heap.mem.refusals == old(dest.heap.mem.refusals) + if status == OutOfMemory then 1 else 0
    ensures status == Ok ==>
      Gathered(dest.env, d0, dest.Elements(), src.buckets[..], src.cap, tested, filtered && keep)
  {
    hide Gathered, Member, HashSet.Valid, Operands;
    ghost var env, t := dest.env, src.buckets[..];
    OperandsAre(dest, src, other);
    GatherStart(env, d0, t, tested, filtered && keep);
    for i := 0 to src.cap
      invariant Operands(dest, src, other) && (dest.buckets == old(dest.buckets) || fresh(dest.buckets))
      invariant Untouched(src) && (other != dest ==> Untouched(other))
      invariant dest.heap.mem.refusals == old(dest.heap.mem.refusals)
      invariant Gathered(env, d0, dest.Elements(), t, i, tested, filtered && keep)
    {
      var st := AddIfKept(dest, src, other, src.buckets[i], filtered, keep, d0, t, i, tested);
      if st != Ok {
        return st;
      }
    }
    status := Ok;
  }

  /** One scan: add every key of src, or those whose membership in `other` is `keep`. */
  method AddScanned<K(==, !new)>(dest: HashSet<K>, src: HashSet<K>, other: HashSet<K>, filtered: bool, keep: bool)
    returns (status: Status)
    requires Operands(dest, src, other)
    modifies dest, dest.buckets, dest.heap, dest.heap.mem
    ensures Operands(dest, src, other) && (dest.buckets == old(dest.buckets) || fresh(dest.buckets))
    ensures (src != dest ==> Untouched(src)) && (other != dest ==> Untouched(other))
    ensures status == Ok || (status == OutOfMemory && dest.Refuses())
    ensures status == Ok ==> forall k :: Member(dest.env, dest.Elements(), k) <==>
      old(Member(dest.env, dest.Elements(), k))
      || (old(Member(dest.env, src.Elements(), k)) && (!filtered || old(Member(dest.env, other.Elements(), k)) == keep))
    ensures dest.heap.mem.refusals == old(dest.heap.mem.refusals) + if status == OutOfMemory then 1 else 0
  {
    hide Gathered, Member, HashSet.Valid, Operands;
    if src == dest {
      status := ScanSelf(dest, other, filtered, keep);
      return;
    }
    ghost var env, d0 := dest.env, dest.Elements();
    ghost var tested := Tested(dest, other, filtered, d0);
    EmptyHasNoMembers(env);
    status := ScanOther(dest, src, other, filtered, keep, d0, tested);
    if status == Ok {
      OperandsAre(dest, src, other);
      GatherDone(env, d0, dest.Elements(), src, tested, filtered && keep);
    }
  }

  lemma EmptyHasNoMembers<K(!new)>(env: Env<K>)
    ensures forall k :: !Member(env, {}, k)
  {
  }

  method Union<K(==, !new)>(dest: HashSet<K>, a: HashSet<K>, b: HashSet<K>) returns (status: Status)
    requires Operands(dest, a, b)
    modifies dest, dest.buckets, dest.heap, dest.heap.mem
    ensures Operands(dest, a, b) && (status == Ok || (status == OutOfMemory && dest.Refuses()))
    ensures status == Ok ==> forall k ::
      Member(dest.env, dest.Elements(), k) <==>
      old(Member(dest.env, dest.Elements(), k))
      || old(Member(dest.env, a.Elements(), k)) || old(Member(dest.env, b.Elements(), k))
    ensures dest.heap.mem.refusals == old(dest.heap.mem.refusals) + if status == OutOfMemory then 1 else 0
  {
    hide Member, HashSet.Valid;
    status := AddScanned(dest, a, b, false, false);
    if status != Ok {
      return;
    }
    status := AddScanned(dest, b, a, false, false);
  }

  method Intersection<K(==, !new)>(dest: HashSet<K>, a: HashSet<K>, b: HashSet<K>) returns (status: Status)
    requires Operands(dest, a, b)
    modifies dest, dest.buckets, dest.heap, dest.heap.mem
    ensures Operands(dest, a, b) && (status == Ok || (status == OutOfMemory && dest.Refuses()))
    ensures status == Ok ==> forall k ::
      Member(dest.env, dest.Elements(), k) <==>
      old(Member(dest.env, dest.Elements(), k))
      || (old(Member(dest.env, a.Elements(), k)) && old(Member(dest.env, b.Elements(), k)))
    ensures dest.heap.mem.refusals == old(dest.heap.mem.refusals) + if status == OutOfMemory then 1 else 0
  {
    hide Member, HashSet.Valid;
    // scan the smaller set
    var src := if a.len <= b.len then a else b;
    var other := if a.len <= b.len then b else a;
    status := AddScanned(dest, src, other, true, true);
  }

  method Difference<K(==, !new)>(dest: HashSet<K>, a: HashSet<K>, b: HashSet<K>) returns (status: Status)
    requires Operands(dest, a, b)
    modifies dest, dest.buckets, dest.heap, dest.heap.mem
    ensures Operands(dest, a, b) && (status == Ok || (status == OutOfMemory && dest.Refuses()))
    ensures status == Ok ==> forall k ::
      Member(dest.env, dest.Elements(), k) <==>
      old(Member(dest.env, dest.Elements(), k))
      || (old(Member(dest.env, a.Elements(), k)) && !old(Member(dest.env, b.Elements(), k)))
    ensures dest.heap.mem.refusals == old(dest.heap.mem.refusals) + if status == OutOfMemory then 1 else 0
  {
    hide Member, HashSet.Valid;
    status := AddScanned(dest, a, b, true, false);
  }
}
