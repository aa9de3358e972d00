// src/string/string.c: strings as keys of the hash containers and of the ordered ones, ASCII case folded.
module StringKeys {
  import opened Order
  import opened RobinHood
  import opened Seqs
  import opened Strings

  /** ASCII only: bytes of UTF-8 sequences are left alone. */
  function AsciiLower(c: Byte): Byte {
    if 65 <= c <= 90 then c + 32 else c
  }

  function Lower(s: Bytes): (r: Bytes)
    ensures |r| == |s| && forall i :: 0 <= i < |s| ==> r[i] == AsciiLower(s[i])
  {
    seq(|s|, i requires 0 <= i < |s| => AsciiLower(s[i]))
  }

  /** Lexicographic on the folded bytes, the shorter first. */
  function CompareFolded(a: Bytes, b: Bytes): int {
    if a == [] || b == [] then
      (if |a| > |b| then 1 else 0) - (if |a| < |b| then 1 else 0)
    else if AsciiLower(a[0]) != AsciiLower(b[0]) then
      AsciiLower(a[0]) - AsciiLower(b[0])
    else
      CompareFolded(a[1..], b[1..])
  }

  const FNV_OFFSET: bv64 := 14695981039346656037

  /** FNV-1a, in 64-bit arithmetic that wraps. */
  function Mix(hash: bv64, c: Byte): bv64 {
    (hash ^ (c as bv64)) * 1099511628211
  }

  function Fnv(s: Bytes): bv64 {
    if s == [] then FNV_OFFSET else Mix(Fnv(s[..|s| - 1]), s[|s| - 1])
  }

  function Hash(s: Bytes): nat {
    if s == [] then 0 else Fnv(s) as nat
  }

  /** `string_equals_case_insensitive`. */
  method EqualsFolded(a: Str, b: Str) returns (equal: bool)
    ensures equal <==> Lower(a.Text()) == Lower(b.Text())
    ensures var s, t := a.Text(), b.Text();
      equal <==> |s| == |t| && forall i :: 0 <= i < |s| ==>
        s[i] == t[i] || (65 <= s[i] <= 90 && t[i] == s[i] + 32) || (65 <= t[i] <= 90 && s[i] == t[i] + 32)
  {
    var s, t := a.Text(), b.Text();
    if |s| != |t| {
      return false;
    }
    for i := 0 to |s|
      invariant forall j :: 0 <= j < i ==> AsciiLower(s[j]) == AsciiLower(t[j])
    {
      if AsciiLower(s[i]) != AsciiLower(t[i]) {
        assert Lower(s)[i] != Lower(t)[i];
        return false;
      }
    }
    return true;
  }

  /** The sign is that of the first difference, letters compared as small ones; a prefix comes first. */
  lemma {:induction false} CompareAtDifference(a: Bytes, b: Bytes, i: nat)
    requires i <= |a| && i <= |b|
    requires forall j :: 0 <= j < i ==>
      a[j] == b[j] || (65 <= a[j] <= 90 && b[j] == a[j] + 32) || (65 <= b[j] <= 90 && a[j] == b[j] + 32)
    ensures i == |a| < |b| ==> CompareFolded(a, b) == -1
    ensures i == |b| < |a| ==> CompareFolded(a, b) == 1
    ensures i == |a| == |b| ==> CompareFolded(a, b) == 0
    ensures i < |a| && i < |b| ==>
      var x: int := if 65 <= a[i] <= 90 then a[i] + 32 else a[i];
      var y: int := if 65 <= b[i] <= 90 then b[i] + 32 else b[i];
      x != y ==> CompareFolded(a, b) == x - y
  {
    if i > 0 {
      CompareAtDifference(a[1..], b[1..], i - 1);
    }
  }

  /** `string_compare_case_insensitive`. */
  method CompareStrings(a: Str, b: Str) returns (c: int)
    ensures c == CompareFolded(a.Text(), b.Text())
  {
    var s, t := a.Text(), b.Text();
    var min := if |s| < |t| then |s| else |t|;
    for i := 0 to min
      invariant CompareFolded(s[i..], t[i..]) == CompareFolded(s, t)
    {
      c := AsciiLower(s[i]) - AsciiLower(t[i]);
      if c != 0 {
        return;
      }
      assert s[i..][1..] == s[i + 1..] && t[i..][1..] == t[i + 1..];
    }
    c := (if |s| > |t| then 1 else 0) - (if |s| < |t| then 1 else 0);
  }

  /** `string_hash_case_insensitive`. */
  method HashFolded(a: Str) returns (h: nat)
    ensures h == Hash(Lower(a.Text()))
  {
    var s := a.Text();
    if |s| == 0 {
      return 0;
    }
    hide Mix;
    var hash := FNV_OFFSET;
    for i := 0 to |s|
      invariant hash == Fnv(Lower(s)[..i])
    {
      assert Lower(s)[..i + 1][..i] == Lower(s)[..i];
      hash := Mix(hash, AsciiLower(s[i]));
    }
    assert Lower(s)[..|s|] == Lower(s);
    h := hash as nat;
  }

  lemma FnvSnoc(s: Bytes, c: Byte)
    ensures Fnv(s + [c]) == Mix(Fnv(s), c)
  {
    hide Mix;
    assert (s + [c])[..|s|] == s;
  }

  lemma MixOfA()
    ensures Mix(14695981039346656037, 97) == 0xaf63dc4c8601ec8c
  {
  }

  lemma MixOfB()
    ensures Mix(0xaf63dc4c8601ec8c, 98) == 0x89c4407b545986a
  {
  }

  /** The published values for "a" and "ab", here of "A" and "aB". */
  lemma KnownHashes()
    ensures Hash(Lower([65])) == 0xaf63dc4c8601ec8c && Hash(Lower([97, 66])) == 0x89c4407b545986a && Hash([]) == 0
  {
    assert Lower([65]) == [97] && Lower([97, 66]) == [97, 98] && [] + [97] == [97] && [97] + [98] == [97, 98];
    FnvSnoc([], 97);
    FnvSnoc([97], 98);
    MixOfA();
    MixOfB();
    hide Mix;
  }

  lemma LowerCons(a: Bytes)
    requires a != []
    ensures Lower(a) == [AsciiLower(a[0])] + Lower(a[1..])
  {
  }

  lemma CompareCons(a: Bytes, b: Bytes)
    requires a != [] && b != []
    ensures CompareFolded(a, b) ==
      var x, y := AsciiLower(a[0]), AsciiLower(b[0]);
      if x != y then x - y else CompareFolded(a[1..], b[1..])
  {
  }

  /** Equality and comparison agree. */
  lemma {:induction false} CompareIsZero(a: Bytes, b: Bytes)
    ensures CompareFolded(a, b) == 0 <==> Lower(a) == Lower(b)
  {
    if a != [] && b != [] {
      hide AsciiLower, CompareFolded;
      LowerCons(a);
      LowerCons(b);
      CompareCons(a, b);
      CompareIsZero(a[1..], b[1..]);
      HeadOf([AsciiLower(a[0])], Lower(a[1..]));
      HeadOf([AsciiLower(b[0])], Lower(b[1..]));
      if AsciiLower(a[0]) == AsciiLower(b[0]) {
        ConsEqual(AsciiLower(a[0]), Lower(a[1..]), Lower(b));
      }
    }
  }

  lemma {:induction false} CompareFlips(a: Bytes, b: Bytes)
    ensures CompareFolded(a, b) == -CompareFolded(b, a)
  {
    if a != [] && b != [] {
      CompareFlips(a[1..], b[1..]);
    }
  }

  lemma {:induction false} CompareChains(a: Bytes, b: Bytes, c: Bytes)
    requires CompareFolded(a, b) <= 0 && CompareFolded(b, c) <= 0
    ensures CompareFolded(a, c) <= 0
  {
    if a != [] && b != [] && c != [] {
      if AsciiLower(a[0]) == AsciiLower(b[0]) == AsciiLower(c[0]) {
        CompareChains(a[1..], b[1..], c[1..]);
      }
    }
  }

  /** The comparison suits the ordered containers. */
  lemma FoldedOrderIsLawful()
    ensures Ord(CompareFolded).Lawful()
  {
    var ord := Ord(CompareFolded);
    forall a: Bytes, b: Bytes, c: Bytes ensures ord.Laws(a, b, c) {
      CompareIsZero(a, a);
      CompareFlips(a, b);
      if CompareFolded(a, b) <= 0 && CompareFolded(b, c) <= 0 {
        CompareChains(a, b, c);
      }
    }
  }

  function FoldedKeys(): Env<Bytes> {
    Env((s: Bytes) => Hash(Lower(s)), (a: Bytes, b: Bytes) => Lower(a) == Lower(b))
  }

  /** Hash and equality suit the hash containers. */
  lemma FoldedKeysAreLawful()
    ensures FoldedKeys().Lawful()
  {
    var env := FoldedKeys();
    forall a: Bytes, b: Bytes, c: Bytes ensures env.Laws(a, b, c) {
    }
  }
}
