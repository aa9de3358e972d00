// src/string/string.c: searching, splitting, joining and replacing.
module Strings {
  import opened Memory
  import opened Seqs

  type Byte = x: nat | x < 256
  type Bytes = seq<Byte>

  /** A view of some bytes. The NULL pointer is told apart from an empty view. */
  datatype Str = Null | At(bytes: Bytes) {
    function Text(): Bytes {
      if Null? then [] else bytes
    }
  }

  function View(b: Bytes): (s: Str)
    ensures s.Text() == b
  {
    At(b)
  }

  /** An owned copy: empty contents are represented by NULL. */
  function Copied(b: Bytes): Str {
    if b == [] then Null else At(b)
  }

  // ----- Searching

  predicate OccursAt(s: Bytes, needle: Bytes, i: nat) {
    i + |needle| <= |s| && s[i..i + |needle|] == needle
  }

  ghost predicate IsFirst(s: Bytes, needle: Bytes, found: Option<nat>) {
    match found
    case None => forall j: nat :: !OccursAt(s, needle, j)
    case Some(i) => OccursAt(s, needle, i) && forall j: nat :: j < i ==> !OccursAt(s, needle, j)
  }

  /** The first occurrence at or after i. */
  function FindFrom(s: Bytes, needle: Bytes, i: nat): (found: Option<nat>)
    ensures found.Some? ==> found.value + |needle| <= |s|
    decreases |s| - i
  {
    if OccursAt(s, needle, i) then Some(i)
    else if i >= |s| then None
    else FindFrom(s, needle, i + 1)
  }

  function Find(s: Bytes, needle: Bytes): (found: Option<nat>)
    ensures found.Some? ==> found.value + |needle| <= |s|
  {
    FindFrom(s, needle, 0)
  }

  lemma {:induction false} FindFromFinds(s: Bytes, needle: Bytes, i: nat)
    requires forall j: nat :: j < i ==> !OccursAt(s, needle, j)
    ensures IsFirst(s, needle, FindFrom(s, needle, i))
    decreases |s| - i
  {
    if !OccursAt(s, needle, i) && i < |s| {
      FindFromFinds(s, needle, i + 1);
    }
  }

  lemma FindFinds(s: Bytes, needle: Bytes)
    ensures IsFirst(s, needle, Find(s, needle))
  {
    FindFromFinds(s, needle, 0);
  }

  lemma FirstIsUnique(s: Bytes, needle: Bytes, a: Option<nat>, b: Option<nat>)
    requires IsFirst(s, needle, a) && IsFirst(s, needle, b)
    ensures a == b
  {
  }

  /** What a scan has found is what the search function finds. */
  lemma FoundAt(s: Bytes, needle: Bytes, i: nat)
    requires OccursAt(s, needle, i) && forall j: nat :: j < i ==> !OccursAt(s, needle, j)
    ensures IsFirst(s, needle, Some(i)) && Find(s, needle) == Some(i)
  {
    FindFinds(s, needle);
    hide Find;
    FirstIsUnique(s, needle, Some(i), Find(s, needle));
  }

  lemma FoundNowhere(s: Bytes, needle: Bytes)
    requires forall j: nat :: j + |needle| <= |s| ==> !OccursAt(s, needle, j)
    ensures IsFirst(s, needle, None) && Find(s, needle) == None
  {
    FindFinds(s, needle);
    hide Find;
    FirstIsUnique(s, needle, None, Find(s, needle));
  }

  /** `string_find`. */
  method StringFind(s: Str, needle: Str) returns (found: Option<nat>)
    ensures IsFirst(s.Text(), needle.Text(), found) && found == Find(s.Text(), needle.Text())
  {
    hide FindFrom, Find, IsFirst;
    var text, n := s.Text(), needle.Text();
    if |n| == 0 {
      FoundAt(text, n, 0);
      return Some(0);
    }
    if |n| > |text| {
      FoundNowhere(text, n);
      return None;
    }
    var i := 0;
    while i <= |text| - |n|
      invariant i <= |text| - |n| + 1
      invariant forall j: nat :: j < i ==> !OccursAt(text, n, j)
    {
      if text[i..i + |n|] == n {
        FoundAt(text, n, i);
        return Some(i);
      }
      i := i + 1;
    }
    FoundNowhere(text, n);
    return None;
  }

  /** `string_find_char`. */
  method StringFindChar(s: Str, c: Byte) returns (found: Option<nat>)
    ensures IsFirst(s.Text(), [c], found) && found == Find(s.Text(), [c])
  {
    hide FindFrom, Find, IsFirst;
    var text := s.Text();
    for i := 0 to |text|
      invariant forall j: nat :: j < i ==> !OccursAt(text, [c], j)
    {
      if text[i] == c {
        assert text[i..i + 1] == [c];
        FoundAt(text, [c], i);
        return Some(i);
      }
      assert text[i..i + 1][0] == text[i];
    }
    FoundNowhere(text, [c]);
    return None;
  }

  function FirstIn(s: Bytes, chars: Bytes): (found: Option<nat>)
    ensures found.Some? ==> found.value < |s| && s[found.value] in chars
    ensures forall j :: 0 <= j < (if found.Some? then found.value else |s|) ==> s[j] !in chars
  {
    if s == [] then None
    else if s[0] in chars then Some(0)
    else match FirstIn(s[1..], chars)
      case None => None
      case Some(i) => Some(i + 1)
  }

  /** `charset_find`. */
  method CharsetFind(s: Bytes, chars: Bytes) returns (found: Option<nat>)
    ensures found == FirstIn(s, chars)
  {
    for i := 0 to |s|
      invariant forall j :: 0 <= j < i ==> s[j] !in chars
    {
      for j := 0 to |chars|
        invariant s[i] !in chars[..j]
      {
        if s[i] == chars[j] {
          return Some(i);
        }
      }
    }
    return None;
  }

  // ----- Splitting and joining, as functions

  /** Where the next token of s ends, and how long the delimiter there is. */
  function Boundary(s: Bytes, delim: Bytes, anychar: bool): (b: Option<(nat, nat)>)
    ensures b.Some? ==> 0 < b.value.1 && b.value.0 + b.value.1 <= |s|
  {
    var off := if anychar then FirstIn(s, delim) else Find(s, delim);
    if delim == [] || off.None? then None else Some((off.value, if anychar then 1 else |delim|))
  }

  function Split(s: Bytes, delim: Bytes, anychar: bool): (tokens: seq<Bytes>)
    ensures tokens != []
    decreases |s|
  {
    var b := Boundary(s, delim, anychar);
    if b.None? then [s] else [s[..b.value.0]] + Split(s[b.value.0 + b.value.1..], delim, anychar)
  }

  function Joined(tokens: seq<Bytes>, sep: Bytes): Bytes {
    if tokens == [] then []
    else if |tokens| == 1 then tokens[0]
    else tokens[0] + sep + Joined(tokens[1..], sep)
  }

  /** Every occurrence replaced, left to right; the replacement is not searched again. */
  function Replaced(s: Bytes, needle: Bytes, replacement: Bytes): Bytes
    requires needle != []
    decreases |s|
  {
    var found := Find(s, needle);
    if found.None? then s
    else s[..found.value] + replacement + Replaced(s[found.value + |needle|..], needle, replacement)
  }

  // ----- Laws

  /** `string_join(string_split_substr(s, d, a), d, a) == s`, an empty d included. */
  lemma {:induction false} SplitThenJoin(s: Bytes, delim: Bytes)
    ensures Joined(Split(s, delim, false), delim) == s
    decreases |s|
  {
    FindFinds(s, delim);
    hide Find;
    var b := Boundary(s, delim, false);
    if b.Some? {
      var i, later := b.value.0, s[b.value.0 + b.value.1..];
      SplitThenJoin(later, delim);
      assert Split(s, delim, false)[1..] == Split(later, delim, false);
      assert s[..i] + delim + later == s;
    }
  }

  lemma PrefixHasNoOccurrence(s: Bytes, delim: Bytes, i: nat)
    requires IsFirst(s, delim, Some(i)) && delim != []
    ensures Find(s[..i], delim) == None
  {
    forall j: nat | j + |delim| <= i ensures !OccursAt(s[..i], delim, j) {
      assert s[..i][j..j + |delim|] == s[j..j + |delim|];
      assert !OccursAt(s, delim, j);
    }
    FindFinds(s[..i], delim);
  }

  lemma TokenIsFree(s: Bytes, delim: Bytes, anychar: bool, i: nat)
    requires Boundary(s, delim, anychar).Some? && Boundary(s, delim, anychar).value.0 == i
    ensures Boundary(s[..i], delim, anychar) == None
  {
    if anychar {
      assert forall j :: 0 <= j < i ==> s[..i][j] == s[j];
    } else {
      FindFinds(s, delim);
      PrefixHasNoOccurrence(s, delim, i);
    }
  }

  /** No token holds a delimiter. */
  lemma {:induction false} TokensAreFree(s: Bytes, delim: Bytes, anychar: bool)
    requires delim != []
    ensures forall t :: t in Split(s, delim, anychar) ==> Boundary(t, delim, anychar) == None
    ensures anychar ==> forall t, c :: t in Split(s, delim, anychar) && c in t ==> c !in delim
    ensures !anychar ==> forall t, j: nat :: t in Split(s, delim, anychar) ==> !OccursAt(t, delim, j)
    decreases |s|
  {
    var b := Boundary(s, delim, anychar);
    if b.Some? {
      var i, later := b.value.0, s[b.value.0 + b.value.1..];
      TokensAreFree(later, delim, anychar);
      TokenIsFree(s, delim, anychar, i);
      hide Boundary;
      assert Split(s, delim, anychar) == [s[..i]] + Split(later, delim, anychar);
    }
    FreeOfBytes(Split(s, delim, anychar), delim, anychar);
  }

  lemma FreeOfBytes(tokens: seq<Bytes>, delim: Bytes, anychar: bool)
    requires delim != [] && forall t :: t in tokens ==> Boundary(t, delim, anychar) == None
    ensures anychar ==> forall t, c :: t in tokens && c in t ==> c !in delim
    ensures !anychar ==> forall t, j: nat :: t in tokens ==> !OccursAt(t, delim, j)
  {
    forall t | t in tokens
      ensures anychar ==> forall c :: c in t ==> c !in delim
      ensures !anychar ==> forall j: nat :: !OccursAt(t, delim, j)
    {
      if !anychar {
        FindFinds(t, delim);
      }
    }
  }

  /** The tokens with one byte between each two. */
  function Interleaved(tokens: seq<Bytes>, seps: Bytes): Bytes
    requires |tokens| == |seps| + 1
  {
    if seps == [] then tokens[0] else tokens[0] + [seps[0]] + Interleaved(tokens[1..], seps[1..])
  }

  /** These tokens hold no byte of the set, and with single bytes of the set between them they make s. */
  ghost predicate CutsAtSet(s: Bytes, delim: Bytes, tokens: seq<Bytes>, seps: Bytes) {
    && |tokens| == |seps| + 1 && Interleaved(tokens, seps) == s
    && (forall i :: 0 <= i < |seps| ==> seps[i] in delim)
    && (forall i, c :: 0 <= i < |tokens| && c in tokens[i] ==> c !in delim)
  }

  /** The split by a set loses nothing but one byte of the set between neighbours. */
  lemma {:induction false} SetSplitCuts(s: Bytes, delim: Bytes) returns (seps: Bytes)
    requires delim != []
    ensures CutsAtSet(s, delim, Split(s, delim, true), seps)
    decreases |s|
  {
    var b := Boundary(s, delim, true);
    if b.None? {
      seps := [];
    } else {
      var i, later := b.value.0, s[b.value.0 + 1..];
      var more := SetSplitCuts(later, delim);
      seps := [s[i]] + more;
      SetSplitHead(s, delim, i, more);
    }
  }

  lemma SetSplitHead(s: Bytes, delim: Bytes, i: nat, more: Bytes)
    requires delim != [] && Boundary(s, delim, true) == Some((i, 1)) && i < |s|
    requires CutsAtSet(s[i + 1..], delim, Split(s[i + 1..], delim, true), more)
    ensures CutsAtSet(s, delim, Split(s, delim, true), [s[i]] + more)
  {
    var tokens, seps, later := Split(s, delim, true), [s[i]] + more, Split(s[i + 1..], delim, true);
    assert tokens == [s[..i]] + later && tokens[1..] == later && seps[1..] == more;
    assert s[..i] + [s[i]] + s[i + 1..] == s;
    hide Split, Boundary;
    forall k, c | 0 <= k < |tokens| && c in tokens[k]
      ensures c !in delim
    {
      if k > 0 {
        assert tokens[k] == later[k - 1];
      }
    }
  }

  lemma FirstByteOfSet(t: Bytes, c: Byte, rest: Bytes, delim: Bytes)
    requires c in delim && forall x :: x in t ==> x !in delim
    ensures FirstIn(t + [c] + rest, delim) == Some(|t|)
  {
    var s := t + [c] + rest;
    assert s[|t|] == c;
    assert forall j :: 0 <= j < |t| ==> s[j] == t[j];
    assert FirstIn(s, delim).Some?;
  }

  /** No other tokens do that. */
  lemma {:induction false} SetSplitIsTheOnly(s: Bytes, delim: Bytes, tokens: seq<Bytes>, seps: Bytes)
    requires delim != [] && CutsAtSet(s, delim, tokens, seps)
    ensures Split(s, delim, true) == tokens
    decreases |seps|
  {
    if seps == [] {
      assert FirstIn(s, delim).None?;
      assert tokens == [tokens[0]];
    } else {
      var later := Interleaved(tokens[1..], seps[1..]);
      FirstByteOfSet(tokens[0], seps[0], later, delim);
      SetSplitIsTheOnly(later, delim, tokens[1..], seps[1..]);
      assert s[..|tokens[0]|] == tokens[0] && s[|tokens[0]| + 1..] == later;
      assert tokens == [tokens[0]] + tokens[1..];
    }
  }

  /** `string_replace` is a split joined with the replacement. */
  lemma {:induction false} ReplaceIsSplitJoin(s: Bytes, needle: Bytes, replacement: Bytes)
    requires needle != []
    ensures Replaced(s, needle, replacement) == Joined(Split(s, needle, false), replacement)
    decreases |s|
  {
    hide Find;
    var found := Find(s, needle);
    if found.Some? {
      var later := s[found.value + |needle|..];
      ReplaceIsSplitJoin(later, needle, replacement);
      assert Split(s, needle, false)[1..] == Split(later, needle, false);
    }
  }

  /** Replacing a needle by itself changes nothing. */
  lemma ReplaceBySelf(s: Bytes, needle: Bytes)
    requires needle != []
    ensures Replaced(s, needle, needle) == s
  {
    ReplaceIsSplitJoin(s, needle, needle);
    SplitThenJoin(s, needle);
  }

  /** No delimiter begins inside a token, even one that would end beyond it. */
  ghost predicate Separable(tokens: seq<Bytes>, delim: Bytes) {
    && tokens != []
    && (forall i :: 0 <= i < |tokens| - 1 ==> Find(tokens[i] + delim, delim) == Some(|tokens[i]|))
    && Find(tokens[|tokens| - 1], delim) == None
  }

  lemma FindInFront(t: Bytes, delim: Bytes, rest: Bytes)
    requires delim != []
    ensures Find(t + delim, delim) == Some(|t|) <==> Find(t + delim + rest, delim) == Some(|t|)
  {
    var near, far := t + delim, t + delim + rest;
    FindFinds(near, delim);
    FindFinds(far, delim);
    forall j: nat | j <= |t| ensures OccursAt(near, delim, j) <==> OccursAt(far, delim, j) {
      assert near[j..j + |delim|] == far[j..j + |delim|];
    }
    assert near[|t|..|t| + |delim|] == delim;
  }

  lemma SplitHead(t: Bytes, delim: Bytes, rest: Bytes)
    requires delim != []
    ensures var s := t + delim + rest;
      if Find(t + delim, delim) == Some(|t|) then Split(s, delim, false) == [t] + Split(rest, delim, false)
      else Split(s, delim, false)[0] != t
  {
    var s := t + delim + rest;
    FindInFront(t, delim, rest);
    FindFinds(s, delim);
    assert s[|t|..|t| + |delim|] == delim && OccursAt(s, delim, |t|);
    assert s[..|t|] == t && s[|t| + |delim|..] == rest;
  }

  lemma SeparableFromFront(tokens: seq<Bytes>, delim: Bytes)
    requires |tokens| > 1
    ensures Separable(tokens, delim) <==>
            Find(tokens[0] + delim, delim) == Some(|tokens[0]|) && Separable(tokens[1..], delim)
  {
    hide Find;
    var later := tokens[1..];
    assert forall i :: 0 <= i < |later| ==> later[i] == tokens[i + 1];
    assert Separable(later, delim) ==> forall i :: 0 < i < |tokens| - 1 ==> tokens[i] == later[i - 1];
  }

  lemma JoinedSplitsShort(tokens: seq<Bytes>, delim: Bytes)
    requires delim != [] && |tokens| <= 1
    ensures Split(Joined(tokens, delim), delim, false) == tokens <==> Separable(tokens, delim)
  {
    hide Find;
  }

  lemma JoinedCons(tokens: seq<Bytes>, sep: Bytes)
    requires |tokens| > 1
    ensures Joined(tokens, sep) == tokens[0] + sep + Joined(tokens[1..], sep)
  {
  }

  /** Splitting takes a join apart again exactly when the tokens are separable. */
  lemma {:induction false} JoinThenSplit(tokens: seq<Bytes>, delim: Bytes)
    requires delim != []
    ensures Split(Joined(tokens, delim), delim, false) == tokens <==> Separable(tokens, delim)
    decreases |tokens|
  {
    hide *;
    if |tokens| <= 1 {
      JoinedSplitsShort(tokens, delim);
    } else {
      var later := tokens[1..];
      JoinedCons(tokens, delim);
      SplitHead(tokens[0], delim, Joined(later, delim));
      SeparableFromFront(tokens, delim);
      JoinThenSplit(later, delim);
      ConsEqual(tokens[0], Split(Joined(later, delim), delim, false), tokens);
    }
  }

  /** For a one-byte delimiter that means just: at least one token, and none holds the byte. */
  lemma OneByteSeparable(tokens: seq<Bytes>, c: Byte)
    ensures Separable(tokens, [c]) <==> tokens != [] && forall t :: t in tokens ==> c !in t
  {
    forall i | 0 <= i < |tokens|
      ensures Find(tokens[i] + [c], [c]) == Some(|tokens[i]|) <==> c !in tokens[i]
      ensures Find(tokens[i], [c]) == None <==> c !in tokens[i]
    {
      OneByteToken(tokens[i], c);
    }
  }

  lemma OneByteToken(t: Bytes, c: Byte)
    ensures Find(t + [c], [c]) == Some(|t|) <==> c !in t
    ensures Find(t, [c]) == None <==> c !in t
  {
    OneByteFind(t, c);
    OneByteFind(t + [c], c);
    var u := t + [c];
    assert u[|t|] == c && forall j :: 0 <= j < |t| ==> u[j] == t[j];
    if c in t {
      var j :| 0 <= j < |t| && t[j] == c;
      assert u[j] in [c];
    }
  }

  /** With a longer delimiter a token may hold none and still be torn: a, "" joined by aa. */
  lemma JoinThenSplitFails()
    ensures var tokens, delim := [[97], []], [97, 97];
      && (forall t :: t in tokens ==> Find(t, delim) == None)
      && Split(Joined(tokens, delim), delim, false) != tokens
  {
    var tokens: seq<Bytes>, delim: Bytes := [[97], []], [97, 97];
    FindFinds([97], delim);
    FindFinds([], delim);
    assert OccursAt([97] + delim, delim, 0);
    assert tokens[0] == [97];
    JoinThenSplit(tokens, delim);
  }

  lemma OneByteFind(s: Bytes, c: Byte)
    ensures Find(s, [c]) == FirstIn(s, [c])
  {
    FindFinds(s, [c]);
    var found := FirstIn(s, [c]);
    forall j: nat ensures OccursAt(s, [c], j) <==> j < |s| && s[j] == c {
      if j < |s| {
        assert s[j..j + 1] == [s[j]];
      }
    }
    FirstIsUnique(s, [c], Find(s, [c]), found);
  }

  /** With one byte, the substring split and the set split are the same. */
  lemma {:induction false} OneByteSplits(s: Bytes, c: Byte)
    ensures Split(s, [c], true) == Split(s, [c], false)
    decreases |s|
  {
    OneByteBoundary(s, c);
    hide Boundary;
    var b := Boundary(s, [c], true);
    if b.Some? {
      OneByteSplits(s[b.value.0 + b.value.1..], c);
    }
  }

  lemma OneByteBoundary(s: Bytes, c: Byte)
    ensures Boundary(s, [c], true) == Boundary(s, [c], false)
  {
    OneByteFind(s, c);
    hide Find, FirstIn;
  }

  // ----- The split iterator

  lemma SplitAt(s: Bytes, pos: nat, delim: Bytes, anychar: bool)
    requires pos <= |s|
    ensures var b, tokens := Boundary(s[pos..], delim, anychar), Split(s[pos..], delim, anychar);
      && (b.None? ==> tokens == [s[pos..]])
      && (b.Some? ==>
        && tokens[0] == s[pos..][..b.value.0]
        && tokens[1..] == Split(s[pos + b.value.0 + b.value.1..], delim, anychar))
  {
    hide Boundary;
    var b := Boundary(s[pos..], delim, anychar);
    if b.Some? {
      DropTwice(s, pos, b.value.0 + b.value.1);
    }
  }

  class SplitIter {
    const src: Str
    const delim: Bytes
    const anychar: bool
    var pos: nat

    /** The tokens still to come. */
    ghost function Rest(): seq<Bytes>
      reads this
    {
      if pos > |src.Text()| then [] else Split(src.Text()[pos..], delim, anychar)
    }

    constructor (src: Str, delim: Str, anychar: bool)
      ensures Rest() == Split(src.Text(), delim.Text(), anychar)
      ensures this.src == src && this.delim == delim.Text() && this.anychar == anychar
    {
      this.src, this.delim, this.anychar, pos := src, delim.Text(), anychar, 0;
      new;
      assert src.Text()[0..] == src.Text();
    }

    /** `split_next`. */
    method Next() returns (token: Option<Bytes>)
      modifies this
      ensures old(Rest()) == [] ==> token == None && Rest() == []
      ensures old(Rest()) != [] ==> token == Some(old(Rest())[0]) && Rest() == old(Rest())[1..]
    {
      hide Find;
      hide FirstIn;
      hide IsFirst;
      hide Split;
      if pos > |src.Text()| {
        return None;
      }
      var remaining := src.Text()[pos..];
      var off: Option<nat> := None;
      var blen := |delim|;
      if |delim| > 0 {
        if anychar {
          off := CharsetFind(remaining, delim);
          blen := 1;
        } else {
          off := StringFind(At(remaining), At(delim));
        }
      }
      assert Boundary(remaining, delim, anychar) == if off.None? then None else Some((off.value, blen));
      SplitAt(src.Text(), pos, delim, anychar);
      hide Boundary;
      if off.None? {
        token := Some(remaining);
        pos := |src.Text()| + 1;
      } else {
        token := Some(remaining[..off.value]);
        pos := pos + off.value + blen;
      }
    }

    /** Pull until the first false. */
    method Collect() returns (tokens: seq<Bytes>)
      modifies this
      ensures tokens == old(Rest()) && Rest() == []
    {
      hide *;
      tokens := [];
      Nothing(Rest());
      while true
        invariant Adds(tokens, Rest(), old(Rest()))
        decreases |Rest()|
      {
        AddOne(tokens, Rest(), old(Rest()));
        var token := Next();
        if token.None? {
          break;
        }
        tokens := tokens + [token.value];
      }
    }
  }

  method SplitAll(s: Str, delim: Str, anychar: bool) returns (tokens: seq<Bytes>)
    ensures tokens == Split(s.Text(), delim.Text(), anychar)
    ensures anychar && delim.Text() != [] ==> exists seps :: CutsAtSet(s.Text(), delim.Text(), tokens, seps)
  {
    if anychar && delim.Text() != [] {
      var seps := SetSplitCuts(s.Text(), delim.Text());
    }
    var it := new SplitIter(s, delim, anychar);
    tokens := it.Collect();
  }

  /** What a loop around `string_split_next` is to yield: the substring split, but nothing at all for NULL. */
  function Pieces(s: Str, sep: Byte): (tokens: seq<Bytes>)
    ensures tokens == [] <==> s.Null?
  {
    if s.Null? then [] else Split(s.bytes, [sep], false)
  }

  lemma PiecesAre(s: Str, sep: Byte)
    ensures Pieces(s, sep) == if s.Null? then [] else Split(s.bytes, [sep], false)
  {
  }

  /** `string_split_next`: NULL means that nothing is left, an empty view that one empty token is. */
  method SplitNext(rest: Str, sep: Byte) returns (token: Option<Bytes>, after: Str)
    ensures rest.Null? ==> token == None && after == Null
    ensures rest.At? ==> token == Some(Pieces(rest, sep)[0]) && Pieces(after, sep) == Pieces(rest, sep)[1..]
    ensures after.At? ==> |after.Text()| < |rest.Text()|
  {
    if rest.Null? {
      return None, rest;
    }
    var i := StringFindChar(rest, sep);
    if i.None? {
      token, after := Some(rest.bytes), Null;
    } else {
      token, after := Some(rest.bytes[..i.value]), At(rest.bytes[i.value + 1..]);
    }
  }

  /** The loop around `string_split_next` yields the tokens of the substring split; for NULL it yields none. */
  method SplitNextAll(s: Str, sep: Byte) returns (tokens: seq<Bytes>)
    ensures tokens == Pieces(s, sep)
    ensures tokens == if s.Null? then [] else Split(s.bytes, [sep], false)
  {
    hide *;
    PiecesAre(s, sep);
    ghost var goal := Pieces(s, sep);
    var rest := s;
    tokens := [];
    Nothing(goal);
    while rest.At?
      invariant Adds(tokens, Pieces(rest, sep), goal)
      decreases rest.At?, |rest.Text()|
    {
      AddOne(tokens, Pieces(rest, sep), goal);
      var token, after := SplitNext(rest, sep);
      tokens := tokens + [token.value];
      rest := after;
    }
    AddOne(tokens, Pieces(rest, sep), goal);
  }

  // ----- The string builder

  /** The string that was to be built, or NULL if a request was refused on the way. */
  function Made(text: Bytes, refused: bool): Str {
    if refused then Null else Copied(text)
  }

  /** `string_copy`. */
  method StringCopy(s: Str, mem: Allocator) returns (copy: Str)
    modifies mem
    ensures copy == Made(s.Text(), mem.refusals > old(mem.refusals))
    ensures mem.refusals >= old(mem.refusals)
    ensures mem.generous || s.Text() == [] ==> mem.refusals == old(mem.refusals)
  {
    if s.Null? || |s.bytes| == 0 {
      return Null;
    }
    var ok := mem.Request();
    copy := if ok then At(s.bytes) else Null;
  }

  class StrBuf {
    const mem: Allocator
    var chars: Bytes
    var cap: nat  // of the vector that holds chars

    ghost predicate Valid()
      reads this
    {
      |chars| <= cap
    }

    constructor (mem: Allocator)
      ensures Valid() && chars == [] && this.mem == mem
    {
      this.mem, chars, cap := mem, [], 0;
    }

    /** `strbuf_append`: byte by byte, so what came before a refusal stays. */
    method Append(s: Str) returns (status: Status)
      requires Valid()
      modifies this, mem
      ensures Valid() && (status == Ok || (status == OutOfMemory && !mem.generous))
      ensures status == Ok ==> chars == old(chars) + s.Text()
      ensures status != Ok ==> old(chars) <= chars < old(chars) + s.Text() && |chars| == cap
      ensures mem.refusals == old(mem.refusals) + if status == OutOfMemory then 1 else 0
    {
      var text := s.Text();
      for i := 0 to |text|
        invariant Valid() && chars == old(chars) + text[..i] && mem.refusals == old(mem.refusals)
      {
        var ok, room := mem.MakeRoom(|chars|, cap);
        cap := room;
        if !ok {
          return OutOfMemory;
        }
        chars := chars + [text[i]];
      }
      status := Ok;
    }

    /** `strbuf_to_string`. */
    method ToString() returns (s: Str)
      modifies mem
      ensures s == Made(chars, mem.refusals > old(mem.refusals)) && mem.refusals >= old(mem.refusals)
      ensures mem.generous ==> mem.refusals == old(mem.refusals)
    {
      s := StringCopy(View(chars), mem);
    }
  }

  /** `strbuf_create`: the builder and its vector. */
  method CreateStrBuf(mem: Allocator) returns (sb: StrBuf?)
    modifies mem
    ensures sb == null ==> !mem.generous
    ensures sb != null ==> fresh(sb) && sb.Valid() && sb.chars == [] && sb.mem == mem
    ensures mem.refusals == old(mem.refusals) + if sb == null then 1 else 0
  {
    var ok := mem.Request();
    if ok {
      ok := mem.Request();
    }
    if !ok {
      return null;
    }
    sb := new StrBuf(mem);
  }

  lemma {:induction false} JoinedSnoc(tokens: seq<Bytes>, t: Bytes, sep: Bytes)
    requires tokens != []
    ensures Joined(tokens + [t], sep) == Joined(tokens, sep) + sep + t
  {
    var longer := tokens + [t];
    assert longer[1..] == tokens[1..] + [t];
    if |tokens| > 1 {
      JoinedSnoc(tokens[1..], t, sep);
    }
  }

  /** One turn of the loop in `string_join`. */
  method JoinNext(sb: StrBuf, tokens: seq<Bytes>, i: nat, sep: Str) returns (status: Status)
    requires sb.Valid() && i < |tokens| && sb.chars == Joined(tokens[..i], sep.Text())
    modifies sb, sb.mem
    ensures sb.Valid() && (status == Ok || (status == OutOfMemory && !sb.mem.generous))
    ensures sb.mem.refusals == old(sb.mem.refusals) + if status == OutOfMemory then 1 else 0
    ensures status == Ok ==> sb.chars == Joined(tokens[..i + 1], sep.Text())
  {
    assert tokens[..i + 1] == tokens[..i] + [tokens[i]];
    status := Ok;
    if i > 0 {
      JoinedSnoc(tokens[..i], tokens[i], sep.Text());
      status := sb.Append(sep);
    }
    if status == Ok {
      status := sb.Append(At(tokens[i]));
    }
  }

  /** `string_join` over the tokens an iterator yields. */
  method StringJoin(tokens: seq<Bytes>, sep: Str, mem: Allocator) returns (result: Str)
    modifies mem
    ensures result == Made(Joined(tokens, sep.Text()), mem.refusals > old(mem.refusals))
    ensures mem.refusals >= old(mem.refusals)
    ensures mem.generous ==> mem.refusals == old(mem.refusals)
  {
    var sb := CreateStrBuf(mem);
    if sb == null {
      return Null;
    }
    var i, status := 0, Ok;
    while status == Ok && i < |tokens|
      invariant i <= |tokens| && fresh(sb) && sb.Valid() && sb.mem == mem
      invariant status == Ok || (status == OutOfMemory && !mem.generous)
      invariant mem.refusals == old(mem.refusals) + if status == OutOfMemory then 1 else 0
      invariant status == Ok ==> sb.chars == Joined(tokens[..i], sep.Text())
    {
      status := JoinNext(sb, tokens, i, sep);
      i := i + 1;
    }
    if status != Ok {
      return Null;
    }
    assert tokens[..|tokens|] == tokens;
    result := sb.ToString();
  }

  /**
   * `string_join(string_split_substr(s, d, a), d, a)`: the contents of s, so s itself if memory lasts, but for one
   * string: the empty one that is not NULL comes back as NULL.
   */
  method SplitAndJoin(s: Str, delim: Str, mem: Allocator) returns (r: Str)
    modifies mem
    ensures mem.refusals == old(mem.refusals) ==> r == Copied(s.Text()) && (r == s <==> s != At([]))
    ensures mem.refusals != old(mem.refusals) ==> r == Null
    ensures mem.generous ==> mem.refusals == old(mem.refusals)
  {
    SplitThenJoin(s.Text(), delim.Text());
    var ok := mem.Request();
    if !ok {
      return Null;
    }
    var tokens := SplitAll(s, delim, false);
    r := StringJoin(tokens, delim, mem);
  }

  /** A run that has written done and still has s to scan will have written goal in the end. */
  ghost predicate OnTrack(done: Bytes, s: Bytes, needle: Bytes, replacement: Bytes, goal: Bytes)
    requires needle != []
  {
    done + Replaced(s, needle, replacement) == goal
  }

  lemma ReplacedAt(s: Bytes, needle: Bytes, replacement: Bytes, i: nat)
    requires needle != [] && Find(s, needle) == Some(i) && i + |needle| <= |s|
    ensures Replaced(s, needle, replacement) == s[..i] + replacement + Replaced(s[i + |needle|..], needle, replacement)
  {
    hide Find;
  }

  lemma ReplaceStart(text: Bytes, needle: Bytes, replacement: Bytes)
    requires needle != []
    ensures OnTrack([], text[0..], needle, replacement, Replaced(text, needle, replacement))
  {
    hide Replaced;
    assert text[0..] == text;
  }

  lemma ReplaceStep(done: Bytes, text: Bytes, pos: nat, needle: Bytes, replacement: Bytes, i: nat, goal: Bytes)
    requires needle != [] && pos <= |text| && OnTrack(done, text[pos..], needle, replacement, goal)
    requires Find(text[pos..], needle) == Some(i) && pos + i + |needle| <= |text|
    ensures OnTrack(done + text[pos..][..i] + replacement, text[pos + i + |needle|..], needle, replacement, goal)
  {
    hide Find;
    hide Replaced;
    var later := text[pos + i + |needle|..];
    ReplacedAt(text[pos..], needle, replacement, i);
    DropTwice(text, pos, i + |needle|);
    var last := Replaced(later, needle, replacement);
    Assoc(done, text[pos..][..i] + replacement, last);
    Assoc(done, text[pos..][..i], replacement);
  }

  lemma ReplaceLast(done: Bytes, s: Bytes, needle: Bytes, replacement: Bytes, goal: Bytes)
    requires needle != [] && OnTrack(done, s, needle, replacement, goal)
    ensures Find(s, needle) == None ==> done + s == goal
    ensures s == [] ==> done == goal
  {
    FindFinds([], needle);
    assert done + [] == done;
  }

  /** One turn of the loop in `string_replace`. */
  method ReplaceNext(sb: StrBuf, text: Bytes, pos: nat, needle: Str, replacement: Str, ghost goal: Bytes)
    returns (status: Status, next: Option<nat>)
    requires sb.Valid() && pos < |text| && needle.Text() != []
    requires OnTrack(sb.chars, text[pos..], needle.Text(), replacement.Text(), goal)
    modifies sb, sb.mem
    ensures sb.Valid() && (status == Ok || (status == OutOfMemory && !sb.mem.generous))
    ensures sb.mem.refusals == old(sb.mem.refusals) + if status == OutOfMemory then 1 else 0
    ensures status == Ok && next.None? ==> sb.chars == goal
    ensures next.Some? ==> pos < next.value <= |text|
    ensures status == Ok && next.Some? ==>
      OnTrack(sb.chars, text[next.value..], needle.Text(), replacement.Text(), goal)
  {
    hide *;
    var remaining := View(text[pos..]);
    var found := StringFind(remaining, needle);
    if found.None? {
      ReplaceLast(sb.chars, text[pos..], needle.Text(), replacement.Text(), goal);
      status := sb.Append(remaining);
      return status, None;
    }
    ReplaceStep(sb.chars, text, pos, needle.Text(), replacement.Text(), found.value, goal);
    var before := View(text[pos..][..found.value]);
    status := sb.Append(before);
    if status == Ok {
      status := sb.Append(replacement);
    }
    next := Some(pos + found.value + |needle.Text()|);
  }

  /** `string_replace`. */
  method StringReplace(s: Str, needle: Str, replacement: Str, mem: Allocator) returns (result: Str)
    modifies mem
    ensures needle.Text() == [] ==> result == Made(s.Text(), mem.refusals > old(mem.refusals))
    ensures needle.Text() != [] ==>
      var text := Joined(Split(s.Text(), needle.Text(), false), replacement.Text());
      result == Made(text, mem.refusals > old(mem.refusals))
    ensures mem.generous ==> mem.refusals == old(mem.refusals)
  {
    hide Find, Split, Joined, Replaced, OnTrack, IsFirst, Copied;
    var text := s.Text();
    if |needle.Text()| == 0 {
      result := StringCopy(s, mem);
      return;
    }
    ReplaceIsSplitJoin(text, needle.Text(), replacement.Text());
    ghost var goal := Replaced(text, needle.Text(), replacement.Text());
    ReplaceStart(text, needle.Text(), replacement.Text());
    var sb := CreateStrBuf(mem);
    if sb == null {
      return Null;
    }
    var status, next := Ok, Some(0);
    while status == Ok && next.Some? && next.value < |text|
      invariant fresh(sb) && sb.Valid() && sb.mem == mem && (status == Ok || (status == OutOfMemory && !mem.generous))
      invariant mem.refusals == old(mem.refusals) + if status == OutOfMemory then 1 else 0
      invariant status == Ok && next.None? ==> sb.chars == goal
      invariant next.Some? ==> next.value <= |text|
      invariant status == Ok && next.Some? ==>
        OnTrack(sb.chars, text[next.value..], needle.Text(), replacement.Text(), goal)
      decreases if status == Ok && next.Some? then 1 + |text| - next.value else 0
    {
      status, next := ReplaceNext(sb, text, next.value, needle, replacement, goal);
    }
    if status != Ok {
      return Null;
    }
    if next.Some? {
      ReplaceLast(sb.chars, text[next.value..], needle.Text(), replacement.Text(), goal);
    }
    result := sb.ToString();
  }
}
