/**
 * The Python string operations the lookup pipeline relies on:
 * `str.lower`, `str.strip`, the `in` substring test and `find`, and
 * `str.split(sep)` with its inverse `sep.join`. The `split(marker)[1]`
 * idiom of the reply parser is `AiParser.AfterLabel`.
 */
module Text {
  import opened Wrappers

  // ---------------------------------------------------------------------------
  // Whitespace and `str.strip()`
  // ---------------------------------------------------------------------------

  /** The characters Python's `str.isspace` accepts, which are the ones `str.strip()` removes. */
  predicate IsSpace(c: char) {
    c == ' ' || ('\t' <= c <= '\r') || ('\U{1C}' <= c <= '\U{1F}') ||
    c == '\U{85}' || c == '\U{A0}' || c == '\U{1680}' || ('\U{2000}' <= c <= '\U{200A}') ||
    c == '\U{2028}' || c == '\U{2029}' || c == '\U{202F}' || c == '\U{205F}' || c == '\U{3000}'
  }

  predicate AllSpace(s: string) {
    forall k :: 0 <= k < |s| ==> IsSpace(s[k])
  }

  /** `s` has no whitespace at either end. */
  predicate Trimmed(s: string) {
    s == [] || (!IsSpace(s[0]) && !IsSpace(s[|s| - 1]))
  }

  /** Drops leading whitespace: the result is the suffix that starts at the first non-space. */
  function TrimLeft(s: string): (r: string)
    ensures |r| <= |s| && r == s[|s| - |r|..]
    ensures forall k :: 0 <= k < |s| - |r| ==> IsSpace(s[k])
    ensures r != [] ==> !IsSpace(r[0])
  {
    if s != [] && IsSpace(s[0]) then
      var r := TrimLeft(s[1..]);
      assert forall k :: 1 <= k < |s| ==> s[k] == s[1..][k - 1];
      r
    else
      s
  }

  /** Drops trailing whitespace: the result is the prefix that ends at the last non-space. */
  function TrimRight(s: string): (r: string)
    ensures |r| <= |s| && r == s[..|r|]
    ensures forall k :: |r| <= k < |s| ==> IsSpace(s[k])
    ensures r != [] ==> !IsSpace(r[|r| - 1])
  {
    if s != [] && IsSpace(s[|s| - 1]) then
      var r := TrimRight(s[..|s| - 1]);
      assert forall k :: 0 <= k < |s| - 1 ==> s[k] == s[..|s| - 1][k];
      r
    else
      s
  }

  /** Python's `s.strip()`. */
  function Trim(s: string): (r: string)
    ensures Trimmed(r)
  {
    TrimRight(TrimLeft(s))
  }

  /** The whitespace-free part of any split `pad1 + core + pad2` is what `Trim` returns. */
  lemma TrimUnique(pad1: string, core: string, pad2: string)
    requires AllSpace(pad1) && AllSpace(pad2) && Trimmed(core)
    ensures Trim(pad1 + core + pad2) == core
  {
    var s := pad1 + core + pad2;
    if core == [] {
      assert s == pad1 + pad2;
      AllSpaceConcat(pad1, pad2);
      TrimLeftAllSpace(s);
    } else {
      assert s == pad1 + (core + pad2);
      TrimLeftOfPadded(pad1, core + pad2);
      TrimRightOfPadded(core, pad2);
    }
  }

  lemma AllSpaceConcat(a: string, b: string)
    requires AllSpace(a) && AllSpace(b)
    ensures AllSpace(a + b)
  {
    forall k | 0 <= k < |a + b|
      ensures IsSpace((a + b)[k])
    {
      if k < |a| { assert (a + b)[k] == a[k]; } else { assert (a + b)[k] == b[k - |a|]; }
    }
  }

  lemma {:induction false} TrimLeftOfPadded(pad: string, rest: string)
    requires AllSpace(pad)
    requires rest == [] || !IsSpace(rest[0])
    ensures TrimLeft(pad + rest) == rest
  {
    if pad != [] {
      assert (pad + rest)[1..] == pad[1..] + rest;
      TrimLeftOfPadded(pad[1..], rest);
    } else {
      assert pad + rest == rest;
    }
  }

  lemma {:induction false} TrimRightOfPadded(core: string, pad: string)
    requires AllSpace(pad)
    requires core != [] && !IsSpace(core[|core| - 1])
    ensures TrimRight(core + pad) == core
  {
    if pad != [] {
      var s := core + pad;
      assert s[..|s| - 1] == core + pad[..|pad| - 1];
      TrimRightOfPadded(core, pad[..|pad| - 1]);
    } else {
      assert core + pad == core;
    }
  }

  lemma {:induction false} TrimLeftAllSpace(s: string)
    requires AllSpace(s)
    ensures TrimLeft(s) == []
  {
    if s != [] {
      TrimLeftAllSpace(s[1..]);
    }
  }

  /** Stripping twice is stripping once. */
  lemma TrimIdempotent(s: string)
    ensures Trim(Trim(s)) == Trim(s)
  {
    TrimUnique([], Trim(s), []);
    assert [] + Trim(s) + [] == Trim(s);
  }

  /** A string made only of whitespace strips to the empty string. */
  lemma TrimAllSpace(s: string)
    requires AllSpace(s)
    ensures Trim(s) == []
  {
    TrimUnique(s, [], []);
    assert s + [] + [] == s;
  }

  // ---------------------------------------------------------------------------
  // `str.lower()`
  // ---------------------------------------------------------------------------

  predicate IsUpper(c: char) {
    'A' <= c <= 'Z'
  }

  function LowerChar(c: char): (r: char)
    ensures !IsUpper(r)
    ensures IsSpace(r) <==> IsSpace(c)
  {
    if IsUpper(c) then (c as int + 32) as char else c
  }

  /** Python's `s.lower()` on the ASCII letters. */
  function Lower(s: string): (r: string)
    ensures |r| == |s|
    ensures forall k :: 0 <= k < |s| ==> r[k] == LowerChar(s[k])
  {
    if s == [] then [] else [LowerChar(s[0])] + Lower(s[1..])
  }

  /** Lowering leaves no upper-case letter, and lowering again changes nothing. */
  lemma LowerIdempotent(s: string)
    ensures forall k :: 0 <= k < |Lower(s)| ==> !IsUpper(Lower(s)[k])
    ensures Lower(Lower(s)) == Lower(s)
  {
  }

  /** Lowering keeps whitespace exactly where it was. */
  lemma LowerAllSpace(s: string)
    requires AllSpace(s)
    ensures AllSpace(Lower(s))
  {
  }

  // ---------------------------------------------------------------------------
  // Substring search: `sub in s`, `s.find(sub)`
  // ---------------------------------------------------------------------------

  /** `sub` occurs in `s` at position `i`. */
  predicate OccursAt(s: string, sub: string, i: int) {
    0 <= i && i + |sub| <= |s| && s[i..i + |sub|] == sub
  }

  /** The first position at or after `from` where `sub` occurs in `s`. */
  function IndexFrom(s: string, sub: string, from: nat): (r: Option<nat>)
    ensures r.Some? ==> from <= r.value && OccursAt(s, sub, r.value)
    ensures r.Some? ==> forall j :: from <= j < r.value ==> !OccursAt(s, sub, j)
    ensures r.None? ==> forall j :: from <= j ==> !OccursAt(s, sub, j)
    decreases |s| - from
  {
    if from + |sub| > |s| then None
    else if s[from..from + |sub|] == sub then Some(from)
    else IndexFrom(s, sub, from + 1)
  }

  /** The position of the first occurrence of `sub` in `s`, as Python's `s.find(sub)` finds it. */
  function IndexOf(s: string, sub: string): (r: Option<nat>)
    ensures r.Some? ==> OccursAt(s, sub, r.value)
    ensures r.Some? ==> forall j :: 0 <= j < r.value ==> !OccursAt(s, sub, j)
    ensures r.None? ==> forall j :: !OccursAt(s, sub, j)
  {
    IndexFrom(s, sub, 0)
  }

  /** Python's `sub in s`. */
  predicate Contains(s: string, sub: string) {
    exists i :: 0 <= i <= |s| - |sub| && OccursAt(s, sub, i)
  }

  /** A string that starts with `sub` finds it at position 0. */
  lemma IndexOfPrefix(sub: string, rest: string)
    ensures IndexOf(sub + rest, sub) == Some(0)
  {
    assert OccursAt(sub + rest, sub, 0);
  }

  /** A string contains every piece it is built from. */
  lemma ContainsMiddle(t: string, a: string, sub: string, b: string)
    requires t == a + sub + b
    ensures Contains(t, sub)
  {
    assert t[|a|..|a| + |sub|] == sub;
    assert OccursAt(t, sub, |a|);
  }

  /** `sub in s` holds exactly when `s.find(sub)` finds a position. */
  lemma ContainsIff(s: string, sub: string)
    ensures Contains(s, sub) <==> IndexOf(s, sub).Some?
  {
  }

  /** The empty string is in every string. */
  lemma ContainsEmpty(s: string)
    ensures Contains(s, [])
  {
    assert OccursAt(s, [], 0);
  }

  /** An occurrence inside a piece of `s` is an occurrence in `s`. */
  lemma ContainsInSlice(s: string, a: int, b: int, sub: string)
    requires 0 <= a <= b <= |s|
    requires Contains(s[a..b], sub)
    ensures Contains(s, sub)
  {
    var i := IndexOf(s[a..b], sub).value;
    assert OccursAt(s[a..b], sub, i);
    assert i + |sub| <= b - a;
    assert forall k :: a + i <= k < a + i + |sub| ==> s[k] == s[a..b][k - a];
    assert s[a + i..a + i + |sub|] == sub;
    assert OccursAt(s, sub, a + i);
  }

  /** A single mismatching character rules out an occurrence at `j`. */
  lemma NoMatchAt(s: string, sub: string, j: nat, k: nat)
    requires k < |sub| && j + k < |s| && s[j + k] != sub[k]
    ensures !OccursAt(s, sub, j)
  {
    if j + |sub| <= |s| {
      assert s[j..j + |sub|][k] == s[j + k];
    }
  }

  /** No two adjacent characters of `s` spell the first two characters of `sub`, so `sub` is not in `s`. */
  lemma NoLeadingPair(s: string, sub: string)
    requires |sub| >= 2
    requires forall j :: 0 <= j < |s| - 1 ==> s[j] != sub[0] || s[j + 1] != sub[1]
    ensures !Contains(s, sub)
  {
    forall j | 0 <= j <= |s| - |sub|
      ensures !OccursAt(s, sub, j)
    {
      if s[j] == sub[0] { NoMatchAt(s, sub, j, 1); } else { NoMatchAt(s, sub, j, 0); }
    }
  }

  /** `sub in t` and `t in s` give `sub in s`. */
  lemma ContainsTransitive(s: string, t: string, sub: string)
    requires Contains(s, t) && Contains(t, sub)
    ensures Contains(s, sub)
  {
    var a := IndexOf(s, t).value;
    ContainsInSlice(s, a, a + |t|, sub);
  }

  /** Putting a character in front of `s` creates no occurrence of `sub` unless one starts at that character. */
  lemma NotContainsPrepend(c: char, s: string, sub: string)
    requires !OccursAt([c] + s, sub, 0) && !Contains(s, sub)
    ensures !Contains([c] + s, sub)
  {
    var t := [c] + s;
    forall j | 1 <= j
      ensures !OccursAt(t, sub, j)
    {
      if OccursAt(t, sub, j) {
        assert t[j..j + |sub|] == s[j - 1..j - 1 + |sub|];
        assert OccursAt(s, sub, j - 1);
      }
    }
  }

  /** A prefix whose characters cannot start `sub` adds no occurrence of `sub`. */
  lemma {:induction false} NotContainsAfterPrefix(prefix: string, s: string, sub: string)
    requires sub != [] && sub[0] !in prefix && !Contains(s, sub)
    ensures !Contains(prefix + s, sub)
  {
    if prefix == [] {
      assert prefix + s == s;
    } else {
      NotContainsAfterPrefix(prefix[1..], s, sub);
      NoMatchAt([prefix[0]] + (prefix[1..] + s), sub, 0, 0);
      NotContainsPrepend(prefix[0], prefix[1..] + s, sub);
      assert [prefix[0]] + (prefix[1..] + s) == prefix + s;
    }
  }

  // ---------------------------------------------------------------------------
  // `next(x for x in ss if sub in x)`: the first string that contains `sub`
  // ---------------------------------------------------------------------------

  /** `ss[i]` is the first string in `ss` that contains `sub`. */
  predicate IsFirstContaining(ss: seq<string>, sub: string, i: int) {
    0 <= i < |ss| && Contains(ss[i], sub) &&
    forall j :: 0 <= j < i ==> !Contains(ss[j], sub)
  }

  /** The index of the first string at or after `from` that contains `sub`. */
  function FirstContainingFrom(ss: seq<string>, sub: string, from: nat): (r: Option<nat>)
    requires from <= |ss|
    ensures r.Some? ==> from <= r.value < |ss| && Contains(ss[r.value], sub)
    ensures r.Some? ==> forall j :: from <= j < r.value ==> !Contains(ss[j], sub)
    ensures r.None? ==> forall j :: from <= j < |ss| ==> !Contains(ss[j], sub)
    decreases |ss| - from
  {
    if from == |ss| then None
    else if Contains(ss[from], sub) then Some(from)
    else FirstContainingFrom(ss, sub, from + 1)
  }

  /** The index of the first string in `ss` that contains `sub`, if any does. */
  function FirstContaining(ss: seq<string>, sub: string): (r: Option<nat>)
    ensures r.Some? ==> IsFirstContaining(ss, sub, r.value)
    ensures r.None? ==> forall j :: 0 <= j < |ss| ==> !Contains(ss[j], sub)
  {
    FirstContainingFrom(ss, sub, 0)
  }

  /** Only one index can be the first containing one, and `FirstContaining` finds it. */
  lemma FirstContainingUnique(ss: seq<string>, sub: string)
    ensures forall i :: IsFirstContaining(ss, sub, i) ==> FirstContaining(ss, sub) == Some(i)
  {
    forall i | IsFirstContaining(ss, sub, i)
      ensures FirstContaining(ss, sub) == Some(i)
    {
      var r := FirstContaining(ss, sub);
      assert r.Some? && IsFirstContaining(ss, sub, r.value);
    }
  }

  /** The strings of `ss` that contain `sub`, in their order in `ss`. */
  function Containing(ss: seq<string>, sub: string): (r: seq<string>)
    ensures |r| <= |ss|
    ensures forall k :: 0 <= k < |r| ==> Contains(r[k], sub)
  {
    if ss == [] then []
    else if Contains(ss[0], sub) then [ss[0]] + Containing(ss[1..], sub)
    else Containing(ss[1..], sub)
  }

  /** The first string containing `sub` is the head of the strings containing `sub`. */
  lemma {:induction false} FirstContainingIsHead(ss: seq<string>, sub: string)
    ensures FirstContaining(ss, sub).None? <==> Containing(ss, sub) == []
    ensures FirstContaining(ss, sub).Some? ==> ss[FirstContaining(ss, sub).value] == Containing(ss, sub)[0]
  {
    if ss != [] && !Contains(ss[0], sub) {
      FirstContainingIsHead(ss[1..], sub);
      match FirstContaining(ss[1..], sub)
      case Some(i) =>
        assert IsFirstContaining(ss, sub, i + 1);
      case None =>
        assert forall j :: 1 <= j < |ss| ==> ss[j] == ss[1..][j - 1];
    } else if ss != [] {
      assert IsFirstContaining(ss, sub, 0);
    }
  }

  // ---------------------------------------------------------------------------
  // `s.split(sep)` for a one-character separator, and its inverse `sep.join`
  // ---------------------------------------------------------------------------

  /** Python's `s.split(sep)`: the pieces between separators, empty pieces included. */
  function SplitOn(s: string, sep: char): (r: seq<string>)
    ensures |r| >= 1
    ensures forall k :: 0 <= k < |r| ==> sep !in r[k]
    decreases |s|
  {
    match IndexOf(s, [sep])
    case None =>
      assert forall j :: 0 <= j < |s| ==> s[j] != sep by {
        forall j | 0 <= j < |s| ensures s[j] != sep { assert !OccursAt(s, [sep], j); }
      }
      [s]
    case Some(i) =>
      assert forall j :: 0 <= j < i ==> s[j] != sep by {
        forall j | 0 <= j < i ensures s[j] != sep { assert !OccursAt(s, [sep], j); }
      }
      [s[..i]] + SplitOn(s[i + 1..], sep)
  }

  /** A text without the separator splits into itself alone. */
  lemma SplitWithoutSeparator(s: string, sep: char)
    requires sep !in s
    ensures SplitOn(s, sep) == [s]
  {
    forall j | 0 <= j < |s|
      ensures !OccursAt(s, [sep], j)
    {
      assert s[j..j + 1][0] == s[j];
    }
  }

  /** Python's `sep.join(pieces)`. */
  function Join(pieces: seq<string>, sep: char): string
    requires |pieces| >= 1
  {
    if |pieces| == 1 then pieces[0] else pieces[0] + [sep] + Join(pieces[1..], sep)
  }

  /** Splitting and joining again gives back the original text. */
  lemma {:induction false} JoinSplit(s: string, sep: char)
    ensures Join(SplitOn(s, sep), sep) == s
    decreases |s|
  {
    match IndexOf(s, [sep])
    case None =>
    case Some(i) =>
      JoinSplit(s[i + 1..], sep);
      assert s[i..i + 1] == [sep];
      assert s == s[..i] + [sep] + s[i + 1..];
  }

  /** Joining pieces free of the separator and splitting again gives back the pieces. */
  lemma {:induction false} SplitJoin(pieces: seq<string>, sep: char)
    requires |pieces| >= 1
    requires forall k :: 0 <= k < |pieces| ==> sep !in pieces[k]
    ensures SplitOn(Join(pieces, sep), sep) == pieces
  {
    var s := Join(pieces, sep);
    var p := pieces[0];
    forall j | 0 <= j < |p| ensures !OccursAt(s, [sep], j) {
      assert s[j] == p[j];
    }
    if |pieces| == 1 {
      assert forall j :: !OccursAt(s, [sep], j);
    } else {
      var rest := Join(pieces[1..], sep);
      assert s == p + [sep] + rest;
      assert OccursAt(s, [sep], |p|);
      assert IndexOf(s, [sep]) == Some(|p|);
      assert s[|p| + 1..] == rest;
      assert s[..|p|] == p;
      SplitJoin(pieces[1..], sep);
      assert SplitOn(s, sep) == [p] + SplitOn(rest, sep);
    }
  }

  /** Each piece is a piece of the joined text. */
  lemma {:induction false} JoinContainsPiece(pieces: seq<string>, sep: char, k: nat)
    requires k < |pieces|
    ensures Contains(Join(pieces, sep), pieces[k])
  {
    var s := Join(pieces, sep);
    if k == 0 {
      assert OccursAt(s, pieces[0], 0);
    } else {
      var p := pieces[0];
      var rest := Join(pieces[1..], sep);
      JoinContainsPiece(pieces[1..], sep, k - 1);
      assert s[|p| + 1..|s|] == rest;
      ContainsInSlice(s, |p| + 1, |s|, pieces[k]);
    }
  }

  /**
   * An occurrence of `sub` in the joined text, where `sub` has no separator,
   * lies inside a single piece.
   */
  lemma {:induction false} ContainsInSomePiece(pieces: seq<string>, sep: char, sub: string)
    requires |pieces| >= 1 && sep !in sub
    requires Contains(Join(pieces, sep), sub)
    ensures exists k :: 0 <= k < |pieces| && Contains(pieces[k], sub)
  {
    var s := Join(pieces, sep);
    var i := IndexOf(s, sub).value;
    var p := pieces[0];
    if |pieces| == 1 {
      assert Contains(pieces[0], sub);
    } else if i + |sub| <= |p| {
      assert p[i..i + |sub|] == s[i..i + |sub|];
      assert OccursAt(p, sub, i);
    } else if i <= |p| {
      assert s == p + [sep] + Join(pieces[1..], sep);
      NoOccurrenceAcrossSeparator(p, sep, Join(pieces[1..], sep), sub, i);
      assert false;
    } else {
      var rest := Join(pieces[1..], sep);
      assert s[|p| + 1..] == rest;
      assert rest[i - |p| - 1..i - |p| - 1 + |sub|] == s[i..i + |sub|];
      assert OccursAt(rest, sub, i - |p| - 1);
      ContainsInSomePiece(pieces[1..], sep, sub);
      var k :| 0 <= k < |pieces| - 1 && Contains(pieces[1..][k], sub);
      assert Contains(pieces[k + 1], sub);
    }
  }

  /** `sub`, which has no separator, cannot occur across the separator after `p`. */
  lemma NoOccurrenceAcrossSeparator(p: string, sep: char, rest: string, sub: string, i: nat)
    requires sep !in sub
    requires i <= |p| < i + |sub|
    ensures !OccursAt(p + [sep] + rest, sub, i)
  {
    var s := p + [sep] + rest;
    if i + |sub| <= |s| {
      assert s[i..i + |sub|][|p| - i] == s[|p|] == sep;
    }
  }
}
