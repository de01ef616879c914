/**
 * The behaviour of Python's `str` that the tool handlers rely on, over Dafny strings:
 * whitespace and `strip()`, ASCII case mapping (`lower`, `upper`, `capitalize`, `title`),
 * `join`, `split` on one character, `str()` of an integer, and the ordering `sorted()`
 * uses on strings.
 */
module Strings {

  // ---------------------------------------------------------------------------
  // Whitespace and strip()
  // ---------------------------------------------------------------------------

  /** The code-point ranges of the characters for which Python's `str.isspace()` holds;
      `\s` in a `str` pattern matches the same set. */
  const SpaceRanges: seq<(int, int)> := [
    (0x09, 0x0D), (0x1C, 0x20), (0x85, 0x85), (0xA0, 0xA0), (0x1680, 0x1680),
    (0x2000, 0x200A), (0x2028, 0x2029), (0x202F, 0x202F), (0x205F, 0x205F), (0x3000, 0x3000)]

  /** `n` lies in one of `ranges`, looking from the `k`-th on. */
  predicate InRangesFrom(n: int, ranges: seq<(int, int)>, k: nat)
    decreases |ranges| - k
  {
    k < |ranges| && ((ranges[k].0 <= n <= ranges[k].1) || InRangesFrom(n, ranges, k + 1))
  }

  /** Python's `str.isspace()` for one character. */
  predicate IsSpace(c: char) {
    InRangesFrom(c as int, SpaceRanges, 0)
  }

  /** The whitespace characters written out by code point. */
  lemma SpaceCodes(c: char)
    ensures IsSpace(c) <==>
      var n := c as int;
      (9 <= n <= 13) || (28 <= n <= 32) || n == 0x85 || n == 0xA0 || n == 0x1680
      || (0x2000 <= n <= 0x200A) || n == 0x2028 || n == 0x2029 || n == 0x202F
      || n == 0x205F || n == 0x3000
  {
    var n := c as int;
    assert !InRangesFrom(n, SpaceRanges, 10);
    assert InRangesFrom(n, SpaceRanges, 9) <==> n == 0x3000;
    assert InRangesFrom(n, SpaceRanges, 8) <==> n == 0x205F || n == 0x3000;
    assert InRangesFrom(n, SpaceRanges, 7) <==> n == 0x202F || n == 0x205F || n == 0x3000;
    assert InRangesFrom(n, SpaceRanges, 6) <==> (0x2028 <= n <= 0x2029) || InRangesFrom(n, SpaceRanges, 7);
    assert InRangesFrom(n, SpaceRanges, 5) <==> (0x2000 <= n <= 0x200A) || InRangesFrom(n, SpaceRanges, 6);
    assert InRangesFrom(n, SpaceRanges, 4) <==> n == 0x1680 || InRangesFrom(n, SpaceRanges, 5);
    assert InRangesFrom(n, SpaceRanges, 3) <==> n == 0xA0 || InRangesFrom(n, SpaceRanges, 4);
    assert InRangesFrom(n, SpaceRanges, 2) <==> n == 0x85 || InRangesFrom(n, SpaceRanges, 3);
    assert InRangesFrom(n, SpaceRanges, 1) <==> (28 <= n <= 32) || InRangesFrom(n, SpaceRanges, 2);
  }

  /** Letters, digits and '_' are not whitespace. */
  lemma WordCharNotSpace(c: char)
    requires 'a' <= c <= 'z' || 'A' <= c <= 'Z' || '0' <= c <= '9' || c == '_'
    ensures !IsSpace(c)
  {
    SpaceCodes(c);
  }

  /** Every character is whitespace (the empty string included). */
  predicate IsBlank(s: string) {
    forall i :: 0 <= i < |s| ==> IsSpace(s[i])
  }

  /** `s` with its leading whitespace removed. */
  function StripLeft(s: string): (r: string)
    ensures |r| <= |s| && r == s[|s| - |r|..]
    ensures forall i :: 0 <= i < |s| - |r| ==> IsSpace(s[i])
    ensures r == [] || !IsSpace(r[0])
  {
    if s != [] && IsSpace(s[0]) then
      var r := StripLeft(s[1..]);
      assert r == s[|s| - |r|..] by { TailSuffix(s, |s| - 1 - |r|); }
      assert forall i :: 0 < i < |s| - |r| ==> IsSpace(s[i]) by {
        forall i | 0 < i < |s| - |r| ensures IsSpace(s[i]) { assert s[1..][i - 1] == s[i]; }
      }
      r
    else s
  }

  /** `s` with its trailing whitespace removed. */
  function StripRight(s: string): (r: string)
    ensures |r| <= |s| && r == s[..|r|]
    ensures forall i :: |r| <= i < |s| ==> IsSpace(s[i])
    ensures r == [] || !IsSpace(r[|r| - 1])
  {
    if s != [] && IsSpace(s[|s| - 1]) then
      var r := StripRight(s[..|s| - 1]);
      assert r == s[..|r|] by { InitPrefix(s, |r|); }
      assert forall i :: |r| <= i < |s| - 1 ==> IsSpace(s[i]) by {
        forall i | |r| <= i < |s| - 1 ensures IsSpace(s[i]) { assert s[..|s| - 1][i] == s[i]; }
      }
      r
    else s
  }

  lemma TailSuffix(s: string, k: nat)
    requires k < |s|
    ensures s[1..][k..] == s[k + 1..]
  {
  }

  lemma InitPrefix(s: string, k: nat)
    requires k < |s|
    ensures s[..|s| - 1][..k] == s[..k]
  {
  }

  /** Python's `s.strip()`: the result is empty exactly when `s` is blank, and otherwise
      neither begins nor ends with whitespace; it keeps only characters of `s`. */
  function Strip(s: string): (r: string)
    ensures r == [] <==> IsBlank(s)
    ensures r != [] ==> !IsSpace(r[0]) && !IsSpace(r[|r| - 1])
    ensures forall c :: c in r ==> c in s
  {
    var r := StripRight(StripLeft(s));
    StripSpec(s, r);
    r
  }

  /** The contract of `Strip`, gathered about its body. */
  lemma StripSpec(s: string, r: string)
    requires r == StripRight(StripLeft(s))
    ensures r == [] <==> IsBlank(s)
    ensures r != [] ==> !IsSpace(r[0]) && !IsSpace(r[|r| - 1])
    ensures forall c :: c in r ==> c in s
  {
    StripFacts(s);
    StripWithin(s);
  }

  lemma StripWithin(s: string)
    ensures forall c :: c in StripRight(StripLeft(s)) ==> c in s
  {
    var left := StripLeft(s);
    PrefixOfSuffixWithin(s, left, StripRight(left));
  }

  /** A prefix of a suffix of `s` holds only characters of `s`. */
  lemma PrefixOfSuffixWithin(s: string, mid: string, r: string)
    requires |mid| <= |s| && mid == s[|s| - |mid|..]
    requires |r| <= |mid| && r == mid[..|r|]
    ensures forall c :: c in r ==> c in s
  {
    forall c | c in r ensures c in s {
      var i :| 0 <= i < |r| && r[i] == c;
      assert s[|s| - |mid| + i] == c;
    }
  }

  lemma StripFacts(s: string)
    ensures var r := StripRight(StripLeft(s));
      && (r == [] <==> IsBlank(s))
      && (r != [] ==> !IsSpace(r[0]))
  {
    StripEmpty(s);
    var left := StripLeft(s);
    var r := StripRight(left);
    if r != [] {
      assert r[0] == left[0];
    }
  }

  lemma StripEmpty(s: string)
    ensures StripRight(StripLeft(s)) == [] <==> IsBlank(s)
  {
    var left := StripLeft(s);
    StripLeftEmpty(s);
    StripRightEmpty(left);
    if StripRight(left) == [] {
      assert IsBlank(left);
      assert left == [];
    }
  }

  lemma {:induction false} StripLeftEmpty(s: string)
    ensures StripLeft(s) == [] <==> IsBlank(s)
  {
    if s != [] && IsSpace(s[0]) {
      StripLeftEmpty(s[1..]);
      assert IsBlank(s) <==> IsBlank(s[1..]) by {
        assert forall i :: 0 < i < |s| ==> s[i] == s[1..][i - 1];
      }
    }
  }

  lemma {:induction false} StripRightEmpty(s: string)
    ensures StripRight(s) == [] <==> IsBlank(s)
  {
    if s != [] && IsSpace(s[|s| - 1]) {
      var t := s[..|s| - 1];
      StripRightEmpty(t);
      assert IsBlank(s) <==> IsBlank(t) by {
        assert forall i :: 0 <= i < |t| ==> s[i] == t[i];
      }
    }
  }

  lemma {:induction false} StripLeftBlankPrefix(x: string, y: string)
    requires IsBlank(x)
    ensures StripLeft(x + y) == StripLeft(y)
  {
    if x != [] {
      assert (x + y)[0] == x[0];
      assert (x + y)[1..] == x[1..] + y;
      StripLeftBlankPrefix(x[1..], y);
    } else {
      assert x + y == y;
    }
  }

  lemma {:induction false} StripLeftAppend(x: string, y: string)
    requires !IsBlank(x)
    ensures StripLeft(x + y) == StripLeft(x) + y
  {
    assert (x + y)[0] == x[0];
    if IsSpace(x[0]) {
      assert (x + y)[1..] == x[1..] + y;
      assert !IsBlank(x[1..]) by {
        var i :| 0 <= i < |x| && !IsSpace(x[i]);
        assert x[1..][i - 1] == x[i];
      }
      StripLeftAppend(x[1..], y);
    }
  }

  lemma {:induction false} StripRightBlankSuffix(x: string, y: string)
    requires IsBlank(y)
    ensures StripRight(x + y) == StripRight(x)
  {
    if y != [] {
      var z := y[..|y| - 1];
      assert (x + y)[|x + y| - 1] == y[|y| - 1];
      assert (x + y)[..|x + y| - 1] == x + z;
      StripRightBlankSuffix(x, z);
    } else {
      assert x + y == x;
    }
  }

  lemma {:induction false} StripRightAppend(x: string, y: string)
    requires !IsBlank(y)
    ensures StripRight(x + y) == x + StripRight(y)
  {
    assert (x + y)[|x + y| - 1] == y[|y| - 1];
    if IsSpace(y[|y| - 1]) {
      var z := y[..|y| - 1];
      assert (x + y)[..|x + y| - 1] == x + z;
      assert !IsBlank(z) by {
        var i :| 0 <= i < |y| && !IsSpace(y[i]);
        assert i < |y| - 1;
        assert z[i] == y[i];
      }
      StripRightAppend(x, z);
    }
  }

  /** Whitespace around `x` makes no difference to `strip()`. */
  lemma StripAbsorbsPadding(pre: string, x: string, post: string)
    requires IsBlank(pre) && IsBlank(post)
    ensures Strip(pre + x + post) == Strip(x)
  {
    assert StripLeft(pre + x + post) == StripLeft(x + post) by {
      AppendAssociative(pre, x, post);
      StripLeftBlankPrefix(pre, x + post);
    }
    if IsBlank(x) {
      assert StripLeft(x + post) == [] by {
        BlankAppend(x, post);
        StripLeftEmpty(x + post);
      }
      assert StripLeft(x) == [] by { StripLeftEmpty(x); }
    } else {
      var left := StripLeft(x);
      assert StripLeft(x + post) == left + post by { StripLeftAppend(x, post); }
      assert !IsBlank(left) by {
        StripLeftEmpty(x);
        assert !IsSpace(left[0]);
      }
      assert StripRight(left + post) == StripRight(left) by { StripRightBlankSuffix(left, post); }
    }
  }

  lemma BlankAppend(x: string, y: string)
    requires IsBlank(x) && IsBlank(y)
    ensures IsBlank(x + y)
  {
    forall i | 0 <= i < |x + y| ensures IsSpace((x + y)[i]) {
      if i < |x| { assert (x + y)[i] == x[i]; } else { assert (x + y)[i] == y[i - |x|]; }
    }
  }

  /** When `x` and `y` hold non-blank text, `strip()` of `x + mid + y` trims only the outer ends. */
  lemma StripKeepsInterior(x: string, mid: string, y: string)
    requires !IsBlank(x) && !IsBlank(y)
    ensures Strip(x + mid + y) == StripLeft(x) + mid + StripRight(y)
  {
    AppendAssociative(x, mid, y);
    StripLeftAppend(x, mid + y);
    AppendAssociative(StripLeft(x), mid, y);
    StripRightAppend(StripLeft(x) + mid, y);
  }

  // ---------------------------------------------------------------------------
  // ASCII case mapping
  // ---------------------------------------------------------------------------

  predicate IsAsciiUpper(c: char) { 'A' <= c <= 'Z' }

  predicate IsAsciiLower(c: char) { 'a' <= c <= 'z' }

  predicate IsAsciiLetter(c: char) { IsAsciiUpper(c) || IsAsciiLower(c) }

  function LowerChar(c: char): char {
    if IsAsciiUpper(c) then (c as int + 32) as char else c
  }

  function UpperChar(c: char): char {
    if IsAsciiLower(c) then (c as int - 32) as char else c
  }

  /** Python's `str.lower()` on ASCII letters; every other character is kept. */
  function Lower(s: string): (r: string)
    ensures |r| == |s| && forall i :: 0 <= i < |s| ==> r[i] == LowerChar(s[i])
  {
    seq(|s|, i requires 0 <= i < |s| => LowerChar(s[i]))
  }

  /** Python's `str.upper()` on ASCII letters. */
  function Upper(s: string): (r: string)
    ensures |r| == |s| && forall i :: 0 <= i < |s| ==> r[i] == UpperChar(s[i])
  {
    seq(|s|, i requires 0 <= i < |s| => UpperChar(s[i]))
  }

  lemma LowerAppend(a: string, b: string)
    ensures Lower(a + b) == Lower(a) + Lower(b)
  {
    assert forall i :: 0 <= i < |a + b| ==> Lower(a + b)[i] == (Lower(a) + Lower(b))[i];
  }

  lemma LowerOfUpper(s: string)
    ensures Lower(Upper(s)) == Lower(s)
  {
    assert forall i :: 0 <= i < |s| ==> Lower(Upper(s))[i] == Lower(s)[i];
  }

  /** Case mapping never turns a non-space into a space or back, so `strip()` commutes with it. */
  lemma StripLower(s: string)
    ensures Strip(Lower(s)) == Lower(Strip(s))
  {
    StripLeftLower(s);
    StripRightLower(StripLeft(s));
  }

  lemma LowerCharKeepsSpace(c: char)
    ensures IsSpace(LowerChar(c)) == IsSpace(c)
  {
    if IsAsciiUpper(c) {
      WordCharNotSpace(c);
      WordCharNotSpace(LowerChar(c));
    }
  }

  lemma {:induction false} StripLeftLower(s: string)
    ensures StripLeft(Lower(s)) == Lower(StripLeft(s))
  {
    if s != [] {
      assert Lower(s)[0] == LowerChar(s[0]);
      LowerCharKeepsSpace(s[0]);
      if IsSpace(s[0]) {
        assert Lower(s)[1..] == Lower(s[1..]);
        StripLeftLower(s[1..]);
      }
    }
  }

  lemma {:induction false} StripRightLower(s: string)
    ensures StripRight(Lower(s)) == Lower(StripRight(s))
  {
    if s != [] {
      assert Lower(s)[|s| - 1] == LowerChar(s[|s| - 1]);
      LowerCharKeepsSpace(s[|s| - 1]);
      if IsSpace(s[|s| - 1]) {
        assert Lower(s)[..|s| - 1] == Lower(s[..|s| - 1]);
        StripRightLower(s[..|s| - 1]);
      }
    }
  }

  /** A blank string has no letters, so lower-casing leaves it as it is. */
  lemma LowerBlank(s: string)
    requires IsBlank(s)
    ensures Lower(s) == s
  {
    assert forall i :: 0 <= i < |s| ==> Lower(s)[i] == s[i];
  }

  /** Python's `str.capitalize()` on ASCII letters: the same letters up to case, the first
      one upper case and every later one lower case. */
  function Capitalize(s: string): (r: string)
    ensures |r| == |s|
    ensures forall i :: 0 <= i < |s| ==> LowerChar(r[i]) == LowerChar(s[i])
    ensures r == [] || !IsAsciiLower(r[0])
    ensures forall i :: 1 <= i < |r| ==> !IsAsciiUpper(r[i])
  {
    if s == [] then [] else [UpperChar(s[0])] + Lower(s[1..])
  }

  /** The case of the input does not matter to `capitalize`. */
  lemma CapitalizeIgnoresCase(a: string, b: string)
    requires Lower(a) == Lower(b)
    ensures Capitalize(a) == Capitalize(b)
  {
    if a != [] {
      assert LowerChar(a[0]) == Lower(a)[0] == LowerChar(b[0]);
      assert Lower(a[1..]) == Lower(a)[1..] == Lower(b[1..]);
    }
  }

  /** A character that is not a letter is present in `capitalize`'s result exactly when it
      is present in the input. */
  lemma CapitalizeKeepsNonLetter(s: string, c: char)
    requires !IsAsciiLetter(c)
    ensures c in Capitalize(s) <==> c in s
  {
    var r := Capitalize(s);
    forall i | 0 <= i < |s| ensures r[i] == c <==> s[i] == c {
      assert LowerChar(r[i]) == LowerChar(s[i]);
    }
    if c in s {
      var i :| 0 <= i < |s| && s[i] == c;
      assert r[i] == c;
    }
    if c in r {
      var i :| 0 <= i < |r| && r[i] == c;
      assert s[i] == c;
    }
  }

  /** Python's `str.title()` on ASCII letters: the same letters up to case, a letter upper
      case exactly when the character before it is not a letter. `afterLetter` says whether
      the character before `s` was one. */
  function TitleAfter(s: string, afterLetter: bool): (r: string)
    ensures |r| == |s|
    ensures forall i :: 0 <= i < |s| ==> LowerChar(r[i]) == LowerChar(s[i])
    ensures forall i :: 0 <= i < |s| && IsAsciiLetter(s[i]) ==>
              (IsAsciiUpper(r[i]) <==> !(if i == 0 then afterLetter else IsAsciiLetter(s[i - 1])))
  {
    if s == [] then []
    else
      var rest := TitleAfter(s[1..], IsAsciiLetter(s[0]));
      var r := [if afterLetter then LowerChar(s[0]) else UpperChar(s[0])] + rest;
      assert forall i :: 1 <= i < |s| ==> r[i] == rest[i - 1] && s[i] == s[1..][i - 1];
      r
  }

  function Title(s: string): (r: string)
    ensures |r| == |s|
    ensures forall i :: 0 <= i < |s| ==> LowerChar(r[i]) == LowerChar(s[i])
    ensures forall i :: 0 <= i < |s| && IsAsciiLetter(s[i]) ==>
              (IsAsciiUpper(r[i]) <==> (i == 0 || !IsAsciiLetter(s[i - 1])))
  {
    TitleAfter(s, false)
  }

  /** Python's `s.replace(a, b)` for single characters. */
  function ReplaceChar(s: string, a: char, b: char): (r: string)
    ensures |r| == |s| && forall i :: 0 <= i < |s| ==> r[i] == (if s[i] == a then b else s[i])
  {
    seq(|s|, i requires 0 <= i < |s| => if s[i] == a then b else s[i])
  }

  // ---------------------------------------------------------------------------
  // Prefixes, filtering, join and split
  // ---------------------------------------------------------------------------

  predicate StartsWith(s: string, prefix: string) {
    |prefix| <= |s| && s[..|prefix|] == prefix
  }

  predicate EndsWith(s: string, suffix: string) {
    |suffix| <= |s| && s[|s| - |suffix|..] == suffix
  }

  /** The characters of `s` that satisfy `keep`, in order. */
  function Filter(s: string, keep: char -> bool): (r: string)
    ensures |r| <= |s|
    ensures forall c :: c in r ==> keep(c) && c in s
  {
    if s == [] then [] else (if keep(s[0]) then [s[0]] else []) + Filter(s[1..], keep)
  }

  lemma {:induction false} FilterAppend(a: string, b: string, keep: char -> bool)
    ensures Filter(a + b, keep) == Filter(a, keep) + Filter(b, keep)
  {
    if a != [] {
      assert (a + b)[0] == a[0];
      assert (a + b)[1..] == a[1..] + b;
      FilterAppend(a[1..], b, keep);
    } else {
      assert a + b == b;
    }
  }

  /** A character that `keep` rejects leaves no trace wherever it stands. */
  lemma FilterDropsOne(p: string, q: string, c: char, keep: char -> bool)
    requires !keep(c)
    ensures Filter(p + [c] + q, keep) == Filter(p + q, keep)
  {
    assert Filter([c], keep) == [] by {
      assert [c][1..] == [];
    }
    calc {
      Filter(p + [c] + q, keep);
      { FilterAppend(p + [c], q, keep); }
      Filter(p + [c], keep) + Filter(q, keep);
      { FilterAppend(p, [c], keep); }
      Filter(p, keep) + Filter(q, keep);
      { FilterAppend(p, q, keep); }
      Filter(p + q, keep);
    }
  }

  /** A character that `keep` accepts stays in place between the filtered sides. */
  lemma FilterKeepsOne(p: string, q: string, c: char, keep: char -> bool)
    requires keep(c)
    ensures Filter(p + [c] + q, keep) == Filter(p, keep) + [c] + Filter(q, keep)
  {
    FilterAppend(p + [c], q, keep);
    FilterAppend(p, [c], keep);
    assert Filter([c], keep) == [c];
  }

  /** A string whose every character satisfies `keep` passes through unchanged. */
  lemma {:induction false} FilterKeepsAll(s: string, keep: char -> bool)
    requires forall i :: 0 <= i < |s| ==> keep(s[i])
    ensures Filter(s, keep) == s
  {
    if s != [] {
      FilterKeepsAll(s[1..], keep);
    }
  }

  /** A character that `keep` accepts survives the filter. */
  lemma {:induction false} FilterKeepsMember(s: string, keep: char -> bool, i: nat)
    requires i < |s| && keep(s[i])
    ensures s[i] in Filter(s, keep)
  {
    if i > 0 {
      assert s[1..][i - 1] == s[i];
      FilterKeepsMember(s[1..], keep, i - 1);
    }
  }

  /** Filtering commutes with lower-casing when `keep` does not look at case. */
  lemma {:induction false} FilterLower(s: string, keep: char -> bool)
    requires forall c :: keep(LowerChar(c)) == keep(c)
    ensures Filter(Lower(s), keep) == Lower(Filter(s, keep))
  {
    if s != [] {
      assert Lower(s)[0] == LowerChar(s[0]);
      assert Lower(s)[1..] == Lower(s[1..]);
      FilterLower(s[1..], keep);
      var head := if keep(s[0]) then [s[0]] else [];
      LowerAppend(head, Filter(s[1..], keep));
      assert Lower(head) == if keep(s[0]) then [LowerChar(s[0])] else [];
    }
  }

  /** Filtering by a narrower class after a wider one is filtering by the narrower class. */
  lemma {:induction false} FilterFilter(s: string, wide: char -> bool, narrow: char -> bool)
    requires forall c :: narrow(c) ==> wide(c)
    ensures Filter(Filter(s, wide), narrow) == Filter(s, narrow)
  {
    if s != [] {
      FilterFilter(s[1..], wide, narrow);
      var head := if wide(s[0]) then [s[0]] else [];
      FilterAppend(head, Filter(s[1..], wide), narrow);
      if wide(s[0]) {
        assert Filter(head, narrow) == if narrow(s[0]) then [s[0]] else [] by {
          assert head[1..] == [];
        }
      }
    }
  }

  /** A class without whitespace keeps nothing of a blank string. */
  lemma {:induction false} FilterBlank(s: string, keep: char -> bool)
    requires IsBlank(s) && forall c :: IsSpace(c) ==> !keep(c)
    ensures Filter(s, keep) == []
  {
    if s != [] {
      FilterBlank(s[1..], keep);
    }
  }

  /** `strip()` removes only whitespace, so a class without whitespace sees no difference. */
  lemma FilterStrip(s: string, keep: char -> bool)
    requires forall c :: IsSpace(c) ==> !keep(c)
    ensures Filter(Strip(s), keep) == Filter(s, keep)
  {
    FilterStripLeft(s, keep);
    FilterStripRight(StripLeft(s), keep);
  }

  lemma FilterStripLeft(s: string, keep: char -> bool)
    requires forall c :: IsSpace(c) ==> !keep(c)
    ensures Filter(StripLeft(s), keep) == Filter(s, keep)
  {
    var l := StripLeft(s);
    var k := |s| - |l|;
    BlankPrefix(s, k);
    FilterAfterBlank(s[..k], l, keep);
    assert s[..k] + l == s;
  }

  /** A class without whitespace sees nothing of a blank prefix. */
  lemma FilterAfterBlank(p: string, l: string, keep: char -> bool)
    requires IsBlank(p) && forall c :: IsSpace(c) ==> !keep(c)
    ensures Filter(p + l, keep) == Filter(l, keep)
  {
    FilterAppend(p, l, keep);
    FilterBlank(p, keep);
  }

  /** A prefix made of whitespace characters is blank. */
  lemma BlankPrefix(s: string, k: nat)
    requires k <= |s| && forall i :: 0 <= i < k ==> IsSpace(s[i])
    ensures IsBlank(s[..k])
  {
    forall i | 0 <= i < k ensures IsSpace(s[..k][i]) {
      assert s[..k][i] == s[i];
    }
  }

  lemma FilterStripRight(s: string, keep: char -> bool)
    requires forall c :: IsSpace(c) ==> !keep(c)
    ensures Filter(StripRight(s), keep) == Filter(s, keep)
  {
    var r := StripRight(s);
    var t := s[|r|..];
    assert IsBlank(t) by {
      forall i | 0 <= i < |t| ensures IsSpace(t[i]) {
        assert t[i] == s[|r| + i];
      }
    }
    FilterBeforeBlank(r, t, keep);
    assert r + t == s;
  }

  /** A class without whitespace sees nothing of a blank suffix. */
  lemma FilterBeforeBlank(r: string, t: string, keep: char -> bool)
    requires IsBlank(t) && forall c :: IsSpace(c) ==> !keep(c)
    ensures Filter(r + t, keep) == Filter(r, keep)
  {
    FilterAppend(r, t, keep);
    FilterBlank(t, keep);
  }

  // ---------------------------------------------------------------------------
  // re.sub("[…]+", mark, s): runs of a character class replaced by one mark
  // ---------------------------------------------------------------------------

  /** `s` without its leading run of characters in the class `inRun`. */
  function SkipWhile(s: string, inRun: char -> bool): (r: string)
    ensures |r| <= |s| && r == s[|s| - |r|..]
    ensures r == [] || !inRun(r[0])
    ensures forall c :: c in r ==> c in s
  {
    if s != [] && inRun(s[0]) then SkipWhile(s[1..], inRun) else s
  }

  /** Each maximal run of characters of the class `inRun` replaced by the single character
      `mark`. */
  function CollapseRuns(s: string, inRun: char -> bool, mark: char): string
    decreases |s|
  {
    if s == [] then []
    else if inRun(s[0]) then [mark] + CollapseRuns(SkipWhile(s, inRun), inRun, mark)
    else [s[0]] + CollapseRuns(s[1..], inRun, mark)
  }

  /** A class disjoint from the run class sees nothing of a leading run. */
  lemma {:induction false} FilterSkipWhile(s: string, inRun: char -> bool, keep: char -> bool)
    requires forall c :: inRun(c) ==> !keep(c)
    ensures Filter(SkipWhile(s, inRun), keep) == Filter(s, keep)
  {
    if s != [] && inRun(s[0]) {
      FilterSkipWhile(s[1..], inRun, keep);
    }
  }

  /** Collapsing runs changes only run characters and marks, so a class that holds neither
      sees the same characters, in the same order. */
  lemma {:induction false} FilterCollapseRuns(s: string, inRun: char -> bool, mark: char, keep: char -> bool)
    requires !keep(mark) && forall c :: inRun(c) ==> !keep(c)
    ensures Filter(CollapseRuns(s, inRun, mark), keep) == Filter(s, keep)
    decreases |s|
  {
    if s != [] {
      var t := if inRun(s[0]) then SkipWhile(s, inRun) else s[1..];
      var head := if inRun(s[0]) then mark else s[0];
      assert CollapseRuns(s, inRun, mark) == [head] + CollapseRuns(t, inRun, mark);
      FilterAppend([head], CollapseRuns(t, inRun, mark), keep);
      assert [head][1..] == [];
      FilterCollapseRuns(t, inRun, mark, keep);
      if inRun(s[0]) {
        FilterSkipWhile(s, inRun, keep);
      }
    }
  }

  /** Without any run character there is nothing to collapse. */
  lemma {:induction false} CollapseRunsNone(s: string, inRun: char -> bool, mark: char)
    requires forall i :: 0 <= i < |s| ==> !inRun(s[i])
    ensures CollapseRuns(s, inRun, mark) == s
  {
    if s != [] {
      CollapseRunsNone(s[1..], inRun, mark);
    }
  }

  /** A single mark between two stretches free of the class is left as it stands. */
  lemma {:induction false} CollapseRunsSingleMark(x: string, y: string, inRun: char -> bool, mark: char)
    requires inRun(mark)
    requires forall i :: 0 <= i < |x| ==> !inRun(x[i])
    requires forall i :: 0 <= i < |y| ==> !inRun(y[i])
    ensures CollapseRuns(x + [mark] + y, inRun, mark) == x + [mark] + y
    decreases |x|
  {
    if x == [] {
      assert x + [mark] + y == [mark] + y && ([mark] + y)[1..] == y;
      assert SkipWhile([mark] + y, inRun) == SkipWhile(y, inRun);
      CollapseRunsNone(y, inRun, mark);
    } else {
      assert (x + [mark] + y)[0] == x[0] && (x + [mark] + y)[1..] == x[1..] + [mark] + y;
      CollapseRunsSingleMark(x[1..], y, inRun, mark);
      assert x == [x[0]] + x[1..];
    }
  }

  /** When the mark is itself a member of the class, the collapse holds no other member of
      the class, never two marks in a row, and starts with the mark exactly when `s` starts
      in a run. */
  lemma {:induction false} CollapseRunsFacts(s: string, inRun: char -> bool, mark: char)
    requires inRun(mark)
    ensures forall c :: c in CollapseRuns(s, inRun, mark) ==> c == mark || (!inRun(c) && c in s)
    ensures forall i :: 0 <= i < |CollapseRuns(s, inRun, mark)| - 1 ==>
      !(CollapseRuns(s, inRun, mark)[i] == mark && CollapseRuns(s, inRun, mark)[i + 1] == mark)
    ensures CollapseRuns(s, inRun, mark) == [] <==> s == []
    ensures CollapseRuns(s, inRun, mark) != [] ==> (CollapseRuns(s, inRun, mark)[0] == mark <==> inRun(s[0]))
    decreases |s|
  {
    if s != [] {
      var t := if inRun(s[0]) then SkipWhile(s, inRun) else s[1..];
      var head := if inRun(s[0]) then mark else s[0];
      var rest := CollapseRuns(t, inRun, mark);
      CollapseRunsFacts(t, inRun, mark);
      assert CollapseRuns(s, inRun, mark) == [head] + rest;
      assert forall i :: 0 < i < |[head] + rest| ==> ([head] + rest)[i] == rest[i - 1];
    }
  }

  /** A prefix made only of class members is skipped entirely. */
  lemma {:induction false} SkipWhileAll(u: string, w: string, inRun: char -> bool)
    requires forall i :: 0 <= i < |u| ==> inRun(u[i])
    ensures SkipWhile(u + w, inRun) == SkipWhile(w, inRun)
  {
    if u != [] {
      assert (u + w)[0] == u[0];
      assert (u + w)[1..] == u[1..] + w;
      SkipWhileAll(u[1..], w, inRun);
    } else {
      assert u + w == w;
    }
  }

  /** Skipping stops inside a prefix that holds a non-member. */
  lemma {:induction false} SkipWhileStopsInside(u: string, w: string, inRun: char -> bool)
    requires exists i :: 0 <= i < |u| && !inRun(u[i])
    ensures SkipWhile(u + w, inRun) == SkipWhile(u, inRun) + w
  {
    assert (u + w)[0] == u[0];
    if inRun(u[0]) {
      assert (u + w)[1..] == u[1..] + w;
      var i :| 0 <= i < |u| && !inRun(u[i]);
      assert u[1..][i - 1] == u[i];
      SkipWhileStopsInside(u[1..], w, inRun);
    }
  }

  /** A non-empty run of members followed by `v` gives the mark, then the collapse of `v`
      past its own leading members. */
  lemma RunThen(u: string, v: string, inRun: char -> bool, mark: char)
    requires inRun(mark)
    requires u != [] && forall i :: 0 <= i < |u| ==> inRun(u[i])
    ensures CollapseRuns(u + v, inRun, mark) == [mark] + CollapseRuns(SkipWhile(v, inRun), inRun, mark)
  {
    assert (u + v)[0] == u[0];
    SkipWhileAll(u, v, inRun);
  }

  /** Any non-empty run of members collapses exactly as the mark alone would. */
  lemma {:induction false} CollapseRun(u: string, run: string, v: string, inRun: char -> bool, mark: char)
    requires inRun(mark)
    requires run != [] && forall i :: 0 <= i < |run| ==> inRun(run[i])
    ensures CollapseRuns(u + run + v, inRun, mark) == CollapseRuns(u + [mark] + v, inRun, mark)
    decreases |u|
  {
    if u == [] {
      assert u + run + v == run + v && u + [mark] + v == [mark] + v;
      RunThen(run, v, inRun, mark);
      RunThen([mark], v, inRun, mark);
    } else if forall i :: 0 <= i < |u| ==> inRun(u[i]) {
      assert forall i :: 0 <= i < |u + run| ==> inRun((u + run)[i]);
      assert forall i :: 0 <= i < |u + [mark]| ==> inRun((u + [mark])[i]);
      assert u + run + v == (u + run) + v && u + [mark] + v == (u + [mark]) + v;
      RunThen(u + run, v, inRun, mark);
      RunThen(u + [mark], v, inRun, mark);
    } else if inRun(u[0]) {
      CollapseRunAfterRun(u, run, v, inRun, mark);
    } else {
      CollapseRunAfterChar(u, run, v, inRun, mark);
    }
  }

  lemma {:induction false} CollapseRunAfterRun(u: string, run: string, v: string, inRun: char -> bool, mark: char)
    requires inRun(mark)
    requires run != [] && forall i :: 0 <= i < |run| ==> inRun(run[i])
    requires u != [] && inRun(u[0]) && exists i :: 0 <= i < |u| && !inRun(u[i])
    ensures CollapseRuns(u + run + v, inRun, mark) == CollapseRuns(u + [mark] + v, inRun, mark)
    decreases |u|, 0
  {
    var u' := SkipWhile(u, inRun);
    assert |u'| < |u| by { assert u' == SkipWhile(u[1..], inRun); }
    SkipPastRun(u, run, v, inRun, mark);
    SkipPastRun(u, [mark], v, inRun, mark);
    CollapseRun(u', run, v, inRun, mark);
  }

  /** A leading run that ends inside `u` collapses to the mark, and the rest of `u` follows,
      whatever comes after `u`. */
  lemma SkipPastRun(u: string, a: string, b: string, inRun: char -> bool, mark: char)
    requires u != [] && inRun(u[0]) && exists i :: 0 <= i < |u| && !inRun(u[i])
    ensures CollapseRuns(u + a + b, inRun, mark) == [mark] + CollapseRuns(SkipWhile(u, inRun) + a + b, inRun, mark)
  {
    var s := u + a + b;
    assert s != [] && inRun(s[0]) by { assert s[0] == u[0]; }
    CollapseRunsAtRun(s, inRun, mark);
    SkipWhileStopsInside3(u, a, b, inRun);
  }

  /** `SkipWhileStopsInside` for a tail given in two parts. */
  lemma SkipWhileStopsInside3(u: string, a: string, b: string, inRun: char -> bool)
    requires exists i :: 0 <= i < |u| && !inRun(u[i])
    ensures SkipWhile(u + a + b, inRun) == SkipWhile(u, inRun) + a + b
  {
    SkipWhileStopsInside(u, a + b, inRun);
    AppendAssociative(u, a, b);
    AppendAssociative(SkipWhile(u, inRun), a, b);
  }

  lemma EmptyPrefix(x: string)
    ensures "" + x == x
  {
  }

  lemma AppendAssociative(x: string, y: string, z: string)
    ensures x + (y + z) == x + y + z
  {
  }

  /** One step of `CollapseRuns` at the start of a run. */
  lemma CollapseRunsAtRun(s: string, inRun: char -> bool, mark: char)
    requires s != [] && inRun(s[0])
    ensures CollapseRuns(s, inRun, mark) == [mark] + CollapseRuns(SkipWhile(s, inRun), inRun, mark)
  {
  }

  lemma {:induction false} CollapseRunAfterChar(u: string, run: string, v: string, inRun: char -> bool, mark: char)
    requires inRun(mark)
    requires run != [] && forall i :: 0 <= i < |run| ==> inRun(run[i])
    requires u != [] && !inRun(u[0])
    ensures CollapseRuns(u + run + v, inRun, mark) == CollapseRuns(u + [mark] + v, inRun, mark)
    decreases |u|, 0
  {
    var x, y := u + run + v, u + [mark] + v;
    assert x[0] == u[0] && y[0] == u[0];
    assert x[1..] == u[1..] + run + v && y[1..] == u[1..] + [mark] + v;
    CollapseRun(u[1..], run, v, inRun, mark);
  }

  /** A string without letters is its own lower-case form. */
  lemma LowerNoLetters(s: string)
    requires forall i :: 0 <= i < |s| ==> !IsAsciiLetter(s[i])
    ensures Lower(s) == s
  {
    assert forall i :: 0 <= i < |s| ==> Lower(s)[i] == s[i];
  }

  /** Python's `sep.join(parts)`. */
  function Join(parts: seq<string>, sep: string): string {
    if parts == [] then "" else if |parts| == 1 then parts[0] else parts[0] + sep + Join(parts[1..], sep)
  }

  /** The number of occurrences of `c` in `s` (Python's `s.count(c)`). */
  function Count(s: string, c: char): nat {
    if s == [] then 0 else (if s[0] == c then 1 else 0) + Count(s[1..], c)
  }

  /** Python's `s.split(c)` for a one-character separator: one more part than there are
      separators, and no part contains the separator. */
  function Split(s: string, c: char): (parts: seq<string>)
    ensures |parts| == Count(s, c) + 1
    ensures forall i :: 0 <= i < |parts| ==> c !in parts[i]
  {
    if s == [] then [""]
    else
      var rest := Split(s[1..], c);
      if s[0] == c then [""] + rest else [[s[0]] + rest[0]] + rest[1..]
  }

  /** Splitting and joining back with the same separator gives the original string. */
  lemma {:induction false} JoinSplit(s: string, c: char)
    ensures Join(Split(s, c), [c]) == s
  {
    if s != [] {
      JoinSplit(s[1..], c);
      if s[0] == c {
        JoinSplitAtSeparator(s, c);
      } else {
        JoinSplitAtOther(s, c);
      }
    }
  }

  /** The step of `JoinSplit` for a string that opens with the separator. */
  lemma JoinSplitAtSeparator(s: string, c: char)
    requires s != [] && s[0] == c && Join(Split(s[1..], c), [c]) == s[1..]
    ensures Join(Split(s, c), [c]) == s
  {
    var rest := Split(s[1..], c);
    assert Split(s, c) == [""] + rest;
    assert ([""] + rest)[1..] == rest;
    assert Join([""] + rest, [c]) == "" + [c] + Join(rest, [c]);
    assert s == [s[0]] + s[1..];
  }

  /** The step of `JoinSplit` for a string that opens with another character. */
  lemma JoinSplitAtOther(s: string, c: char)
    requires s != [] && s[0] != c && Join(Split(s[1..], c), [c]) == s[1..]
    ensures Join(Split(s, c), [c]) == s
  {
    var rest := Split(s[1..], c);
    assert Split(s, c) == [[s[0]] + rest[0]] + rest[1..];
    JoinGlueHead([s[0]], rest, [c]);
    assert s == [s[0]] + s[1..];
  }

  /** Text glued to the front of the first part comes first in the join. */
  lemma JoinGlueHead(h: string, parts: seq<string>, sep: string)
    requires parts != []
    ensures Join([h + parts[0]] + parts[1..], sep) == h + Join(parts, sep)
  {
    var glued := [h + parts[0]] + parts[1..];
    assert glued[0] == h + parts[0] && glued[1..] == parts[1..];
    if |parts| > 1 {
      assert h + parts[0] + sep + Join(parts[1..], sep) == h + (parts[0] + sep + Join(parts[1..], sep));
    }
  }

  /** Text before the first separator joins the first part. */
  lemma {:induction false} SplitPrepend(h: string, s: string, c: char)
    requires c !in h
    ensures Split(h + s, c) == [h + Split(s, c)[0]] + Split(s, c)[1..]
  {
    if h == [] {
      assert h + s == s;
      assert h + Split(s, c)[0] == Split(s, c)[0];
      assert Split(s, c) == [Split(s, c)[0]] + Split(s, c)[1..];
    } else {
      assert (h + s)[0] == h[0];
      assert (h + s)[1..] == h[1..] + s;
      SplitPrepend(h[1..], s, c);
      assert [h[0]] + (h[1..] + Split(s, c)[0]) == h + Split(s, c)[0];
    }
  }

  lemma SplitAfter(a: string, rest: string, c: char)
    requires c !in a
    ensures Split(a + [c] + rest, c) == [a] + Split(rest, c)
  {
    assert a + [c] + rest == a + ([c] + rest);
    assert ([c] + rest)[1..] == rest;
    SplitPrepend(a, [c] + rest, c);
    assert a + "" == a;
  }

  lemma SplitWhole(a: string, c: char)
    requires c !in a
    ensures Split(a, c) == [a]
  {
    SplitPrepend(a, "", c);
    assert a + "" == a;
  }

  /** Splitting `xs` joined by the separator `c` followed by `t` gives back `xs[0]` and
      then every later item with `t` in front of it. */
  lemma {:induction false} SplitJoin(xs: seq<string>, c: char, t: string)
    requires |xs| >= 1 && c !in t
    requires forall i :: 0 <= i < |xs| ==> c !in xs[i]
    ensures Split(Join(xs, [c] + t), c)
         == [xs[0]] + seq(|xs| - 1, i requires 0 <= i < |xs| - 1 => t + xs[i + 1])
  {
    if |xs| == 1 {
      SplitWhole(xs[0], c);
    } else {
      var tail := xs[1..];
      var j := Join(tail, [c] + t);
      var sj := Split(j, c);
      var want := seq(|xs| - 1, i requires 0 <= i < |xs| - 1 => t + xs[i + 1]);
      assert sj == [tail[0]] + seq(|tail| - 1, i requires 0 <= i < |tail| - 1 => t + tail[i + 1]) by {
        forall i | 0 <= i < |tail| ensures c !in tail[i] {
          assert tail[i] == xs[i + 1];
        }
        SplitJoin(tail, c, t);
      }
      assert Split(Join(xs, [c] + t), c) == [xs[0]] + Split(t + j, c) by {
        assert Join(xs, [c] + t) == xs[0] + ([c] + t) + j;
        AppendAssociative(xs[0], [c] + t, j);
        AppendAssociative([c], t, j);
        AppendAssociative(xs[0], [c], t + j);
        SplitAfter(xs[0], t + j, c);
      }
      assert Split(t + j, c) == [t + sj[0]] + sj[1..] by {
        SplitPrepend(t, j, c);
      }
      assert [t + sj[0]] + sj[1..] == want by {
        forall i | 0 <= i < |want| ensures ([t + sj[0]] + sj[1..])[i] == want[i] {
          if i > 0 {
            assert sj[1..][i - 1] == sj[i];
          }
        }
      }
    }
  }

  /** Lines without line breaks joined by "\n" split back into the same lines. */
  lemma SplitJoinLines(lines: seq<string>)
    requires |lines| >= 1 && forall i :: 0 <= i < |lines| ==> '\n' !in lines[i]
    ensures Split(Join(lines, "\n"), '\n') == lines
  {
    var tail := seq(|lines| - 1, i requires 0 <= i < |lines| - 1 => "" + lines[i + 1]);
    assert Split(Join(lines, "\n"), '\n') == [lines[0]] + tail by {
      assert "\n" == ['\n'] + "";
      SplitJoin(lines, '\n', "");
    }
    assert tail == lines[1..] by {
      forall i | 0 <= i < |tail| ensures tail[i] == lines[1..][i] {
        EmptyPrefix(lines[i + 1]);
      }
    }
    assert [lines[0]] + lines[1..] == lines;
  }

  // ---------------------------------------------------------------------------
  // str() of an integer
  // ---------------------------------------------------------------------------

  function DigitChar(d: nat): char
    requires d < 10
  {
    ('0' as int + d) as char
  }

  /** Decimal digits of `n`, without leading zeros. */
  function NatToString(n: nat): (r: string)
    ensures |r| >= 1 && forall i :: 0 <= i < |r| ==> '0' <= r[i] <= '9'
    ensures r[0] == '0' ==> n == 0
  {
    if n < 10 then [DigitChar(n)] else NatToString(n / 10) + [DigitChar(n % 10)]
  }

  /** Python's `str(i)` for an `int`. */
  function IntToString(i: int): string {
    if i < 0 then "-" + NatToString(-i) else NatToString(i)
  }

  /** The value of a string of decimal digits. */
  function DigitsValue(s: string): nat
    requires forall i :: 0 <= i < |s| ==> '0' <= s[i] <= '9'
  {
    if s == [] then 0 else DigitsValue(s[..|s| - 1]) * 10 + (s[|s| - 1] as int - '0' as int)
  }

  /** Reading the digits back gives the number. */
  lemma {:induction false} NatToStringRoundTrip(n: nat)
    ensures DigitsValue(NatToString(n)) == n
  {
    var r := NatToString(n);
    if n < 10 {
      assert r[..0] == [];
    } else {
      var front := NatToString(n / 10);
      NatToStringRoundTrip(n / 10);
      assert r[..|r| - 1] == front;
    }
  }

  // ---------------------------------------------------------------------------
  // Ordering of strings, and sorting a set of them
  // ---------------------------------------------------------------------------

  /** Python's `a < b` on `str`: lexicographic by code point, a proper prefix first. */
  predicate Below(a: string, b: string)
    decreases |a|
  {
    if a == [] then b != []
    else if b == [] then false
    else if a[0] != b[0] then a[0] < b[0]
    else Below(a[1..], b[1..])
  }

  lemma {:induction false} BelowIrreflexive(a: string)
    ensures !Below(a, a)
  {
    if a != [] {
      BelowIrreflexive(a[1..]);
    }
  }

  lemma {:induction false} BelowAsymmetric(a: string, b: string)
    requires Below(a, b)
    ensures !Below(b, a)
    decreases |a|
  {
    if a != [] && b != [] && a[0] == b[0] {
      BelowAsymmetric(a[1..], b[1..]);
    }
  }

  lemma {:induction false} BelowTransitive(a: string, b: string, c: string)
    requires Below(a, b) && Below(b, c)
    ensures Below(a, c)
    decreases |a|
  {
    if a != [] && a[0] == b[0] && b[0] == c[0] {
      BelowTransitive(a[1..], b[1..], c[1..]);
    }
  }

  lemma {:induction false} BelowTotal(a: string, b: string)
    requires a != b
    ensures Below(a, b) || Below(b, a)
    decreases |a|
  {
    if a != [] && b != [] && a[0] == b[0] {
      assert a == [a[0]] + a[1..] && b == [b[0]] + b[1..];
      BelowTotal(a[1..], b[1..]);
    }
  }

  predicate IsLeast(m: string, ks: set<string>) {
    m in ks && forall y :: y in ks && y != m ==> Below(m, y)
  }

  lemma {:induction false} LeastExists(ks: set<string>)
    requires ks != {}
    ensures exists m :: IsLeast(m, ks)
    decreases |ks|
  {
    var x :| x in ks;
    if ks == {x} {
      assert IsLeast(x, ks);
    } else {
      var rest := ks - {x};
      LeastExists(rest);
      var m :| IsLeast(m, rest);
      BelowTotal(x, m);
      if Below(x, m) {
        forall y | y in ks && y != x ensures Below(x, y) {
          if y != m { BelowTransitive(x, m, y); }
        }
        assert IsLeast(x, ks);
      } else {
        assert IsLeast(m, ks);
      }
    }
  }

  /** The least string of a non-empty set. */
  function Least(ks: set<string>): (m: string)
    requires ks != {}
    ensures IsLeast(m, ks)
  {
    LeastExists(ks);
    assert forall a, b :: IsLeast(a, ks) && IsLeast(b, ks) ==> a == b by {
      forall a, b | IsLeast(a, ks) && IsLeast(b, ks) ensures a == b {
        if a != b { BelowAsymmetric(a, b); }
      }
    }
    var m :| IsLeast(m, ks); m
  }

  /** Each string comes strictly before every string after it. */
  predicate StrictlySorted(xs: seq<string>) {
    forall i, j :: 0 <= i < j < |xs| ==> Below(xs[i], xs[j])
  }

  /** Python's `sorted()` of a set of names: every name once, in ascending order. */
  function SortedNames(ks: set<string>): (r: seq<string>)
    ensures |r| == |ks|
    ensures forall x :: x in r <==> x in ks
    ensures StrictlySorted(r)
    decreases |ks|
  {
    if ks == {} then []
    else
      var m := Least(ks);
      var rest := SortedNames(ks - {m});
      var r := [m] + rest;
      assert forall j :: 0 < j < |r| ==> r[j] == rest[j - 1];
      assert forall x :: x in r <==> x in ks by {
        forall x ensures x in r <==> x in ks {
          assert x in r <==> x == m || x in rest;
        }
      }
      assert StrictlySorted(r) by {
        forall i, j | 0 <= i < j < |r| ensures Below(r[i], r[j]) {
          if i == 0 {
            assert rest[j - 1] in ks - {m};
          } else {
            assert r[i] == rest[i - 1];
          }
        }
      }
      r
  }

  /** `SortedNames` of a non-empty set starts with its least name. */
  lemma SortedNamesStep(ks: set<string>)
    requires ks != {}
    ensures SortedNames(ks) == [Least(ks)] + SortedNames(ks - {Least(ks)})
  {
  }

  /** The first name of a strictly sorted sequence holding exactly `ks` is the least of `ks`. */
  lemma SortedLeadIsLeast(ks: set<string>, xs: seq<string>)
    requires xs != []
    requires StrictlySorted(xs)
    requires forall x :: x in xs <==> x in ks
    ensures ks != {} && xs[0] == Least(ks)
  {
    assert xs[0] in ks;
    var m := Least(ks);
    if xs[0] != m {
      var k :| 0 <= k < |xs| && xs[k] == m;
      assert Below(xs[0], m);
      assert Below(m, xs[0]);
      BelowAsymmetric(m, xs[0]);
    }
  }

  /** Dropping the first name of such a sequence leaves exactly the other names. */
  lemma SortedTailMembers(ks: set<string>, xs: seq<string>)
    requires xs != []
    requires StrictlySorted(xs)
    requires forall x :: x in xs <==> x in ks
    ensures forall x :: x in xs[1..] <==> x in ks - {xs[0]}
  {
    var tail := xs[1..];
    forall j | 0 < j < |xs| ensures xs[j] != xs[0] {
      BelowIrreflexive(xs[0]);
    }
    forall x ensures x in tail <==> x in ks - {xs[0]} {
      if x in tail {
        var j :| 0 <= j < |tail| && tail[j] == x;
        assert xs[j + 1] == x;
      }
      if x in ks - {xs[0]} {
        var j :| 0 <= j < |xs| && xs[j] == x;
        assert j != 0;
        assert tail[j - 1] == x;
      }
    }
  }

  lemma SortedTail(xs: seq<string>)
    requires xs != []
    requires StrictlySorted(xs)
    ensures StrictlySorted(xs[1..])
  {
    var tail := xs[1..];
    forall i, j | 0 <= i < j < |tail| ensures Below(tail[i], tail[j]) {
      assert tail[i] == xs[i + 1] && tail[j] == xs[j + 1];
    }
  }

  /** A strictly sorted sequence holding exactly the names of `ks` is `SortedNames(ks)`. */
  lemma {:induction false} SortedNamesUnique(ks: set<string>, xs: seq<string>)
    requires StrictlySorted(xs)
    requires forall x :: x in xs <==> x in ks
    ensures xs == SortedNames(ks)
    decreases |xs|
  {
    if xs == [] {
      assert ks == {};
    } else {
      SortedLeadIsLeast(ks, xs);
      SortedTailMembers(ks, xs);
      SortedTail(xs);
      SortedNamesUnique(ks - {xs[0]}, xs[1..]);
      SortedNamesStep(ks);
      assert xs == [xs[0]] + xs[1..];
    }
  }
}
