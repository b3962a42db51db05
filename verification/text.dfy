/**
 * String primitives of ECMAScript that the application relies on: `trim`,
 * the `\s` character class, `replace(/<[^>]*>/g, "")`, `split(/\s+/)`,
 * `toLowerCase`, `includes` and number-to-string conversion.
 */
module Text {

  /** The WhiteSpace and LineTerminator code points of ECMAScript: what `trim` removes and `\s` matches. */
  predicate IsJsSpace(c: char) {
    || c == '\t' || c == '\n' || c == '\U{B}' || c == '\U{C}' || c == '\r' || c == ' '
    || c == '\U{A0}' || c == '\U{1680}' || ('\U{2000}' <= c <= '\U{200A}')
    || c == '\U{2028}' || c == '\U{2029}' || c == '\U{202F}' || c == '\U{205F}'
    || c == '\U{3000}' || c == '\U{FEFF}'
  }

  /** The LineTerminator code points: what a regular-expression `.` refuses. */
  predicate IsLineTerminator(c: char) {
    c == '\n' || c == '\r' || c == '\U{2028}' || c == '\U{2029}'
  }

  predicate AllSpace(s: string) {
    forall i :: 0 <= i < |s| ==> IsJsSpace(s[i])
  }

  predicate NoSpace(s: string) {
    forall i :: 0 <= i < |s| ==> !IsJsSpace(s[i])
  }

  /** Neither end of `s` is whitespace. */
  predicate IsTrimmed(s: string) {
    s == [] || (!IsJsSpace(s[0]) && !IsJsSpace(s[|s| - 1]))
  }

  /** The end of the whitespace run of `s` that starts at `i`. */
  function SkipSpace(s: string, i: nat): (n: nat)
    requires i <= |s|
    ensures i <= n <= |s|
    ensures forall k :: i <= k < n ==> IsJsSpace(s[k])
    ensures n == |s| || !IsJsSpace(s[n])
    decreases |s| - i
  {
    if i < |s| && IsJsSpace(s[i]) then SkipSpace(s, i + 1) else i
  }

  /** The start of the whitespace run of `s` that ends at `j`. */
  function SkipSpaceBack(s: string, j: nat): (n: nat)
    requires j <= |s|
    ensures n <= j
    ensures forall k :: n <= k < j ==> IsJsSpace(s[k])
    ensures n == 0 || !IsJsSpace(s[n - 1])
  {
    if j > 0 && IsJsSpace(s[j - 1]) then SkipSpaceBack(s, j - 1) else j
  }

  /** Where the text of `s` starts once leading whitespace is skipped. */
  function TrimOffset(s: string): nat
  {
    SkipSpace(s, 0)
  }

  /**
   * `String.prototype.trim`: the result is the slice `s[i..i + |r|]` with only
   * whitespace before `i` and after `i + |r|`.
   */
  function Trim(s: string): (r: string)
    ensures IsTrimmed(r)
    ensures var i := TrimOffset(s);
      && i + |r| <= |s|
      && r == s[i..i + |r|]
      && (forall k :: 0 <= k < i ==> IsJsSpace(s[k]))
      && (forall k :: i + |r| <= k < |s| ==> IsJsSpace(s[k]))
    ensures r == [] <==> AllSpace(s)
  {
    var i := SkipSpace(s, 0);
    var j := SkipSpaceBack(s, |s|);
    if i < j then
      assert !IsJsSpace(s[j - 1]);
      s[i..j]
    else []
  }

  lemma TrimOfTrimmed(s: string)
    requires IsTrimmed(s)
    ensures Trim(s) == s
  {
  }

  // ---------------------------------------------------------------------------
  // replace(/<[^>]*>/g, "")

  function IndexOf(s: string, c: char): (i: nat)
    requires c in s
    ensures i < |s| && s[i] == c && c !in s[..i]
  {
    if s[0] == c then 0 else 1 + IndexOf(s[1..], c)
  }

  /**
   * Global replacement of `/<[^>]*>/` by the empty string: scanning left to
   * right, a `<` that has some `>` after it is removed together with every
   * character up to and including the first such `>`; any other character is kept.
   */
  function StripTags(s: string): (r: string)
    ensures |r| <= |s|
    ensures '<' !in s ==> r == s
    decreases |s|
  {
    if s == [] then []
    else if s[0] == '<' && '>' in s[1..] then StripTags(s[IndexOf(s[1..], '>') + 2..])
    else [s[0]] + StripTags(s[1..])
  }

  /** No `<` in `t` is followed, anywhere later, by a `>`: nothing in `t` looks like a tag. */
  predicate NoTag(t: string) {
    forall i, j :: 0 <= i < j < |t| && t[i] == '<' ==> t[j] != '>'
  }

  lemma {:induction false} StripTagsKeepsOnlyInputChars(s: string)
    ensures forall c :: c in StripTags(s) ==> c in s
    decreases |s|
  {
    if s == [] {
    } else if s[0] == '<' && '>' in s[1..] {
      var k := IndexOf(s[1..], '>') + 2;
      StripTagsKeepsOnlyInputChars(s[k..]);
      assert forall c :: c in s[k..] ==> c in s;
    } else {
      StripTagsKeepsOnlyInputChars(s[1..]);
      assert forall c :: c in s[1..] ==> c in s;
    }
  }

  /** Whatever the input, the stripped text contains nothing that looks like a tag. */
  lemma {:induction false} StripTagsLeavesNoTag(s: string)
    ensures NoTag(StripTags(s))
    decreases |s|
  {
    if s == [] {
    } else if s[0] == '<' && '>' in s[1..] {
      StripTagsLeavesNoTag(s[IndexOf(s[1..], '>') + 2..]);
    } else {
      var rest := StripTags(s[1..]);
      StripTagsLeavesNoTag(s[1..]);
      if s[0] == '<' {
        StripTagsKeepsOnlyInputChars(s[1..]);
        assert '>' !in rest;
      }
      var r := [s[0]] + rest;
      forall i, j | 0 <= i < j < |r| && r[i] == '<'
        ensures r[j] != '>'
      {
        if i == 0 {
          assert r[j] == rest[j - 1];
        } else {
          assert r[i] == rest[i - 1] && r[j] == rest[j - 1];
        }
      }
    }
  }

  /** Text with nothing that looks like a tag is left unchanged. */
  lemma {:induction false} StripTagsKeepsTagFree(t: string)
    requires NoTag(t)
    ensures StripTags(t) == t
    decreases |t|
  {
    if t != [] {
      if t[0] == '<' {
        assert '>' !in t[1..] by {
          forall j | 0 <= j < |t[1..]| ensures t[1..][j] != '>' {
            assert t[1..][j] == t[j + 1];
          }
        }
      }
      assert NoTag(t[1..]) by {
        forall i, j | 0 <= i < j < |t[1..]| && t[1..][i] == '<' ensures t[1..][j] != '>' {
          assert t[1..][i] == t[i + 1] && t[1..][j] == t[j + 1];
        }
      }
      StripTagsKeepsTagFree(t[1..]);
    }
  }

  /** Trimming text with nothing that looks like a tag leaves nothing that looks like a tag. */
  lemma TrimKeepsNoTag(s: string)
    requires NoTag(s)
    ensures NoTag(Trim(s))
  {
    var off := TrimOffset(s);
    NoTagOfSlice(s, off, off + |Trim(s)|);
  }

  /** Any slice of text with nothing that looks like a tag has nothing that looks like a tag. */
  lemma NoTagOfSlice(s: string, a: int, b: int)
    requires NoTag(s) && 0 <= a <= b <= |s|
    ensures NoTag(s[a..b])
  {
    var t := s[a..b];
    forall i, j | 0 <= i < j < |t| && t[i] == '<' ensures t[j] != '>' {
      assert t[i] == s[a + i] && t[j] == s[a + j];
      NoTagAt(s, a + i, a + j);
    }
  }

  lemma NoTagAt(s: string, a: int, b: int)
    requires NoTag(s) && 0 <= a < b < |s| && s[a] == '<'
    ensures s[b] != '>'
  {
  }

  /** Text before the first `<` passes through unchanged. */
  lemma {:induction false} StripTagsKeepsPlain(a: string, b: string)
    requires '<' !in a
    ensures StripTags(a + b) == a + StripTags(b)
    decreases |a|
  {
    if a != [] {
      var s := a + b;
      assert s[0] == a[0] != '<' && s[1..] == a[1..] + b;
      assert StripTags(s) == [a[0]] + StripTags(a[1..] + b);
      assert '<' !in a[1..];
      StripTagsKeepsPlain(a[1..], b);
      assert a == [a[0]] + a[1..];
    } else {
      assert a + b == b;
    }
  }

  /** A `<`, a stretch without `>`, and the `>` that closes it are removed; the text around them is kept. */
  lemma StripTagsDropsTag(a: string, m: string, b: string)
    requires '<' !in a && '>' !in m
    ensures StripTags(a + ['<'] + m + ['>'] + b) == a + StripTags(b)
  {
    var t := ['<'] + m + ['>'] + b;
    assert a + ['<'] + m + ['>'] + b == a + t;
    StripTagsKeepsPlain(a, t);
    var u := t[1..];
    assert u[..|m|] == m && u[|m|] == '>';
    var k := IndexOf(u, '>');
    assert t[k + 2..] == b;
  }

  /** A `<` with no `>` anywhere after it is kept, together with everything after it. */
  lemma StripTagsKeepsUnclosed(a: string, s: string)
    requires '<' !in a && '>' !in s
    ensures StripTags(a + ['<'] + s) == a + ['<'] + s
  {
    var t := ['<'] + s;
    assert a + ['<'] + s == a + t;
    StripTagsKeepsPlain(a, t);
    assert t[1..] == s;
    StripTagsKeepsTagFree(s);
  }

  /** Stripping twice is stripping once. */
  lemma StripTagsIdempotent(s: string)
    ensures StripTags(StripTags(s)) == StripTags(s)
  {
    StripTagsLeavesNoTag(s);
    StripTagsKeepsTagFree(StripTags(s));
  }

  // ---------------------------------------------------------------------------
  // split(/\s+/)

  function FirstSpace(s: string): (i: nat)
    ensures i <= |s| && (i < |s| ==> IsJsSpace(s[i]))
    ensures forall k :: 0 <= k < i ==> !IsJsSpace(s[k])
  {
    if s == [] || IsJsSpace(s[0]) then 0 else FirstSpace(s[1..]) + 1
  }

  function SpaceRunEnd(s: string, i: nat): (j: nat)
    requires i < |s| && IsJsSpace(s[i])
    ensures i < j <= |s|
    ensures forall k :: i <= k < j ==> IsJsSpace(s[k])
    ensures j == |s| || !IsJsSpace(s[j])
    decreases |s| - i
  {
    if i + 1 < |s| && IsJsSpace(s[i + 1]) then SpaceRunEnd(s, i + 1) else i + 1
  }

  /**
   * `s.split(/\s+/)`: the pieces between maximal runs of whitespace, empty
   * pieces included (leading or trailing whitespace yields an empty piece).
   */
  function SplitOnSpace(s: string): (pieces: seq<string>)
    ensures |pieces| >= 1
    ensures forall k :: 0 <= k < |pieces| ==> NoSpace(pieces[k])
    decreases |s|
  {
    var i := FirstSpace(s);
    if i == |s| then
      assert NoSpace(s);
      [s]
    else
      assert NoSpace(s[..i]) by {
        forall k | 0 <= k < i ensures !IsJsSpace(s[..i][k]) {
          assert s[..i][k] == s[k];
        }
      }
      [s[..i]] + SplitOnSpace(s[SpaceRunEnd(s, i)..])
  }

  function Concat(pieces: seq<string>): string {
    if pieces == [] then [] else pieces[0] + Concat(pieces[1..])
  }

  lemma ConcatCons(x: string, rest: seq<string>)
    ensures Concat([x] + rest) == x + Concat(rest)
  {
    assert ([x] + rest)[1..] == rest;
  }

  function RemoveSpaces(s: string): (r: string)
    ensures NoSpace(r)
  {
    if s == [] then []
    else if IsJsSpace(s[0]) then RemoveSpaces(s[1..])
    else [s[0]] + RemoveSpaces(s[1..])
  }

  lemma {:induction false} RemoveSpacesAppend(a: string, b: string)
    ensures RemoveSpaces(a + b) == RemoveSpaces(a) + RemoveSpaces(b)
    decreases |a|
  {
    if a == [] {
      assert a + b == b;
    } else {
      assert (a + b)[0] == a[0];
      assert (a + b)[1..] == a[1..] + b;
      RemoveSpacesAppend(a[1..], b);
    }
  }

  lemma {:induction false} RemoveSpacesOfNoSpace(s: string)
    requires NoSpace(s)
    ensures RemoveSpaces(s) == s
    decreases |s|
  {
    if s != [] {
      RemoveSpacesOfNoSpace(s[1..]);
    }
  }

  lemma {:induction false} RemoveSpacesOfAllSpace(s: string)
    requires AllSpace(s)
    ensures RemoveSpaces(s) == []
    decreases |s|
  {
    if s != [] {
      RemoveSpacesOfAllSpace(s[1..]);
    }
  }

  /** The pieces of a split, put back together, are the input without its whitespace. */
  lemma {:induction false} SplitOnSpaceLosesOnlySpace(s: string)
    ensures Concat(SplitOnSpace(s)) == RemoveSpaces(s)
    decreases |s|
  {
    var i := FirstSpace(s);
    if i == |s| {
      RemoveSpacesOfNoSpace(s);
    } else {
      var j := SpaceRunEnd(s, i);
      SplitOnSpaceLosesOnlySpace(s[j..]);
      ConcatCons(s[..i], SplitOnSpace(s[j..]));
      SliceParts(s, i, j);
      RemoveSpacesOfParts(s[..i], s[i..j], s[j..]);
    }
  }

  lemma SliceParts(s: string, i: nat, j: nat)
    requires i <= j <= |s|
    ensures s == s[..i] + s[i..j] + s[j..]
  {
  }

  lemma RemoveSpacesOfParts(a: string, b: string, c: string)
    requires NoSpace(a) && AllSpace(b)
    ensures RemoveSpaces(a + b + c) == a + RemoveSpaces(c)
  {
    calc {
      RemoveSpaces(a + b + c);
      { RemoveSpacesAppend(a + b, c); }
      RemoveSpaces(a + b) + RemoveSpaces(c);
      { RemoveSpacesAppend(a, b); }
      RemoveSpaces(a) + RemoveSpaces(b) + RemoveSpaces(c);
      { RemoveSpacesOfNoSpace(a); RemoveSpacesOfAllSpace(b); }
      a + [] + RemoveSpaces(c);
      { assert a + [] == a; }
      a + RemoveSpaces(c);
    }
  }

  /** Splitting a non-empty trimmed text yields only non-empty words. */
  lemma {:induction false} SplitOfTrimmedHasNoEmptyPiece(s: string)
    requires s != [] && IsTrimmed(s)
    ensures forall k :: 0 <= k < |SplitOnSpace(s)| ==> SplitOnSpace(s)[k] != []
    decreases |s|
  {
    var i := FirstSpace(s);
    if i < |s| {
      var j := SpaceRunEnd(s, i);
      assert j < |s|;
      assert s[j..][|s[j..]| - 1] == s[|s| - 1];
      SplitOfTrimmedHasNoEmptyPiece(s[j..]);
    }
  }

  /**
   * The number of maximal whitespace runs of `s`, counted left to right;
   * `prevSpace` says whether the character before `s` was whitespace.
   */
  function SpaceRuns(s: string, prevSpace: bool): nat
    decreases |s|
  {
    if s == [] then 0
    else (if IsJsSpace(s[0]) && !prevSpace then 1 else 0) + SpaceRuns(s[1..], IsJsSpace(s[0]))
  }

  /** A non-empty stretch without whitespace starts no run, and hides what came before it. */
  lemma {:induction false} SpaceRunsAfterWord(s: string, i: nat, prevSpace: bool)
    requires 0 < i <= |s| && forall k :: 0 <= k < i ==> !IsJsSpace(s[k])
    ensures SpaceRuns(s, prevSpace) == SpaceRuns(s[i..], false)
    decreases i
  {
    if i > 1 {
      assert s[1..][i - 1..] == s[i..];
      SpaceRunsAfterWord(s[1..], i - 1, false);
    }
  }

  /** A non-empty stretch of whitespace is one run, or none if it continues a run. */
  lemma {:induction false} SpaceRunsAfterSpace(s: string, j: nat, prevSpace: bool)
    requires 0 < j <= |s| && forall k :: 0 <= k < j ==> IsJsSpace(s[k])
    ensures SpaceRuns(s, prevSpace) == (if prevSpace then 0 else 1) + SpaceRuns(s[j..], true)
    decreases j
  {
    if j > 1 {
      assert s[1..][j - 1..] == s[j..];
      SpaceRunsAfterSpace(s[1..], j - 1, true);
    }
  }

  /** A word, then a whitespace run, then text that starts with no whitespace: one run more than that text. */
  lemma SpaceRunsOfSplit(s: string, i: nat, j: nat)
    requires i < j <= |s|
    requires forall k :: 0 <= k < i ==> !IsJsSpace(s[k])
    requires forall k :: i <= k < j ==> IsJsSpace(s[k])
    requires j == |s| || !IsJsSpace(s[j])
    ensures SpaceRuns(s, false) == 1 + SpaceRuns(s[j..], false)
  {
    var t := s[i..];
    if i > 0 {
      SpaceRunsAfterWord(s, i, false);
    }
    SpaceRunsAfterSpace(t, j - i, false);
    assert t[j - i..] == s[j..];
  }

  /** `split(/\s+/)` yields one piece more than there are whitespace runs. */
  lemma {:induction false} SplitOnSpaceCount(s: string)
    ensures |SplitOnSpace(s)| == 1 + SpaceRuns(s, false)
    decreases |s|
  {
    var i := FirstSpace(s);
    if i == |s| {
      if s != [] {
        SpaceRunsAfterWord(s, i, false);
      }
    } else {
      var j := SpaceRunEnd(s, i);
      SpaceRunsOfSplit(s, i, j);
      SplitOnSpaceCount(s[j..]);
    }
  }

  /** `s.split(/\s+/).length`: one more than the number of whitespace runs. */
  function WordCount(s: string): (n: nat)
    ensures n == 1 + SpaceRuns(s, false)
  {
    SplitOnSpaceCount(s);
    |SplitOnSpace(s)|
  }

  // ---------------------------------------------------------------------------
  // toLowerCase and includes

  /** Lower-casing of the ASCII capitals; every other character is left as it is. */
  function LowerChar(c: char): char {
    if 'A' <= c <= 'Z' then (c as int + 32) as char else c
  }

  /** `toLowerCase` on ASCII capitals only: the length is kept and each character is mapped on its own. */
  function ToLower(s: string): (r: string)
    ensures |r| == |s|
    ensures forall i :: 0 <= i < |s| ==> r[i] == LowerChar(s[i])
  {
    seq(|s|, i requires 0 <= i < |s| => LowerChar(s[i]))
  }

  lemma ToLowerIdempotent(s: string)
    ensures ToLower(ToLower(s)) == ToLower(s)
  {
  }

  /** `s.includes(sub)`. */
  predicate Contains(s: string, sub: string)
    decreases |s|
  {
    (|sub| <= |s| && s[..|sub|] == sub) || (s != [] && Contains(s[1..], sub))
  }

  /** `sub` occurs in `s` starting at index `k`. */
  predicate OccursAt(s: string, sub: string, k: int) {
    0 <= k && k + |sub| <= |s| && s[k..k + |sub|] == sub
  }

  /** `Contains` holds exactly when `sub` occurs somewhere in `s`. */
  lemma {:induction false} ContainsIff(s: string, sub: string)
    ensures Contains(s, sub) <==> exists k :: OccursAt(s, sub, k)
    decreases |s|
  {
    if s != [] {
      ContainsIff(s[1..], sub);
      if Contains(s, sub) {
        if |sub| <= |s| && s[..|sub|] == sub {
          assert OccursAt(s, sub, 0);
        } else {
          var k :| OccursAt(s[1..], sub, k);
          assert s[1..][k..k + |sub|] == s[k + 1..k + 1 + |sub|];
          assert OccursAt(s, sub, k + 1);
        }
      }
      if exists k :: OccursAt(s, sub, k) {
        var k :| OccursAt(s, sub, k);
        if k > 0 {
          assert s[1..][k - 1..k - 1 + |sub|] == s[k..k + |sub|];
          assert OccursAt(s[1..], sub, k - 1);
        }
      }
    } else if Contains(s, sub) {
      assert OccursAt(s, sub, 0);
    }
  }

  // ---------------------------------------------------------------------------
  // String length

  /** The number of UTF-16 code units of one code point. */
  function Utf16Units(c: char): nat {
    if c as int >= 0x1_0000 then 2 else 1
  }

  /** `s.length` in JavaScript: UTF-16 code units, so a character outside the Basic Multilingual Plane counts twice. */
  function Utf16Length(s: string): (n: nat)
    ensures |s| <= n <= 2 * |s|
    ensures n == |s| <==> forall i :: 0 <= i < |s| ==> s[i] as int < 0x1_0000
  {
    if s == [] then 0 else Utf16Length(s[..|s| - 1]) + Utf16Units(s[|s| - 1])
  }

  // ---------------------------------------------------------------------------
  // Number to decimal text

  predicate IsDigit(c: char) {
    '0' <= c <= '9'
  }

  function DigitChar(d: nat): char
    requires d < 10
  {
    ('0' as int + d) as char
  }

  predicate AllDigits(s: string) {
    forall i :: 0 <= i < |s| ==> IsDigit(s[i])
  }

  /** The value of a run of decimal digits. */
  function ParseDigits(s: string): (n: int)
    requires AllDigits(s)
    ensures n >= 0
  {
    if s == [] then 0 else 10 * ParseDigits(s[..|s| - 1]) + (s[|s| - 1] as int - '0' as int)
  }

  /**
   * Decimal text of a natural number as `String(n)` writes it: digits that
   * read back as the number, with no leading zero except in "0" itself.
   */
  function NatToString(n: nat): (r: string)
    ensures r != [] && AllDigits(r)
    ensures ParseDigits(r) == n
    ensures r[0] == '0' <==> n == 0
    ensures |r| == 1 || r[0] != '0'
  {
    if n < 10 then [DigitChar(n)]
    else
      var r := NatToString(n / 10) + [DigitChar(n % 10)];
      assert r[..|r| - 1] == NatToString(n / 10);
      r
  }

  /** Decimal text of an integer as a template literal prints it. */
  function IntToString(i: int): (r: string)
    ensures r != []
    ensures i >= 0 ==> r == NatToString(i)
    ensures i < 0 ==> r == "-" + NatToString(-i)
  {
    if i < 0 then "-" + NatToString(-i) else NatToString(i)
  }
}
