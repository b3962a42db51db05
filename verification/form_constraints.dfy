/**
 * Constraint validation of a text-like `<input>` as section 4.10.21 of the
 * HTML Living Standard defines it, for the attributes the sign-up and sign-in
 * forms use: `required`, `minlength`, `maxlength` and `pattern`.
 *
 * - A value is missing when the control is required and the value is empty.
 * - Lengths are JavaScript string lengths: UTF-16 code units, so a character
 *   outside the Basic Multilingual Plane counts twice.
 * - An empty value is never too short and never mismatches the pattern.
 * - The pattern must match the WHOLE value (it is compiled as
 *   `^(?:pattern)$` with the `v` flag, section 4.10.5.3.6), so `.` matches any
 *   code point except a line terminator.
 *
 * The three patterns of the forms are modelled by their meaning, each with a
 * scanning method shown to decide it.
 */
module Constraints {
  import opened Options
  import Text

  // ---------------------------------------------------------------------------
  // Patterns

  predicate IsAsciiLetter(c: char) {
    'a' <= c <= 'z' || 'A' <= c <= 'Z'
  }

  /** The patterns the forms use. */
  datatype Pattern =
    | LeadingLetter   // [A-Za-z][A-Za-z0-9\-]*
    | TenDigits       // [0-9]{10}
    | StrongPassword  // (?=.*\d)(?=.*[a-z])(?=.*[A-Z]).{8,}

  predicate NameChar(c: char) {
    IsAsciiLetter(c) || Text.IsDigit(c) || c == '-'
  }

  /** Whether the whole of `s` matches the pattern. */
  predicate Matches(p: Pattern, s: string) {
    match p
    case LeadingLetter =>
      |s| >= 1 && IsAsciiLetter(s[0]) && forall i :: 1 <= i < |s| ==> NameChar(s[i])
    case TenDigits =>
      |s| == 10 && Text.AllDigits(s)
    case StrongPassword =>
      && |s| >= 8
      && (forall i :: 0 <= i < |s| ==> !Text.IsLineTerminator(s[i]))
      && (exists i :: 0 <= i < |s| && Text.IsDigit(s[i]))
      && (exists i :: 0 <= i < |s| && 'a' <= s[i] <= 'z')
      && (exists i :: 0 <= i < |s| && 'A' <= s[i] <= 'Z')
  }

  /** A value matching a name or digit pattern is plain ASCII, so its length in code units is its length. */
  lemma AsciiPatternLength(p: Pattern, s: string)
    requires p != StrongPassword && Matches(p, s)
    ensures Text.Utf16Length(s) == |s|
  {
  }

  /** Matching `[A-Za-z][A-Za-z0-9\-]*` in one pass. */
  method ScanLeadingLetter(s: string) returns (ok: bool)
    ensures ok == Matches(LeadingLetter, s)
  {
    if |s| == 0 || !IsAsciiLetter(s[0]) {
      return false;
    }
    var i := 1;
    while i < |s|
      invariant 1 <= i <= |s|
      invariant forall k :: 1 <= k < i ==> NameChar(s[k])
    {
      if !NameChar(s[i]) {
        return false;
      }
      i := i + 1;
    }
    return true;
  }

  /** Matching `[0-9]{10}` in one pass. */
  method ScanTenDigits(s: string) returns (ok: bool)
    ensures ok == Matches(TenDigits, s)
  {
    if |s| != 10 {
      return false;
    }
    var i := 0;
    while i < |s|
      invariant 0 <= i <= |s|
      invariant forall k :: 0 <= k < i ==> Text.IsDigit(s[k])
    {
      if !Text.IsDigit(s[i]) {
        return false;
      }
      i := i + 1;
    }
    return true;
  }

  /**
   * Matching `(?=.*\d)(?=.*[a-z])(?=.*[A-Z]).{8,}` in one pass: no line
   * terminator may occur (neither the look-aheads nor `.{8,}` cross one), and
   * a digit, a lower-case and an upper-case ASCII letter must each appear.
   */
  method ScanStrongPassword(s: string) returns (ok: bool)
    ensures ok == Matches(StrongPassword, s)
  {
    var digit, lower, upper := false, false, false;
    var i := 0;
    while i < |s|
      invariant 0 <= i <= |s|
      invariant forall k :: 0 <= k < i ==> !Text.IsLineTerminator(s[k])
      invariant digit <==> exists k :: 0 <= k < i && Text.IsDigit(s[k])
      invariant lower <==> exists k :: 0 <= k < i && 'a' <= s[k] <= 'z'
      invariant upper <==> exists k :: 0 <= k < i && 'A' <= s[k] <= 'Z'
    {
      var c := s[i];
      if Text.IsLineTerminator(c) {
        return false;
      }
      digit := digit || Text.IsDigit(c);
      lower := lower || 'a' <= c <= 'z';
      upper := upper || 'A' <= c <= 'Z';
      i := i + 1;
    }
    ok := |s| >= 8 && digit && lower && upper;
  }

  // ---------------------------------------------------------------------------
  // Validity

  /** The attributes of one input. */
  datatype Field = Field(required: bool, minLength: Option<nat>, maxLength: Option<nat>, pattern: Option<Pattern>)

  /** The flags of the `ValidityState` interface that these attributes can raise. */
  datatype Validity = Validity(valueMissing: bool, tooShort: bool, tooLong: bool, patternMismatch: bool) {
    predicate Valid() {
      !valueMissing && !tooShort && !tooLong && !patternMismatch
    }
  }

  /** The validity of a value the user typed (so the length checks apply). */
  function Check(f: Field, value: string): (r: Validity)
    ensures value == [] ==> !r.tooShort && !r.patternMismatch
    ensures f.required && value == [] ==> !r.Valid()
    ensures r.Valid() && value != [] ==>
      && (f.minLength.Some? ==> f.minLength.value <= Text.Utf16Length(value))
      && (f.maxLength.Some? ==> Text.Utf16Length(value) <= f.maxLength.value)
      && (f.pattern.Some? ==> Matches(f.pattern.value, value))
  {
    var n := Text.Utf16Length(value);
    Validity(
      f.required && value == [],
      value != [] && f.minLength.Some? && n < f.minLength.value,
      f.maxLength.Some? && n > f.maxLength.value,
      value != [] && f.pattern.Some? && !Matches(f.pattern.value, value))
  }

  /** The same verdict, computed as the browser does: one scan for the length, one for the pattern. */
  method Validate(f: Field, value: string) returns (valid: bool)
    ensures valid == Check(f, value).Valid()
  {
    var n := 0;
    var i := 0;
    while i < |value|
      invariant 0 <= i <= |value|
      invariant n == Text.Utf16Length(value[..i])
    {
      assert value[..i + 1][..i] == value[..i];
      n := n + Text.Utf16Units(value[i]);
      i := i + 1;
    }
    assert value[..|value|] == value;
    if f.required && value == [] {
      return false;
    }
    if value != [] && f.minLength.Some? && n < f.minLength.value {
      return false;
    }
    if f.maxLength.Some? && n > f.maxLength.value {
      return false;
    }
    if value != [] && f.pattern.Some? {
      var p := f.pattern.value;
      match p {
        case LeadingLetter => valid := ScanLeadingLetter(value);
        case TenDigits => valid := ScanTenDigits(value);
        case StrongPassword => valid := ScanStrongPassword(value);
      }
      return;
    }
    return true;
  }
}
