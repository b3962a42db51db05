/**
 * The sign-up form's field rules. Each input is a `Constraints.Field`, and
 * its verdict drives the hint shown under it. The submit button sits in a
 * second `<form>` that holds none of these inputs, so no verdict stops a
 * submission. The e-mail field's validity is defined by the browser and is
 * outside the model.
 */
module Register {
  import opened Options
  import opened Constraints
  import Text

  /** Full name: required, 3 to 30 code units, a letter then letters, digits or dashes. */
  const FullName: Field := Field(true, Some(3), Some(30), Some(LeadingLetter))

  /** Phone: required, exactly 10 code units, ten ASCII digits. */
  const Phone: Field := Field(true, Some(10), Some(10), Some(TenDigits))

  /** Username: the same attributes as the full name. */
  const Username: Field := Field(true, Some(3), Some(30), Some(LeadingLetter))

  /** Password: required, at least 8 code units, with a digit, a lower-case and an upper-case letter. */
  const Password: Field := Field(true, Some(8), None, Some(StrongPassword))

  /** Confirm password: the same attributes as the password, and nothing more. */
  const ConfirmPassword: Field := Field(true, Some(8), None, Some(StrongPassword))

  /** A name field accepts exactly 3 to 30 ASCII characters: a letter, then letters, digits or dashes. */
  lemma NameValidIff(f: Field, s: string)
    requires f == FullName || f == Username
    ensures Check(f, s).Valid() <==>
      && 3 <= |s| <= 30
      && IsAsciiLetter(s[0])
      && forall i :: 1 <= i < |s| ==> NameChar(s[i])
  {
    if Matches(LeadingLetter, s) {
      AsciiPatternLength(LeadingLetter, s);
    }
  }

  /** A full name with a space in it, such as a first and last name, is rejected. */
  lemma NameWithSpaceRejected(s: string, i: int)
    requires 0 <= i < |s| && s[i] == ' '
    ensures !Check(FullName, s).Valid()
  {
    NameValidIff(FullName, s);
  }

  /** The phone accepts exactly ten ASCII digits. */
  lemma PhoneValidIff(s: string)
    ensures Check(Phone, s).Valid() <==> |s| == 10 && Text.AllDigits(s)
  {
    if Matches(TenDigits, s) {
      AsciiPatternLength(TenDigits, s);
    }
  }

  /**
   * The password accepts exactly the values of at least 8 characters, none a
   * line terminator, with a digit, a lower-case and an upper-case ASCII letter;
   * the `minlength` of 8 code units adds nothing to the pattern's `.{8,}`.
   */
  lemma PasswordValidIff(s: string)
    ensures Check(Password, s).Valid() <==> Matches(StrongPassword, s)
    ensures Check(ConfirmPassword, s).Valid() <==> Matches(StrongPassword, s)
  {
  }

  /** The rule both name fields share: 3 to 30 characters, a letter, then letters, digits or dashes. */
  predicate NameRule(s: string) {
    && 3 <= |s| <= 30
    && IsAsciiLetter(s[0])
    && forall i :: 1 <= i < |s| ==> NameChar(s[i])
  }

  /**
   * Every modelled field reports valid, so no field shows its hint. The two
   * passwords are checked separately, each against the same pattern. This
   * gates nothing: the submit button's form holds none of the fields.
   */
  function FormValid(fullName: string, phone: string, username: string, password: string, confirm: string): (valid: bool)
    ensures valid <==>
      && NameRule(fullName) && NameRule(username)
      && |phone| == 10 && Text.AllDigits(phone)
      && Matches(StrongPassword, password) && Matches(StrongPassword, confirm)
  {
    NameValidIff(FullName, fullName);
    NameValidIff(Username, username);
    PhoneValidIff(phone);
    PasswordValidIff(password);
    PasswordValidIff(confirm);
    && Check(FullName, fullName).Valid()
    && Check(Phone, phone).Valid()
    && Check(Username, username).Valid()
    && Check(Password, password).Valid()
    && Check(ConfirmPassword, confirm).Valid()
  }

  /** Nothing ties the confirmation to the password: any two valid, different passwords pass together. */
  lemma ConfirmNeedNotMatch(fullName: string, phone: string, username: string, password: string, confirm: string)
    requires FormValid(fullName, phone, username, password, password)
    requires Matches(StrongPassword, confirm)
    ensures FormValid(fullName, phone, username, password, confirm)
  {
    PasswordValidIff(confirm);
  }

  /** Two different passwords that each pass, so a form can carry a confirmation unlike its password. */
  lemma DifferentValidPasswords()
    ensures Check(Password, "Abcdefg1").Valid() && Check(ConfirmPassword, "Abcdefg2").Valid()
  {
    var a, b := "Abcdefg1", "Abcdefg2";
    assert Text.IsDigit(a[7]) && 'a' <= a[1] <= 'z' && 'A' <= a[0] <= 'Z';
    assert Text.IsDigit(b[7]) && 'a' <= b[1] <= 'z' && 'A' <= b[0] <= 'Z';
    PasswordValidIff(a);
    PasswordValidIff(b);
  }
}
