/** The sign-in form's field rules, which repeat the sign-up form's. */
module Login {
  import opened Options
  import opened Constraints
  import Register

  /** Username: required, 3 to 30 code units, a letter then letters, digits or dashes. */
  const Username: Field := Field(true, Some(3), Some(30), Some(LeadingLetter))

  /** Password: required, at least 8 code units, with a digit, a lower-case and an upper-case letter. */
  const Password: Field := Field(true, Some(8), None, Some(StrongPassword))

  /** A username is accepted at sign-in exactly when the sign-up form accepts it. */
  lemma UsernameRulesAgree(s: string)
    ensures Check(Username, s).Valid() <==> Check(Register.Username, s).Valid()
    ensures Check(Username, s).Valid() <==>
      3 <= |s| <= 30 && IsAsciiLetter(s[0]) && forall i :: 1 <= i < |s| ==> NameChar(s[i])
  {
    Register.NameValidIff(Register.Username, s);
  }

  /** A password is accepted at sign-in exactly when the sign-up form accepts it. */
  lemma PasswordRulesAgree(s: string)
    ensures Check(Password, s).Valid() <==> Check(Register.Password, s).Valid()
    ensures Check(Password, s).Valid() <==> Matches(StrongPassword, s)
  {
    Register.PasswordValidIff(s);
  }
}
