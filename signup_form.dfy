/**
 * The logic of the signup form: the password strength score and the meter
 * that shows it, the checks run before signup is called, and the indicator
 * that the confirmation matches the password.
 */
module SignupForm {
  import opened Wrappers

  /** The character classes of the four patterns `/[a-z]/`, `/[A-Z]/`, `/\d/` and `/[^a-zA-Z\d]/`. */
  datatype CharClass = LowerLetter | UpperLetter | Digit | NotLetterOrDigit

  predicate InClass(k: CharClass, c: char) {
    match k
    case LowerLetter => 'a' <= c <= 'z'
    case UpperLetter => 'A' <= c <= 'Z'
    case Digit => '0' <= c <= '9'
    case NotLetterOrDigit => !('a' <= c <= 'z' || 'A' <= c <= 'Z' || '0' <= c <= '9')
  }

  /** Some character of `s` is in class `k`. */
  ghost predicate Contains(s: string, k: CharClass) {
    exists i :: 0 <= i < |s| && InClass(k, s[i])
  }

  /** `RegExp.prototype.test` for a one-class pattern: scans `s` from the left for a match. */
  function Test(k: CharClass, s: string): (found: bool)
    ensures found <==> Contains(s, k)
  {
    if s == [] then false
    else if InClass(k, s[0]) then true
    else
      var found := Test(k, s[1..]);
      assert Contains(s[1..], k) ==> Contains(s, k) by {
        if Contains(s[1..], k) {
          var i :| 0 <= i < |s[1..]| && InClass(k, s[1..][i]);
          assert s[i + 1] == s[1..][i];
        }
      }
      assert Contains(s, k) && !InClass(k, s[0]) ==> Contains(s[1..], k) by {
        if Contains(s, k) && !InClass(k, s[0]) {
          var i :| 0 <= i < |s| && InClass(k, s[i]);
          assert s[1..][i - 1] == s[i];
        }
      }
      found
  }

  /** The four strength criteria. */
  predicate LongEnough(pass: string) { |pass| >= 8 }
  ghost predicate MixedCase(pass: string) { Contains(pass, LowerLetter) && Contains(pass, UpperLetter) }
  ghost predicate HasDigit(pass: string) { Contains(pass, Digit) }
  ghost predicate HasSymbol(pass: string) { Contains(pass, NotLetterOrDigit) }

  function Point(b: bool): nat { if b then 1 else 0 }

  /** The strength score: one point for each criterion the password meets. */
  function PasswordStrength(pass: string): (strength: nat)
    ensures strength == Point(LongEnough(pass)) + Point(MixedCase(pass)) + Point(HasDigit(pass)) + Point(HasSymbol(pass))
    ensures strength <= 4
    ensures strength == 0 <==> !LongEnough(pass) && !MixedCase(pass) && !HasDigit(pass) && !HasSymbol(pass)
    ensures strength == 4 <==> LongEnough(pass) && MixedCase(pass) && HasDigit(pass) && HasSymbol(pass)
  {
    (if |pass| >= 8 then 1 else 0)
    + (if Test(LowerLetter, pass) && Test(UpperLetter, pass) then 1 else 0)
    + (if Test(Digit, pass) then 1 else 0)
    + (if Test(NotLetterOrDigit, pass) then 1 else 0)
  }

  /** Typing one more character never lowers the score. */
  lemma StrengthGrowsWithInput(pass: string, c: char)
    ensures PasswordStrength(pass) <= PasswordStrength(pass + [c])
  {
    var longer := pass + [c];
    forall k | Contains(pass, k) ensures Contains(longer, k) {
      var i :| 0 <= i < |pass| && InClass(k, pass[i]);
      assert longer[i] == pass[i];
    }
  }

  const StrengthLabels: seq<string> := ["Weak", "Fair", "Good", "Strong"]
  const StrengthColors: seq<string> := ["bg-error", "bg-warning", "bg-secondary", "bg-success"]

  /**
   * `items[index] || fallback` on an array of strings: an index outside the
   * array reads `undefined`, which is falsy like the empty string.
   */
  function ItemOr(items: seq<string>, index: int, fallback: string): string {
    if 0 <= index < |items| && items[index] != "" then items[index] else fallback
  }

  /** The label the meter shows for a score. */
  function StrengthLabel(strength: int): (text: string)
    ensures 1 <= strength <= 4 ==> text == StrengthLabels[strength - 1]
    ensures !(1 <= strength <= 4) ==> text == "Too short"
  {
    ItemOr(StrengthLabels, strength - 1, "Too short")
  }

  /** The colour of the meter bar for a score. */
  function StrengthColor(strength: int): (color: string)
    ensures 1 <= strength <= 4 ==> color == StrengthColors[strength - 1]
    ensures !(1 <= strength <= 4) ==> color == "bg-border"
  {
    ItemOr(StrengthColors, strength - 1, "bg-border")
  }

  datatype Meter = Meter(caption: string, color: string)

  /** The strength meter under the password field: shown only while the password is non-empty. */
  function StrengthMeter(password: string): (m: Option<Meter>)
    ensures m.None? <==> password == ""
  {
    if password == "" then None
    else
      var strength := PasswordStrength(password);
      Some(Meter(StrengthLabel(strength), StrengthColor(strength)))
  }

  /**
   * The meter falls back to "Too short" and `bg-border` exactly for a
   * non-empty password that meets none of the criteria, and shows "Strong"
   * exactly when it meets all four.
   */
  lemma MeterForPassword(password: string)
    requires password != ""
    ensures StrengthMeter(password).value.caption == "Too short"
      <==> !LongEnough(password) && !MixedCase(password) && !HasDigit(password) && !HasSymbol(password)
    ensures StrengthMeter(password).value.color == "bg-border"
      <==> !LongEnough(password) && !MixedCase(password) && !HasDigit(password) && !HasSymbol(password)
    ensures StrengthMeter(password).value.caption == "Strong"
      <==> LongEnough(password) && MixedCase(password) && HasDigit(password) && HasSymbol(password)
  {
  }

  /** The two checks the form makes before calling signup, and their outcome. */
  datatype SubmitOutcome = PasswordsDiffer | PasswordTooShort | SignupCalled
  {
    /** The error message the form shows; signup's own errors are not modelled here. */
    function Message(): (text: string)
      requires !SignupCalled?
      ensures PasswordsDiffer? ==> text == "Passwords do not match"
      ensures PasswordTooShort? ==> text == "Password must be at least 6 characters"
    {
      if PasswordsDiffer? then "Passwords do not match" else "Password must be at least 6 characters"
    }
  }

  /**
   * The submit handler's validation: a mismatch is reported first, even for a
   * short password; then a password under six characters; only then is
   * signup called.
   */
  function ValidateSubmit(password: string, confirmPassword: string): (outcome: SubmitOutcome)
    ensures outcome == PasswordsDiffer <==> password != confirmPassword
    ensures outcome == PasswordTooShort <==> password == confirmPassword && |password| < 6
    ensures outcome == SignupCalled <==> password == confirmPassword && |password| >= 6
  {
    if password != confirmPassword then PasswordsDiffer
    else if |password| < 6 then PasswordTooShort
    else SignupCalled
  }

  /** The check mark beside the confirmation field. */
  function ShowsMatchIndicator(password: string, confirmPassword: string): (shown: bool)
    ensures shown <==> confirmPassword != "" && ValidateSubmit(password, confirmPassword) != PasswordsDiffer
  {
    confirmPassword != "" && password == confirmPassword
  }

  /**
   * The meter's "Too short" is not the length rule: a one-character symbol
   * is rated "Weak" yet rejected as too short, while six lowercase letters
   * are rated "Too short" yet accepted.
   */
  lemma MeterLabelIsNotTheLengthRule()
    ensures StrengthMeter("!") == Some(Meter("Weak", "bg-error"))
    ensures ValidateSubmit("!", "!") == PasswordTooShort
    ensures StrengthMeter("abcdef") == Some(Meter("Too short", "bg-border"))
    ensures ValidateSubmit("abcdef", "abcdef") == SignupCalled
  {
  }
}
