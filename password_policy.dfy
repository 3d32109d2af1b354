/**
 The password policy applied at registration: five criteria checked in a
 fixed order, the first one that fails choosing the message.
 */
module PasswordPolicy {

  const MinLength: nat := 8

  /** The punctuation a password must draw at least one character from. */
  const Specials: string := "!@#$%^&*()-_=+[]{}|;:,.<>?"

  const MsgTooShort: string := "La password deve avere almeno 8 caratteri"
  const MsgNoUpper: string := "La password deve contenere almeno una lettera MAIUSCOLA"
  const MsgNoLower: string := "La password deve contenere almeno una lettera minuscola"
  const MsgNoDigit: string := "La password deve contenere almeno un numero"
  const MsgNoSpecial: string := "La password deve contenere almeno un carattere speciale"
  const MsgValid: string := "Password valida"

  /** The five rejection messages, one per criterion. */
  const FailureMessages: set<string> := {MsgTooShort, MsgNoUpper, MsgNoLower, MsgNoDigit, MsgNoSpecial}

  /** The character classes the policy asks for. */
  datatype CharClass = Upper | Lower | Digit | Special

  /** Membership of one character in a class (`isupper`, `islower` and
      `isdigit` read on ASCII). */
  predicate InClass(c: char, k: CharClass)
  {
    match k
    case Upper => 'A' <= c <= 'Z'
    case Lower => 'a' <= c <= 'z'
    case Digit => '0' <= c <= '9'
    case Special => c in Specials
  }

  /** `any(<class test> for c in s)`, computed left to right. */
  function AnyIn(s: string, k: CharClass): (r: bool)
    ensures r <==> exists i :: 0 <= i < |s| && InClass(s[i], k)
  {
    if s == [] then false
    else if InClass(s[0], k) then true
    else
      var r := AnyIn(s[1..], k);
      assert forall i :: 1 <= i < |s| ==> s[i] == s[1..][i - 1];
      r
  }

  /** The policy, stated as a reference definition independent of the order
      of the checks. */
  ghost predicate Has(p: string, k: CharClass)
  {
    exists i :: 0 <= i < |p| && InClass(p[i], k)
  }

  ghost predicate Strong(p: string)
  {
    |p| >= MinLength && Has(p, Upper) && Has(p, Lower) && Has(p, Digit) && Has(p, Special)
  }

  /** The `(bool, message)` pair `validate_password` returns. */
  datatype Verdict = Verdict(valid: bool, message: string)

  /** The validator: the criteria run in the order length, uppercase,
      lowercase, digit, special, and the first failure picks the message. */
  function ValidatePassword(p: string): (v: Verdict)
    ensures v.valid <==> Strong(p)
    ensures v.valid <==> v.message == MsgValid
    ensures !v.valid ==> v.message in FailureMessages
    ensures |p| < MinLength ==> v.message == MsgTooShort
    ensures |p| >= MinLength && !Has(p, Upper) ==> v.message == MsgNoUpper
    ensures |p| >= MinLength && Has(p, Upper) && !Has(p, Lower) ==> v.message == MsgNoLower
    ensures |p| >= MinLength && Has(p, Upper) && Has(p, Lower) && !Has(p, Digit) ==> v.message == MsgNoDigit
    ensures |p| >= MinLength && Has(p, Upper) && Has(p, Lower) && Has(p, Digit) && !Has(p, Special)
            ==> v.message == MsgNoSpecial
  {
    if |p| < MinLength then Verdict(false, MsgTooShort)
    else if !AnyIn(p, Upper) then Verdict(false, MsgNoUpper)
    else if !AnyIn(p, Lower) then Verdict(false, MsgNoLower)
    else if !AnyIn(p, Digit) then Verdict(false, MsgNoDigit)
    else if !AnyIn(p, Special) then Verdict(false, MsgNoSpecial)
    else Verdict(true, MsgValid)
  }

  /** Adding characters never makes a strong password weak: the policy has
      minimums only, no maximum and no forbidden character. */
  lemma StrongExtends(p: string, q: string)
    requires Strong(p)
    ensures Strong(p + q) && Strong(q + p)
  {
    forall k: CharClass | Has(p, k) ensures Has(p + q, k) && Has(q + p, k) {
      var i :| 0 <= i < |p| && InClass(p[i], k);
      assert (p + q)[i] == p[i];
      assert (q + p)[|q| + i] == p[i];
    }
  }

  /** Three passwords and their verdicts: too short, lowercase only, and
      one that meets every criterion. */
  lemma Examples()
    ensures ValidatePassword("abc") == Verdict(false, MsgTooShort)
    ensures ValidatePassword("abcdefgh") == Verdict(false, MsgNoUpper)
    ensures ValidatePassword("Abcdefg1!") == Verdict(true, MsgValid)
  {
    var p := "Abcdefg1!";
    assert InClass(p[0], Upper) && InClass(p[1], Lower) && InClass(p[7], Digit) && InClass(p[8], Special);
    var q := "abcdefgh";
    assert !Has(q, Upper) by {
      forall i | 0 <= i < |q| ensures !InClass(q[i], Upper) {}
    }
  }
}
