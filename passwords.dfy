/**
 * The password policy applied at registration (utils.py, validate_password).
 *
 * A password is accepted when its length lies between 8 and 15 characters and it
 * contains at least one ASCII lower-case letter, at least one ASCII upper-case letter
 * and at least one of the special characters ¡ " # $ % & / ( ) ! @.
 * Digits are never required. The policy is a pure function of the string.
 */
module Passwords {

  const MinLength: nat := 8
  const MaxLength: nat := 15

  /** The characters of the regular-expression class [¡"#$%&/()!@]. */
  const Specials: set<char> := {'¡', '"', '#', '$', '%', '&', '/', '(', ')', '!', '@'}

  predicate IsLower(c: char) { 'a' <= c <= 'z' }
  predicate IsUpper(c: char) { 'A' <= c <= 'Z' }
  predicate IsSpecial(c: char) { c in Specials }

  // The policy's four conditions, stated as existence of a witness position.

  ghost predicate HasLower(s: string) { exists i :: 0 <= i < |s| && IsLower(s[i]) }
  ghost predicate HasUpper(s: string) { exists i :: 0 <= i < |s| && IsUpper(s[i]) }
  ghost predicate HasSpecial(s: string) { exists i :: 0 <= i < |s| && IsSpecial(s[i]) }

  ghost predicate LengthOk(s: string) { MinLength <= |s| <= MaxLength }

  ghost predicate MeetsPolicy(s: string)
  {
    LengthOk(s) && HasLower(s) && HasUpper(s) && HasSpecial(s)
  }

  /** re.search with a character range [lo-hi]: is some character of s inside the range? */
  function SearchRange(s: string, lo: char, hi: char): (found: bool)
    ensures found <==> exists i :: 0 <= i < |s| && lo <= s[i] <= hi
  {
    if s == [] then false
    else if lo <= s[0] <= hi then true
    else
      var found := SearchRange(s[1..], lo, hi);
      assert forall i :: 1 <= i < |s| ==> s[i] == s[1..][i - 1];
      found
  }

  /** re.search with a character class given by enumeration. */
  function SearchSet(s: string, chars: set<char>): (found: bool)
    ensures found <==> exists i :: 0 <= i < |s| && s[i] in chars
  {
    if s == [] then false
    else if s[0] in chars then true
    else
      var found := SearchSet(s[1..], chars);
      assert forall i :: 1 <= i < |s| ==> s[i] == s[1..][i - 1];
      found
  }

  /** validate_password: the checks run in utils.py's order, the first failure rejects. */
  function ValidatePassword(password: string): (ok: bool)
    ensures ok <==> MeetsPolicy(password)
  {
    if |password| < MinLength || |password| > MaxLength then false
    else if !SearchRange(password, 'a', 'z') then false
    else if !SearchRange(password, 'A', 'Z') then false
    else if !SearchSet(password, Specials) then false
    else true
  }

  lemma TooShortRejected(password: string)
    requires |password| < MinLength
    ensures !ValidatePassword(password)
  {
  }

  lemma TooLongRejected(password: string)
    requires |password| > MaxLength
    ensures !ValidatePassword(password)
  {
  }

  lemma NoLowerRejected(password: string)
    requires forall i :: 0 <= i < |password| ==> !IsLower(password[i])
    ensures !ValidatePassword(password)
  {
  }

  lemma NoUpperRejected(password: string)
    requires forall i :: 0 <= i < |password| ==> !IsUpper(password[i])
    ensures !ValidatePassword(password)
  {
  }

  lemma NoSpecialRejected(password: string)
    requires forall i :: 0 <= i < |password| ==> password[i] !in Specials
    ensures !ValidatePassword(password)
  {
  }

  /** Accepted as soon as the four conditions hold at some positions; nothing else is asked. */
  lemma AcceptedWithWitnesses(password: string, lower: nat, upper: nat, special: nat)
    requires MinLength <= |password| <= MaxLength
    requires lower < |password| && IsLower(password[lower])
    requires upper < |password| && IsUpper(password[upper])
    requires special < |password| && IsSpecial(password[special])
    ensures ValidatePassword(password)
  {
  }

  /** Digits are not required: a password without any digit is accepted. */
  lemma DigitsNotRequired()
    ensures forall i :: 0 <= i < |"Abcdefg!"| ==> !('0' <= "Abcdefg!"[i] <= '9')
    ensures ValidatePassword("Abcdefg!")
  {
  }

  /** Only ASCII letters count: accented capitals do not satisfy the upper-case rule. */
  lemma NonAsciiLettersDoNotCount()
    ensures !ValidatePassword("ÁÉÍÓÚabc!")
  {
  }
}
