/**
 * The advisory password-strength indicator: an unanchored pattern made of
 * five lookaheads (a lower-case letter, an upper-case letter, a digit, a
 * character that is none of these, and eight characters), tested against
 * the current password. It never affects whether a submit is accepted.
 */
module Strength {
  import opened Text
  import opened Schema

  /** The characters a pattern's `.` does not match. */
  predicate IsLineTerminator(c: char) {
    c == '\n' || c == '\r' || c == '\U{2028}' || c == '\U{2029}'
  }

  /** The four character classes the lookaheads ask for. */
  datatype CharClass = Lower | Upper | Digit | Symbol

  predicate InClass(c: char, k: CharClass) {
    match k
    case Lower => IsAsciiLower(c)
    case Upper => IsAsciiUpper(c)
    case Digit => IsAsciiDigit(c)
    case Symbol => !IsAsciiLower(c) && !IsAsciiUpper(c) && !IsAsciiDigit(c)
  }

  /**
   * `(?=.*[k])` at position `i`: a character of class `k` lies at or after
   * `i`, with no line terminator before it.
   */
  predicate FindsClassFrom(s: string, i: nat, k: CharClass)
    requires i <= |s|
  {
    exists j :: i <= j < |s| && InClass(s[j], k) && forall m :: i <= m < j ==> !IsLineTerminator(s[m])
  }

  /** `(?=.{8,})` at position `i`: eight characters follow, none a line terminator. */
  predicate EightFrom(s: string, i: nat)
    requires i <= |s|
  {
    i + 8 <= |s| && forall m :: i <= m < i + 8 ==> !IsLineTerminator(s[m])
  }

  predicate MatchesAt(s: string, i: nat)
    requires i <= |s|
  {
    FindsClassFrom(s, i, Lower) && FindsClassFrom(s, i, Upper) &&
    FindsClassFrom(s, i, Digit) && FindsClassFrom(s, i, Symbol) && EightFrom(s, i)
  }

  /**
   * The pattern's `test`: it matches at some position of the password. A
   * match needs eight characters from that position on.
   */
  predicate IsPasswordStrong(password: string)
    ensures IsPasswordStrong(password) ==> |password| >= 8
  {
    exists i :: 0 <= i <= |password| && MatchesAt(password, i)
  }

  predicate Contains(s: string, k: CharClass) {
    exists j :: 0 <= j < |s| && InClass(s[j], k)
  }

  /** The rule the indicator stands for: every class present and at least eight characters. */
  predicate HasEveryClass(s: string) {
    Contains(s, Lower) && Contains(s, Upper) && Contains(s, Digit) && Contains(s, Symbol) && |s| >= 8
  }

  predicate NoLineTerminator(s: string) {
    forall m :: 0 <= m < |s| ==> !IsLineTerminator(s[m])
  }

  /** A lookahead that succeeds somewhere finds its class in the password. */
  lemma FindsClassContains(s: string, i: nat, k: CharClass)
    requires i <= |s| && FindsClassFrom(s, i, k)
    ensures Contains(s, k)
  {
    var j :| i <= j < |s| && InClass(s[j], k) && forall m :: i <= m < j ==> !IsLineTerminator(s[m]);
    assert InClass(s[j], k);
  }

  /** Whenever the pattern matches, the password has every class and eight characters. */
  lemma StrongHasEveryClass(password: string)
    requires IsPasswordStrong(password)
    ensures HasEveryClass(password)
  {
    var i :| 0 <= i <= |password| && MatchesAt(password, i);
    FindsClassContains(password, i, Lower);
    FindsClassContains(password, i, Upper);
    FindsClassContains(password, i, Digit);
    FindsClassContains(password, i, Symbol);
  }

  /** Without line terminators a class present anywhere is found from the start. */
  lemma ContainsFindsFromStart(s: string, k: CharClass)
    requires NoLineTerminator(s) && Contains(s, k)
    ensures FindsClassFrom(s, 0, k)
  {
    var j :| 0 <= j < |s| && InClass(s[j], k);
    assert forall m :: 0 <= m < j ==> !IsLineTerminator(s[m]);
  }

  /**
   * On a password without line terminators the pattern holds exactly when
   * every class is present and there are at least eight characters.
   */
  lemma StrongIffEveryClass(password: string)
    requires NoLineTerminator(password)
    ensures IsPasswordStrong(password) <==> HasEveryClass(password)
  {
    if IsPasswordStrong(password) {
      StrongHasEveryClass(password);
    }
    if HasEveryClass(password) {
      ContainsFindsFromStart(password, Lower);
      ContainsFindsFromStart(password, Upper);
      ContainsFindsFromStart(password, Digit);
      ContainsFindsFromStart(password, Symbol);
      assert MatchesAt(password, 0);
    }
  }

  /**
   * A line terminator breaks the eight-character window: this password has
   * every class and nine characters, and still does not match.
   */
  lemma LineTerminatorDefeatsPattern()
    ensures HasEveryClass("aA1!\naaaa") && !IsPasswordStrong("aA1!\naaaa")
  {
    var s := "aA1!\naaaa";
    assert InClass(s[0], Lower) && InClass(s[1], Upper) && InClass(s[2], Digit) && InClass(s[3], Symbol);
    forall i | 0 <= i <= |s|
      ensures !MatchesAt(s, i)
    {
      if i <= 1 {
        assert IsLineTerminator(s[4]);
      }
    }
  }

  /**
   * A six- or seven-character password passes the password rule of the
   * schema, yet the indicator calls it weak: the two checks are independent.
   */
  lemma ShortPasswordAcceptedButWeak(password: string)
    requires MinPasswordLength <= |password| < 8
    ensures PasswordIssues(password) == [] && !IsPasswordStrong(password)
  {
    if IsPasswordStrong(password) {
      StrongHasEveryClass(password);
    }
  }

  /** The indicator on one strong and one weak password. */
  lemma StrengthScenarios()
    ensures IsPasswordStrong("Abcdef1!")
    ensures !IsPasswordStrong("abcdef")
  {
    var s := "Abcdef1!";
    assert InClass(s[1], Lower) && InClass(s[0], Upper) && InClass(s[6], Digit) && InClass(s[7], Symbol);
    assert NoLineTerminator(s);
    StrongIffEveryClass(s);
    ShortPasswordAcceptedButWeak("abcdef");
  }
}
