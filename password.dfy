/**
 * `validatePassword`: the pattern `^(?=.*[A-Za-z])(?=.*\d)[A-Za-z\d]{8,}$`,
 * read as a single left-to-right scan that tracks whether every character
 * so far is an ASCII letter or digit and whether a letter and a digit have
 * been seen.
 */
module Password {

  predicate IsAsciiLetter(c: char) {
    'A' <= c <= 'Z' || 'a' <= c <= 'z'
  }

  /** `\d` without the Unicode flag: the ten ASCII digits. */
  predicate IsAsciiDigit(c: char) {
    '0' <= c <= '9'
  }

  /** What the scan has seen: all characters allowed, a letter seen, a digit seen. */
  datatype Scan = Scan(allowed: bool, letter: bool, digit: bool)

  function ScanText(s: string): (r: Scan)
    ensures r.allowed <==> forall i :: 0 <= i < |s| ==> IsAsciiLetter(s[i]) || IsAsciiDigit(s[i])
    ensures r.letter <==> exists i :: 0 <= i < |s| && IsAsciiLetter(s[i])
    ensures r.digit <==> exists i :: 0 <= i < |s| && IsAsciiDigit(s[i])
  {
    if |s| == 0 then Scan(true, false, false)
    else
      var prev := ScanText(s[..|s| - 1]);
      var c := s[|s| - 1];
      assert forall i :: 0 <= i < |s| - 1 ==> s[..|s| - 1][i] == s[i];
      Scan(prev.allowed && (IsAsciiLetter(c) || IsAsciiDigit(c)),
           prev.letter || IsAsciiLetter(c),
           prev.digit || IsAsciiDigit(c))
  }

  /**
   * A password is accepted exactly when it has at least eight characters,
   * all ASCII letters or digits, with at least one letter and one digit.
   */
  function ValidatePassword(password: string): (ok: bool)
    ensures ok <==>
      && |password| >= 8
      && (forall i :: 0 <= i < |password| ==> IsAsciiLetter(password[i]) || IsAsciiDigit(password[i]))
      && (exists i :: 0 <= i < |password| && IsAsciiLetter(password[i]))
      && (exists i :: 0 <= i < |password| && IsAsciiDigit(password[i]))
  {
    var scan := ScanText(password);
    |password| >= 8 && scan.allowed && scan.letter && scan.digit
  }

  /** Eight letters are refused for want of a digit; an accented letter is refused outright. */
  lemma PasswordExamples()
    ensures !ValidatePassword("abcdefgh")
    ensures ValidatePassword("abcdefg1")
    ensures !ValidatePassword("abcdéfg1")
    ensures !ValidatePassword("abc1234")
  {
    assert IsAsciiLetter("abcdefg1"[0]) && IsAsciiDigit("abcdefg1"[7]);
    assert !IsAsciiLetter("abcdéfg1"[4]) && !IsAsciiDigit("abcdéfg1"[4]);
  }
}
