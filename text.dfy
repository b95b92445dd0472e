/**
 * Text helpers shared by the model: decimal rendering of numbers (`toString`
 * and `padStart(2, '0')`), the `HH:MM` clock text, `join`/`split` on one
 * separator character, character replacement and substring search.
 */
module Text {
  import opened Wrappers

  predicate IsDigit(c: char) {
    '0' <= c <= '9'
  }

  predicate AllDigits(s: string) {
    forall i :: 0 <= i < |s| ==> IsDigit(s[i])
  }

  function DigitChar(d: nat): (c: char)
    requires d < 10
    ensures IsDigit(c) && c as int - '0' as int == d
  {
    ('0' as int + d) as char
  }

  /** The value of a string of decimal digits. */
  function DigitsValue(s: string): nat
    requires AllDigits(s)
  {
    if |s| == 0 then 0
    else DigitsValue(s[..|s| - 1]) * 10 + (s[|s| - 1] as int - '0' as int)
  }

  /** `n.toString()` for a non-negative integer. */
  function DecimalText(n: nat): string {
    if n < 10 then [DigitChar(n)] else DecimalText(n / 10) + [DigitChar(n % 10)]
  }

  /** One digit below ten, two below a hundred, all of them decimal digits. */
  lemma {:induction false} DecimalTextShape(n: nat)
    ensures var s := DecimalText(n);
      1 <= |s| && AllDigits(s) && (n < 10 <==> |s| == 1) && (10 <= n < 100 ==> |s| == 2)
  {
    if n >= 10 {
      DecimalTextShape(n / 10);
    }
  }

  /** Reading back what DecimalText wrote gives the number. */
  lemma {:induction false} DecimalTextRoundTrip(n: nat)
    ensures AllDigits(DecimalText(n)) && DigitsValue(DecimalText(n)) == n
  {
    DecimalTextShape(n);
    if n >= 10 {
      var s := DecimalText(n);
      assert s[..|s| - 1] == DecimalText(n / 10);
      DecimalTextRoundTrip(n / 10);
    }
  }

  /** `n.toString().padStart(2, '0')`. */
  function Pad2(n: nat): string {
    if n < 10 then "0" + DecimalText(n) else DecimalText(n)
  }

  lemma Pad2RoundTrip(n: nat)
    ensures AllDigits(Pad2(n)) && DigitsValue(Pad2(n)) == n
    ensures n < 100 ==> |Pad2(n)| == 2
  {
    DecimalTextShape(n);
    DecimalTextRoundTrip(n);
    if n < 10 {
      var s := Pad2(n);
      assert s[..1] == "0";
      assert s[..|s| - 1] == "0";
    }
  }

  /** The zero-padded clock text `HH:MM`. */
  function HourMinuteText(hour: nat, minute: nat): string {
    Pad2(hour) + ":" + Pad2(minute)
  }

  /** The clock text of a count of minutes after midnight: `HH = m div 60`, `MM = m mod 60`. */
  function MinutesText(m: nat): string {
    HourMinuteText(m / 60, m % 60)
  }

  /** Reads a five-character `HH:MM` text back into its hour and minute. */
  function ParseHourMinute(s: string): Option<(nat, nat)> {
    if |s| == 5 && AllDigits(s[..2]) && s[2] == ':' && AllDigits(s[3..]) then
      Some((DigitsValue(s[..2]), DigitsValue(s[3..])))
    else
      None
  }

  /** Two-digit clock texts read back to the hour and minute they were written from. */
  lemma HourMinuteRoundTrip(hour: nat, minute: nat)
    requires hour < 100 && minute < 100
    ensures ParseHourMinute(HourMinuteText(hour, minute)) == Some((hour, minute))
  {
    var s := HourMinuteText(hour, minute);
    Pad2RoundTrip(hour);
    Pad2RoundTrip(minute);
    assert s[..2] == Pad2(hour);
    assert s[3..] == Pad2(minute);
  }

  /** The texts of the first and last cell of the client's list. */
  lemma GridEndTexts()
    ensures HourMinuteText(7, 30) == "07:30" && HourMinuteText(22, 30) == "22:30"
  {
    assert Pad2(7) == "07";
    assert Pad2(30) == "30" by {
      assert DecimalText(3) == "3";
    }
    assert Pad2(22) == "22" by {
      assert DecimalText(2) == "2";
    }
  }

  /** Two-digit clock texts are equal only for equal clocks. */
  lemma HourMinuteInjective(h1: nat, m1: nat, h2: nat, m2: nat)
    requires h1 < 100 && m1 < 100 && h2 < 100 && m2 < 100
    requires HourMinuteText(h1, m1) == HourMinuteText(h2, m2)
    ensures h1 == h2 && m1 == m2
  {
    HourMinuteRoundTrip(h1, m1);
    HourMinuteRoundTrip(h2, m2);
  }

  /** `parts.join(sep)`. */
  function Join(sep: char, parts: seq<string>): string {
    if |parts| == 0 then ""
    else if |parts| == 1 then parts[0]
    else parts[0] + [sep] + Join(sep, parts[1..])
  }

  /** `s.split(sep)`: the pieces between separators, always at least one. */
  function Split(sep: char, s: string): (r: seq<string>)
    ensures |r| >= 1
  {
    if |s| == 0 then [""]
    else
      var rest := Split(sep, s[1..]);
      if s[0] == sep then [""] + rest else [[s[0]] + rest[0]] + rest[1..]
  }

  lemma {:induction false} SplitNoSeparator(sep: char, p: string, rest: string)
    requires sep !in p
    ensures Split(sep, p + [sep] + rest) == [p] + Split(sep, rest)
    ensures Split(sep, p) == [p]
  {
    if |p| > 0 {
      assert (p + [sep] + rest)[1..] == p[1..] + [sep] + rest;
      SplitNoSeparator(sep, p[1..], rest);
      assert [p[0]] + p[1..] == p;
    } else {
      assert p + [sep] + rest == [sep] + rest;
      assert ([sep] + rest)[1..] == rest;
    }
  }

  /** Splitting a joined list gives the list back when no part holds the separator. */
  lemma {:induction false} SplitJoin(sep: char, parts: seq<string>)
    requires |parts| >= 1
    requires forall i :: 0 <= i < |parts| ==> sep !in parts[i]
    ensures Split(sep, Join(sep, parts)) == parts
  {
    if |parts| == 1 {
      SplitNoSeparator(sep, parts[0], "");
    } else {
      SplitJoin(sep, parts[1..]);
      SplitNoSeparator(sep, parts[0], Join(sep, parts[1..]));
      assert [parts[0]] + parts[1..] == parts;
    }
  }

  /** A character in no part and other than the separator is not in the joined text. */
  lemma {:induction false} JoinAvoids(sep: char, parts: seq<string>, c: char)
    requires c != sep
    requires forall i :: 0 <= i < |parts| ==> c !in parts[i]
    ensures c !in Join(sep, parts)
  {
    if |parts| > 1 {
      JoinAvoids(sep, parts[1..], c);
    }
  }

  /** A first line, a line break and the joined rest split back into the first line and the rest. */
  lemma SplitHeadRest(sep: char, first: string, rest: seq<string>)
    requires |rest| >= 1
    requires sep !in first && forall i :: 0 <= i < |rest| ==> sep !in rest[i]
    ensures Split(sep, first + [sep] + Join(sep, rest)) == [first] + rest
  {
    var all := [first] + rest;
    assert all[0] == first && all[1..] == rest;
    SplitJoin(sep, all);
  }

  /** `s.replace(/from/g, to)`: every `from` becomes `to`, nothing else changes. */
  function ReplaceAll(s: string, from: char, to: char): (r: string)
    ensures |r| == |s|
    ensures forall i :: 0 <= i < |s| ==> r[i] == (if s[i] == from then to else s[i])
  {
    if |s| == 0 then [] else [if s[0] == from then to else s[0]] + ReplaceAll(s[1..], from, to)
  }

  predicate OccursAt(s: string, i: nat, sub: string) {
    i + |sub| <= |s| && s[i..i + |sub|] == sub
  }

  /** `s.includes(sub)`. */
  predicate Contains(s: string, sub: string) {
    exists i: nat :: i <= |s| && OccursAt(s, i, sub)
  }

  /** `s.indexOf(x)`: the first position of `x`, or -1. */
  function IndexOf<T(==)>(s: seq<T>, x: T): (r: int)
    ensures -1 <= r < |s|
    ensures r == -1 <==> x !in s
    ensures r >= 0 ==> s[r] == x && x !in s[..r]
  {
    if |s| == 0 then -1
    else if s[0] == x then 0
    else
      var k := IndexOf(s[1..], x);
      if k == -1 then -1
      else
        assert s[..k + 1] == [s[0]] + s[1..][..k];
        k + 1
  }
}
