/** Decimal numerals: how integers are printed, and how the C library scans them. */
module Decimals {
  import opened Options

  predicate IsDigit(c: char) {
    '0' <= c <= '9'
  }

  predicate IsSpace(c: char) {
    c == ' ' || '\t' <= c <= '\r'
  }

  function DigitValue(c: char): nat
    requires IsDigit(c)
  {
    c as int - '0' as int
  }

  function DigitChar(d: nat): (c: char)
    requires d < 10
    ensures IsDigit(c) && DigitValue(c) == d
  {
    ('0' as int + d) as char
  }

  /** The decimal digits of a number, without leading zeros. */
  function Digits(n: nat): (s: string)
    ensures |s| > 0 && forall i :: 0 <= i < |s| ==> IsDigit(s[i])
  {
    if n < 10 then [DigitChar(n)] else Digits(n / 10) + [DigitChar(n % 10)]
  }

  function Numeral(i: int): string {
    if i < 0 then "-" + Digits(-i) else Digits(i)
  }

  /** The length of the longest run of digits at the front. */
  function DigitRun(s: string): (n: nat)
    ensures n <= |s| && (forall i :: 0 <= i < n ==> IsDigit(s[i])) && (n < |s| ==> !IsDigit(s[n]))
  {
    if s == [] || !IsDigit(s[0]) then 0 else 1 + DigitRun(s[1..])
  }

  function DigitsValue(s: string): nat
    requires forall i :: 0 <= i < |s| ==> IsDigit(s[i])
  {
    if s == [] then 0 else 10 * DigitsValue(s[..|s| - 1]) + DigitValue(s[|s| - 1])
  }

  function SkipSpace(s: string): string {
    if s != [] && IsSpace(s[0]) then SkipSpace(s[1..]) else s
  }

  /** At least one digit: the number and what follows it. */
  function ScanDigits(s: string, negative: bool): Option<(int, string)> {
    var run := DigitRun(s);
    if run == 0 then None
    else
      var value: int := DigitsValue(s[..run]);
      Some((if negative then -value else value, s[run..]))
  }

  /** A number with an optional sign. */
  function ScanSigned(s: string): Option<(int, string)> {
    if s != [] && (s[0] == '-' || s[0] == '+') then ScanDigits(s[1..], s[0] == '-') else ScanDigits(s, false)
  }

  /** What %d and std::stoll read: white space, then a signed numeral. */
  function ScanInt(s: string): Option<(int, string)> {
    ScanSigned(SkipSpace(s))
  }

  lemma {:induction false} DigitsReadBack(n: nat)
    ensures DigitsValue(Digits(n)) == n
  {
    if n >= 10 {
      DigitsReadBack(n / 10);
      assert Digits(n)[..|Digits(n)| - 1] == Digits(n / 10);
    }
  }

  lemma RunStopsAt(s: string, rest: string)
    requires forall i :: 0 <= i < |s| ==> IsDigit(s[i])
    requires rest == [] || !IsDigit(rest[0])
    ensures DigitRun(s + rest) == |s|
  {
    var t := s + rest;
    assert forall i :: 0 <= i < |s| ==> t[i] == s[i];
    assert rest != [] ==> t[|s|] == rest[0];
  }

  lemma BodyScans(n: nat, rest: string)
    requires rest == [] || !IsDigit(rest[0])
    ensures var body := Digits(n) + rest;
            DigitRun(body) == |Digits(n)| && body[..DigitRun(body)] == Digits(n) && body[DigitRun(body)..] == rest
    ensures DigitsValue(Digits(n)) == n
  {
    RunStopsAt(Digits(n), rest);
    DigitsReadBack(n);
  }

  lemma DigitsScan(n: nat, rest: string, negative: bool)
    requires rest == [] || !IsDigit(rest[0])
    ensures ScanDigits(Digits(n) + rest, negative) == Some((if negative then -(n as int) else n, rest))
  {
    BodyScans(n, rest);
    hide DigitRun, DigitsValue;
  }

  lemma SignThenScans(sign: char, body: string)
    requires sign == '-' || sign == '+'
    ensures ScanSigned([sign] + body) == ScanDigits(body, sign == '-')
  {
    hide ScanDigits;
    assert ([sign] + body)[1..] == body;
  }

  lemma SignedScans(n: nat, rest: string)
    requires rest == [] || !IsDigit(rest[0])
    ensures ScanSigned(Digits(n) + rest) == Some((n, rest))
    ensures ScanSigned("-" + Digits(n) + rest) == Some((-(n as int), rest))
    ensures ScanSigned("+" + Digits(n) + rest) == Some((n, rest))
  {
    DigitsScan(n, rest, false);
    DigitsScan(n, rest, true);
    var s := Digits(n);
    assert IsDigit(s[0]);
    hide Digits, ScanDigits;
    assert (s + rest)[0] == s[0];
    assert ScanSigned(s + rest) == ScanDigits(s + rest, false);
    hide ScanSigned;
    SignThenScans('-', s + rest);
    SignThenScans('+', s + rest);
    assert "-" + s + rest == ['-'] + (s + rest);
    assert "+" + s + rest == ['+'] + (s + rest);
  }

  lemma NothingToSkip(s: string)
    requires s != [] && !IsSpace(s[0])
    ensures ScanInt(s) == ScanSigned(s)
  {
    hide ScanSigned;
  }

  /** A printed integer, followed by anything but a digit, is scanned back. */
  lemma NumeralScansBack(i: int, rest: string)
    requires rest == [] || !IsDigit(rest[0])
    ensures ScanInt(Numeral(i) + rest) == Some((i, rest))
  {
    var n: nat := if i < 0 then -i else i;
    var s := Digits(n);
    SignedScans(n, rest);
    assert IsDigit(s[0]);
    assert Numeral(i) == if i < 0 then "-" + s else s;
    hide ScanSigned, ScanInt, Digits, Numeral;
    if i < 0 {
      assert ("-" + s + rest)[0] == '-';
      NothingToSkip("-" + s + rest);
    } else {
      assert (s + rest)[0] == s[0];
      NothingToSkip(s + rest);
    }
  }

  /** A space, or one of the characters 9 to 13. */
  predicate IsSkipped(c: char) {
    c as int == 32 || 9 <= c as int <= 13
  }

  lemma {:induction false} SpaceIsSkipped(front: string, s: string)
    requires (forall i :: 0 <= i < |front| ==> IsSkipped(front[i])) && (s != [] ==> !IsSkipped(s[0]))
    ensures SkipSpace(front + s) == s
  {
    if front == [] {
      assert front + s == s;
    } else {
      assert IsSkipped(front[0]) && (front + s)[0] == front[0] && (front + s)[1..] == front[1..] + s;
      SpaceIsSkipped(front[1..], s);
    }
  }

  lemma SpaceThenScans(front: string, s: string)
    requires (forall i :: 0 <= i < |front| ==> IsSkipped(front[i])) && s != [] && !IsSkipped(s[0])
    ensures ScanInt(front + s) == ScanSigned(s)
  {
    hide ScanSigned;
    SpaceIsSkipped(front, s);
  }

  /** White space in front of a number and a plus sign do not matter. */
  lemma SpaceAndPlusAreSkipped(front: string, n: nat, rest: string)
    requires (forall i :: 0 <= i < |front| ==> IsSkipped(front[i])) && (rest == [] || !IsDigit(rest[0]))
    ensures ScanInt(front + (Digits(n) + rest)) == Some((n, rest))
    ensures ScanInt(front + ("-" + Digits(n) + rest)) == Some((-(n as int), rest))
    ensures ScanInt(front + ("+" + Digits(n) + rest)) == Some((n, rest))
  {
    SignedScans(n, rest);
    var s := Digits(n);
    assert IsDigit(s[0]);
    hide Digits, ScanSigned, ScanInt;
    assert ("-" + s + rest)[0] == '-' && ("+" + s + rest)[0] == '+' && (s + rest)[0] == s[0];
    SpaceThenScans(front, s + rest);
    SpaceThenScans(front, "-" + s + rest);
    SpaceThenScans(front, "+" + s + rest);
  }

  /** Behind white space and a sign there must be a digit. */
  lemma NothingIsScanned(front: string, sign: string, rest: string)
    requires forall i :: 0 <= i < |front| ==> IsSkipped(front[i])
    requires sign == "" || sign == "-" || sign == "+"
    requires rest != [] ==> !IsDigit(rest[0])
    requires sign == "" && rest != [] ==> !IsSkipped(rest[0]) && rest[0] != '-' && rest[0] != '+'
    ensures ScanInt(front + (sign + rest)) == None
  {
    var body := sign + rest;
    if sign == "" {
      assert body == rest;
    } else {
      assert body[0] == sign[0] && body[1..] == rest;
    }
    SpaceIsSkipped(front, body);
  }
}
