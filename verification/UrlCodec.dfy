/** Percent-encoding over byte strings, in the sense of sections 2.1 and 2.3 of RFC 3986. */
module UrlCodec {
  import opened Bytes

  const PERCENT: Byte := 0x25
  const PLUS: Byte := 0x2B
  const MINUS: Byte := 0x2D
  const SPACE: Byte := 0x20

  predicate IsDecimal(c: Byte) {
    0x30 <= c <= 0x39
  }

  /** Letters, digits, '-', '_', '.' and '~' stand for themselves. */
  predicate IsUnreserved(c: Byte) {
    IsDecimal(c) || 0x41 <= c <= 0x5A || 0x61 <= c <= 0x7A || c == 0x2D || c == 0x5F || c == 0x2E || c == 0x7E
  }

  function HexDigit(n: nat): Byte
    requires n < 16
  {
    if n < 10 then 0x30 + n else 0x61 + (n - 10)
  }

  function EncodeByte(c: Byte): seq<Byte> {
    if IsUnreserved(c) then [c] else [PERCENT, HexDigit(c / 16), HexDigit(c % 16)]
  }

  function Encode(s: seq<Byte>): seq<Byte> {
    if s == [] then [] else EncodeByte(s[0]) + Encode(s[1..])
  }

  // ----- Decoding

  predicate IsHex(c: Byte) {
    IsDecimal(c) || 0x41 <= c <= 0x46 || 0x61 <= c <= 0x66
  }

  function HexValue(c: Byte): (n: nat)
    requires IsHex(c)
    ensures n < 16
  {
    if IsDecimal(c) then c - 0x30 else if c <= 0x46 then c - 0x41 + 10 else c - 0x61 + 10
  }

  predicate IsSpace(c: Byte) {
    c == SPACE || 0x09 <= c <= 0x0D
  }

  /**
    * What a hexadecimal stream reads from two characters, as a byte: leading space and a sign are accepted,
    * reading stops at the first other character, and nothing readable counts as 0. When there is nothing but
    * space, nothing is stored, and the variable keeps what it held (`stale`).
    */
  function ReadHex(a: Byte, b: Byte, stale: Byte): Byte {
    if IsSpace(a) && IsSpace(b) then stale
    else if IsHex(a) then
      if IsHex(b) then 16 * HexValue(a) + HexValue(b) else HexValue(a)
    else if !IsHex(b) then 0
    else if IsSpace(a) || a == PLUS then HexValue(b)
    else if a == MINUS then (256 - HexValue(b)) % 256
    else 0
  }

  /** The bytes that the uninitialised variable of an escape happens to hold, by the bytes left to decode. */
  type Stale = nat -> Byte

  function Decode(t: seq<Byte>, stale: Stale): seq<Byte> {
    if t == [] then []
    else if t[0] == PERCENT && |t| > 2 then [ReadHex(t[1], t[2], stale(|t|))] + Decode(t[3..], stale)
    else if t[0] == PLUS then [SPACE] + Decode(t[1..], stale)
    else [t[0]] + Decode(t[1..], stale)
  }

  // ----- The two loops

  method EncodeUrl(s: seq<Byte>) returns (escaped: seq<Byte>)
    ensures escaped == Encode(s)
    ensures forall stale: Stale :: Decode(escaped, stale) == s
  {
    escaped := [];
    for i := 0 to |s|
      invariant escaped + Encode(s[i..]) == Encode(s)
    {
      var c := s[i];
      assert s[i..][1..] == s[i + 1..];
      Associates(escaped, EncodeByte(c), Encode(s[i + 1..]));
      if IsUnreserved(c) {
        escaped := escaped + [c];
      } else {
        escaped := escaped + [PERCENT, HexDigit(c / 16), HexDigit(c % 16)];
      }
    }
    assert escaped == Encode(s);
    forall stale: Stale
      ensures Decode(escaped, stale) == s
    {
      DecodeUndoesEncode(s, stale);
    }
  }

  method DecodeUrl(t: seq<Byte>, stale: Stale) returns (decoded: seq<Byte>)
    ensures decoded == Decode(t, stale)
  {
    hide ReadHex;
    decoded := [];
    var i := 0;
    while i < |t|
      invariant 0 <= i <= |t|
      invariant decoded + Decode(t[i..], stale) == Decode(t, stale)
    {
      ghost var rest := t[i..];
      if t[i] == PERCENT && i + 2 < |t| {
        assert rest[3..] == t[i + 3..];
        Associates(decoded, [ReadHex(t[i + 1], t[i + 2], stale(|t| - i))], Decode(t[i + 3..], stale));
        decoded := decoded + [ReadHex(t[i + 1], t[i + 2], stale(|t| - i))];
        i := i + 2;
      } else if t[i] == PLUS {
        assert rest[1..] == t[i + 1..];
        Associates(decoded, [SPACE], Decode(t[i + 1..], stale));
        decoded := decoded + [SPACE];
      } else {
        assert rest[1..] == t[i + 1..];
        Associates(decoded, [t[i]], Decode(t[i + 1..], stale));
        decoded := decoded + [t[i]];
      }
      i := i + 1;
    }
  }

  lemma Associates(a: seq<Byte>, b: seq<Byte>, c: seq<Byte>)
    ensures (a + b) + c == a + (b + c)
  {
  }

  // ----- Round trips

  lemma ByteReadsBack(c: Byte, stale: Byte)
    ensures ReadHex(HexDigit(c / 16), HexDigit(c % 16), stale) == c
  {
  }

  /** Every byte string survives, '+' and space included. */
  lemma {:induction false} DecodeUndoesEncode(s: seq<Byte>, stale: Stale)
    ensures Decode(Encode(s), stale) == s
  {
    if s != [] {
      var c, rest := s[0], Encode(s[1..]);
      var t := Encode(s);
      DecodeUndoesEncode(s[1..], stale);
      if IsUnreserved(c) {
        assert t[1..] == rest;
      } else {
        ByteReadsBack(c, stale(|t|));
        assert t[3..] == rest;
      }
    }
  }

  lemma EncodeIsInjective(s: seq<Byte>, t: seq<Byte>)
    requires Encode(s) == Encode(t)
    ensures s == t
  {
    DecodeUndoesEncode(s, _ => 0);
    DecodeUndoesEncode(t, _ => 0);
  }

  predicate IsLowerHex(c: Byte) {
    IsDecimal(c) || 0x61 <= c <= 0x66
  }

  /** Unreserved bytes, and lower-case triplets of bytes that need one. */
  predicate IsEncoded(t: seq<Byte>) {
    t == []
    || (IsUnreserved(t[0]) && IsEncoded(t[1..]))
    || (&& t[0] == PERCENT && |t| > 2
        && IsLowerHex(t[1]) && IsLowerHex(t[2]) && !IsUnreserved(ReadHex(t[1], t[2], 0))
        && IsEncoded(t[3..]))
  }

  lemma {:induction false} EncodeEncodes(s: seq<Byte>)
    ensures IsEncoded(Encode(s))
  {
    if s != [] {
      var c, t := s[0], Encode(s);
      EncodeEncodes(s[1..]);
      if IsUnreserved(c) {
        assert t[1..] == Encode(s[1..]);
      } else {
        ByteReadsBack(c, 0);
        assert t[3..] == Encode(s[1..]);
      }
    }
  }

  lemma DigitsOfByte(a: Byte, b: Byte, stale: Byte)
    requires IsLowerHex(a) && IsLowerHex(b)
    ensures HexDigit(ReadHex(a, b, stale) / 16) == a && HexDigit(ReadHex(a, b, stale) % 16) == b
    ensures ReadHex(a, b, stale) == ReadHex(a, b, 0)
  {
  }

  lemma TripletFirst(t: seq<Byte>)
    requires |t| > 2
    ensures t == [t[0], t[1], t[2]] + t[3..]
  {
  }

  lemma {:induction false} EncodedComesBack(t: seq<Byte>, stale: Stale)
    requires IsEncoded(t)
    ensures Encode(Decode(t, stale)) == t
  {
    if t != [] {
      if IsUnreserved(t[0]) {
        EncodedComesBack(t[1..], stale);
        assert Decode(t, stale)[1..] == Decode(t[1..], stale);
        assert t == [t[0]] + t[1..];
      } else {
        EncodedComesBack(t[3..], stale);
        DigitsOfByte(t[1], t[2], stale(|t|));
        assert Decode(t, stale)[1..] == Decode(t[3..], stale);
        TripletFirst(t);
      }
    }
  }

  /** Encoding undoes decoding exactly on the strings that encoding produces. */
  lemma {:induction false} EncodeUndoesDecodeExactly(t: seq<Byte>, stale: Stale)
    ensures Encode(Decode(t, stale)) == t <==> IsEncoded(t)
  {
    if IsEncoded(t) {
      EncodedComesBack(t, stale);
    }
    EncodeEncodes(Decode(t, stale));
  }

  // ----- In terms of characters

  /** Letters, digits and the four marks of section 2.3 of RFC 3986. */
  predicate StandsForItself(c: char) {
    'A' <= c <= 'Z' || 'a' <= c <= 'z' || '0' <= c <= '9' || c == '-' || c == '_' || c == '.' || c == '~'
  }

  const LOWER_DIGITS: seq<char> := "0123456789abcdef"
  const UPPER_DIGITS: seq<char> := "0123456789ABCDEF"

  /** Encoding goes character by character. */
  lemma {:induction false} EncodeJoins(s: seq<Byte>, t: seq<Byte>)
    ensures Encode(s + t) == Encode(s) + Encode(t)
  {
    if s == [] {
      assert s + t == t;
    } else {
      hide EncodeByte;
      EncodeJoins(s[1..], t);
      assert (s + t)[0] == s[0] && (s + t)[1..] == s[1..] + t;
      Associates(EncodeByte(s[0]), Encode(s[1..]), Encode(t));
    }
  }

  /** One character is kept, or written as '%' and its two lower-case digits. */
  lemma CharacterEncodes(c: Byte)
    ensures StandsForItself(c as char) ==> Encode([c]) == [c]
    ensures !StandsForItself(c as char) ==>
              Encode([c]) == ['%' as int, LOWER_DIGITS[c / 16] as int, LOWER_DIGITS[c % 16] as int]
  {
    LowerDigit(c / 16);
    LowerDigit(c % 16);
    assert Encode([c]) == EncodeByte(c);
  }

  lemma LowerDigit(n: nat)
    requires n < 16
    ensures HexDigit(n) == LOWER_DIGITS[n] as int
  {
    assert LOWER_DIGITS == "0123456789abcdef";
  }

  /** Without escapes every '+' becomes a space and every other character stays, whatever it is. */
  lemma {:induction false} PlainDecodes(t: seq<Byte>, stale: Stale)
    requires '%' as int !in t
    ensures |Decode(t, stale)| == |t|
    ensures forall i :: 0 <= i < |t| ==> Decode(t, stale)[i] == if t[i] == '+' as int then ' ' as int else t[i]
  {
    if t != [] {
      PlainDecodes(t[1..], stale);
    }
  }

  /** The byte is a digit of value n, in either case. */
  predicate IsDigitOf(c: Byte, n: nat)
    requires n < 16
  {
    c == LOWER_DIGITS[n] as int || c == UPPER_DIGITS[n] as int
  }

  lemma EitherCaseReads(c: Byte, n: nat)
    requires n < 16 && IsDigitOf(c, n)
    ensures IsHex(c) && HexValue(c) == n && !IsSpace(c)
  {
    assert LOWER_DIGITS == "0123456789abcdef";
    assert UPPER_DIGITS == "0123456789ABCDEF";
  }

  /** An escape of two digits, in either case, decodes to its byte and decoding goes on behind it. */
  lemma EscapeDecodes(h: nat, l: nat, a: Byte, b: Byte, rest: seq<Byte>, stale: Stale)
    requires h < 16 && l < 16 && IsDigitOf(a, h) && IsDigitOf(b, l)
    ensures Decode(['%' as int, a, b] + rest, stale) == [16 * h + l] + Decode(rest, stale)
  {
    EitherCaseReads(a, h);
    EitherCaseReads(b, l);
    assert (['%' as int, a, b] + rest)[3..] == rest;
  }

  /** A '%' with fewer than two characters behind it stands for itself. */
  lemma CutEscapeDecodes(t: seq<Byte>, stale: Stale)
    requires |t| <= 1 && '%' as int !in t
    ensures Decode(['%' as int] + t, stale) == ['%' as int] + Decode(t, stale)
  {
    assert (['%' as int] + t)[1..] == t;
  }

  predicate IsBlank(c: Byte) {
    c == ' ' as int || 9 <= c <= 13
  }

  ghost predicate IsNoDigit(c: Byte) {
    forall n: nat :: n < 16 ==> !IsDigitOf(c, n)
  }

  lemma DigitOrNot(c: Byte)
    ensures IsNoDigit(c) ==> !IsHex(c)
  {
    if IsHex(c) {
      var n := HexValue(c);
      assert LOWER_DIGITS == "0123456789abcdef" && UPPER_DIGITS == "0123456789ABCDEF";
      assert IsDigitOf(c, n);
    }
  }

  /** One digit behind a blank or a sign: the number, or its negative as a byte. */
  lemma LastDigitReads(a: Byte, b: Byte, n: nat, stale: Byte)
    requires n < 16 && IsDigitOf(b, n) && IsNoDigit(a)
    ensures IsBlank(a) || a == '+' as int ==> ReadHex(a, b, stale) == n
    ensures a == '-' as int ==> ReadHex(a, b, stale) == if n == 0 then 0 else 256 - n
    ensures !IsBlank(a) && a != '+' as int && a != '-' as int ==> ReadHex(a, b, stale) == 0
  {
    EitherCaseReads(b, n);
    DigitOrNot(a);
  }

  /** One digit in front of anything else is the number; without a digit it is 0, or nothing is read from blanks. */
  lemma FirstDigitReads(a: Byte, b: Byte, stale: Byte)
    requires IsNoDigit(b)
    ensures forall n: nat :: n < 16 && IsDigitOf(a, n) ==> ReadHex(a, b, stale) == n
    ensures IsNoDigit(a) ==> ReadHex(a, b, stale) == if IsBlank(a) && IsBlank(b) then stale else 0
  {
    DigitOrNot(a);
    DigitOrNot(b);
    forall n: nat | n < 16 && IsDigitOf(a, n)
      ensures ReadHex(a, b, stale) == n
    {
      EitherCaseReads(a, n);
    }
  }
}
