/** The handful of Python text conversions the server relies on: `str()` and
    `int()` of integers, `format(n, 'x')`, zero padding as done by `"{:02x}"`
    and `strftime('%H')`, and `str.upper()` on ASCII. */
module PyText {

  predicate IsDigit(c: char) {
    '0' <= c <= '9'
  }

  predicate IsDigits(s: string) {
    forall i :: 0 <= i < |s| ==> IsDigit(s[i])
  }

  /** The numeric value of a decimal digit character. */
  function DigitValue(c: char): int {
    c as int - '0' as int
  }

  /** The character of decimal digit `d`. */
  function DigitChar(d: nat): (c: char)
    requires d < 10
    ensures IsDigit(c) && DigitValue(c) == d
  {
    ('0' as int + d) as char
  }

  /** `str(n)` for a non-negative int: decimal digits, most significant
      first, with no leading zero. */
  function NatDecimal(n: nat): (s: string)
    ensures 1 <= |s| && IsDigits(s)
    ensures s[0] == '0' ==> n == 0
    decreases n
  {
    if n < 10 then [DigitChar(n)] else NatDecimal(n / 10) + [DigitChar(n % 10)]
  }

  /** `int(s)` for a string of decimal digits. */
  function ParseNat(s: string): nat
    requires IsDigits(s)
    decreases |s|
  {
    if |s| == 0 then 0 else 10 * ParseNat(s[..|s| - 1]) + DigitValue(s[|s| - 1])
  }

  lemma {:induction false} NatDecimalRoundTrip(n: nat)
    ensures ParseNat(NatDecimal(n)) == n
    decreases n
  {
    if n >= 10 {
      var s := NatDecimal(n);
      assert s[..|s| - 1] == NatDecimal(n / 10);
      NatDecimalRoundTrip(n / 10);
    }
  }

  /** `str(n)` for any int: a minus sign before the digits of a negative value. */
  function Decimal(n: int): (s: string)
    ensures 1 <= |s|
  {
    if n < 0 then "-" + NatDecimal(-n) else NatDecimal(n)
  }

  /** The strings `int()` accepts in the form `str()` produces them. */
  predicate IsDecimal(s: string) {
    || (1 <= |s| && IsDigits(s))
    || (2 <= |s| && s[0] == '-' && IsDigits(s[1..]))
  }

  /** `int(s)` for an optionally signed decimal string. */
  function ParseInt(s: string): int
    requires IsDecimal(s)
  {
    if s[0] == '-' then -(ParseNat(s[1..]) as int) else ParseNat(s)
  }

  /** `int(str(n)) == n`: the decimal form of an int reads back as that int. */
  lemma DecimalRoundTrip(n: int)
    ensures IsDecimal(Decimal(n)) && ParseInt(Decimal(n)) == n
  {
    if n < 0 {
      assert Decimal(n)[1..] == NatDecimal(-n);
      NatDecimalRoundTrip(-n);
    } else {
      NatDecimalRoundTrip(n);
    }
  }

  /** `s` left-padded with `fill` to at least `width` characters. */
  function PadLeft(s: string, width: nat, fill: char): (r: string)
    ensures |r| == if |s| >= width then |s| else width
    ensures r[|r| - |s|..] == s
    ensures forall i :: 0 <= i < |r| - |s| ==> r[i] == fill
  {
    if |s| >= width then s else seq(width - |s|, _ => fill) + s
  }

  /** `strftime('%H')` / `strftime('%M')`: a clock field as two digits,
      zero-padded. */
  function TwoDigits(n: nat): (s: string)
    requires n < 100
    ensures |s| == 2 && IsDigits(s)
  {
    [DigitChar(n / 10), DigitChar(n % 10)]
  }

  /** The two digits read back as the clock field. */
  lemma TwoDigitsRoundTrip(n: nat)
    requires n < 100
    ensures ParseNat(TwoDigits(n)) == n
  {
    var s := TwoDigits(n);
    var hi := [DigitChar(n / 10)];
    assert s[..|s| - 1] == hi;
    assert hi[..|hi| - 1] == [];
    assert ParseNat(hi) == n / 10;
  }

  predicate IsUpperHexDigit(c: char) {
    '0' <= c <= '9' || 'A' <= c <= 'F'
  }

  /** The value of an upper-case hexadecimal digit. */
  function HexDigitValue(c: char): int {
    if '0' <= c <= '9' then c as int - '0' as int else c as int - 'A' as int + 10
  }

  /** The lower-case hexadecimal digit of `d`, as `format(d, 'x')` writes it. */
  function LowerHexDigit(d: nat): char
    requires d < 16
  {
    if d < 10 then DigitChar(d) else ('a' as int + d - 10) as char
  }

  /** `format(n, 'x')`: lower-case hexadecimal digits with no leading zero. */
  function LowerHex(n: nat): (s: string)
    ensures 1 <= |s|
    decreases n
  {
    if n < 16 then [LowerHexDigit(n)] else LowerHex(n / 16) + [LowerHexDigit(n % 16)]
  }

  /** `str.upper()` restricted to the ASCII letters. */
  function UpperChar(c: char): char {
    if 'a' <= c <= 'z' then (c as int - 32) as char else c
  }

  function Upper(s: string): (r: string)
    ensures |r| == |s|
    ensures forall i :: 0 <= i < |s| ==> r[i] == UpperChar(s[i])
  {
    seq(|s|, i requires 0 <= i < |s| => UpperChar(s[i]))
  }

  /** `"{:02x}".format(n).upper()`: the wire form of the directive checksum. */
  function HexByte(n: nat): string {
    Upper(PadLeft(LowerHex(n), 2, '0'))
  }

  lemma UpperLowerHexDigit(d: nat)
    requires d < 16
    ensures IsUpperHexDigit(UpperChar(LowerHexDigit(d)))
    ensures HexDigitValue(UpperChar(LowerHexDigit(d))) == d
  {
  }

  /** Every byte is written as exactly two upper-case hexadecimal digits, most
      significant first, so the checksum text reads back as the byte. */
  lemma HexByteShape(n: nat)
    requires n < 256
    ensures |HexByte(n)| == 2
    ensures IsUpperHexDigit(HexByte(n)[0]) && IsUpperHexDigit(HexByte(n)[1])
    ensures 16 * HexDigitValue(HexByte(n)[0]) + HexDigitValue(HexByte(n)[1]) == n
  {
    UpperLowerHexDigit(n / 16);
    UpperLowerHexDigit(n % 16);
    if n < 16 {
      assert PadLeft(LowerHex(n), 2, '0') == [LowerHexDigit(0), LowerHexDigit(n)];
    } else {
      assert LowerHex(n / 16) == [LowerHexDigit(n / 16)];
      assert PadLeft(LowerHex(n), 2, '0') == [LowerHexDigit(n / 16), LowerHexDigit(n % 16)];
    }
  }
}
