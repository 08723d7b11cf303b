/** Text helpers shared by the formatters. C++ `std::string` and `char[]`
    hold bytes, so a model string is a sequence of byte-valued chars: the
    UTF-8 source literal "°" is the two bytes 0xC2 0xB0. */
module Text {

  /** The two bytes of "°" as they sit in the compiled string literals. */
  const Degree: string := "\U{C2}\U{B0}"

  predicate IsDigit(c: char) {
    '0' <= c <= '9'
  }

  function DigitChar(d: int): (c: char)
    requires 0 <= d < 10
    ensures IsDigit(c) && c as int - '0' as int == d
  {
    ('0' as int + d) as char
  }

  /** Decimal digits of `n`, without leading zeros (`std::to_string` of a non-negative value). */
  function NatToString(n: nat): (s: string)
    decreases n
  {
    if n < 10 then [DigitChar(n)] else NatToString(n / 10) + [DigitChar(n % 10)]
  }

  /** `std::to_string(int)`: a minus sign before the digits of the magnitude. */
  function IntToString(i: int): string {
    if i < 0 then "-" + NatToString(-i) else NatToString(i)
  }

  /** `c - '0'`: the digit a character stands for (any other character gives
      a value outside 0..9). */
  function DigitValue(c: char): int {
    c as int - '0' as int
  }

  predicate IsDigits(s: string) {
    forall k :: 0 <= k < |s| ==> IsDigit(s[k])
  }

  /** Value of a string of decimal digits, most significant first, accumulated
      as `v = v * 10 + (c - '0')`. */
  function DecimalValue(s: string): int
    decreases |s|
  {
    if s == [] then 0 else DecimalValue(s[..|s| - 1]) * 10 + DigitValue(s[|s| - 1])
  }

  /** Two digits read back: tens times ten plus units, which for digits is 0..99. */
  lemma TwoDigitValue(s: string)
    requires |s| == 2
    ensures DecimalValue(s) == DigitValue(s[0]) * 10 + DigitValue(s[1])
    ensures IsDigits(s) ==> 0 <= DecimalValue(s) <= 99
  {
    assert s[..1][..0] == [];
    assert DecimalValue(s[..1]) == DigitValue(s[0]);
  }

  /** Number of decimal digits `std::to_string` prints for `n`. */
  function DigitCount(n: nat): (k: nat)
    ensures k >= 1
  {
    if n < 10 then 1 else 1 + DigitCount(n / 10)
  }

  /** `std::to_string` of a natural number prints only digits, its first digit is
      not a superfluous zero, there are `DigitCount(n)` of them, and reading the
      digits back yields `n`. */
  lemma {:induction false} NatToStringRoundTrip(n: nat)
    ensures |NatToString(n)| == DigitCount(n)
    ensures forall k :: 0 <= k < |NatToString(n)| ==> IsDigit(NatToString(n)[k])
    ensures n >= 10 ==> NatToString(n)[0] != '0'
    ensures DecimalValue(NatToString(n)) == n
  {
    if n >= 10 {
      NatToStringRoundTrip(n / 10);
      var s := NatToString(n / 10) + [DigitChar(n % 10)];
      assert s[..|s| - 1] == NatToString(n / 10);
      assert NatToString(n)[0] == NatToString(n / 10)[0];
    }
  }

  lemma {:induction false} DigitCountBounds(n: nat)
    ensures DigitCount(n) == 1 <==> n < 10
    ensures DigitCount(n) == 2 <==> 10 <= n < 100
    ensures DigitCount(n) == 3 <==> 100 <= n < 1000
    ensures DigitCount(n) == 4 <==> 1000 <= n < 10000
    ensures DigitCount(n) >= 4 <==> n >= 1000
  {
    if n >= 10 {
      DigitCountBounds(n / 10);
    }
  }

  /** Length of `std::to_string(i)`: the digits plus a sign for negative values. */
  lemma IntToStringLength(i: int)
    ensures i >= 0 ==> |IntToString(i)| == DigitCount(i)
    ensures i < 0 ==> |IntToString(i)| == 1 + DigitCount(-i)
  {
    if i < 0 {
      NatToStringRoundTrip(-i);
    } else {
      NatToStringRoundTrip(i);
    }
  }

  /** `std::to_string` of one- and two-digit values. */
  lemma SmallNatToString(n: nat)
    requires n < 100
    ensures n < 10 ==> NatToString(n) == [DigitChar(n)]
    ensures n >= 10 ==> NatToString(n) == [DigitChar(n / 10), DigitChar(n % 10)]
  {
  }

  /** `printf` right-justification: `fill` characters before `s` up to `width`. */
  function PadLeft(s: string, width: nat, fill: char): (r: string)
    ensures |r| == if |s| >= width then |s| else width
  {
    if |s| >= width then s else seq(width - |s|, _ => fill) + s
  }

  /** The padded string ends with `s`, and everything before it is `fill`. */
  lemma PadLeftShape(s: string, width: nat, fill: char)
    ensures var r := PadLeft(s, width, fill);
            r[|r| - |s|..] == s && forall k :: 0 <= k < |r| - |s| ==> r[k] == fill
  {
  }

  /** `printf("%0<width>d", n)` for a non-negative value. */
  function ZeroPad(n: nat, width: nat): string {
    PadLeft(NatToString(n), width, '0')
  }

  lemma {:induction false} ZerosValue(z: string)
    requires forall k :: 0 <= k < |z| ==> z[k] == '0'
    ensures DecimalValue(z) == 0
    decreases |z|
  {
    if z != [] {
      ZerosValue(z[..|z| - 1]);
    }
  }

  /** Leading zeros do not change the value of a digit string. */
  lemma {:induction false} LeadingZeros(z: string, s: string)
    requires forall k :: 0 <= k < |z| ==> z[k] == '0'
    ensures DecimalValue(z + s) == DecimalValue(s)
    decreases |s|
  {
    if s == [] {
      assert z + s == z;
      ZerosValue(z);
    } else {
      assert (z + s)[..|z + s| - 1] == z + s[..|s| - 1];
      assert (z + s)[|z + s| - 1] == s[|s| - 1];
      LeadingZeros(z, s[..|s| - 1]);
    }
  }

  /** A zero-padded number has exactly `width` digits when it fits, and reads back to the number. */
  lemma ZeroPadReadsBack(n: nat, width: nat)
    requires DigitCount(n) <= width
    ensures |ZeroPad(n, width)| == width
    ensures IsDigits(ZeroPad(n, width))
    ensures DecimalValue(ZeroPad(n, width)) == n
  {
    NatToStringRoundTrip(n);
    var s := NatToString(n);
    var r := ZeroPad(n, width);
    var z := r[..|r| - |s|];
    assert r == z + s && forall k :: 0 <= k < |z| ==> z[k] == '0' by {
      PadLeftShape(s, width, '0');
    }
    LeadingZeros(z, s);
  }

  /** `snprintf` into a buffer of `size` bytes keeps at most `size - 1` of them. */
  function Truncate(s: string, size: nat): (r: string)
    requires size >= 1
    ensures |r| == if |s| <= size - 1 then |s| else size - 1
    ensures r == s[..|r|]
  {
    if |s| <= size - 1 then s else s[..size - 1]
  }
}
