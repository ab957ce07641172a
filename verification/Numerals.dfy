/** Number.toString and parseInt(text, 10), as far as the parsers use them. */
module Numerals {
  import opened Common

  function Digit(d: nat): (c: char)
    requires d < 16
    ensures if d < 10 then '0' <= c <= '9' else 'a' <= c <= 'f'
  {
    if d < 10 then '0' + d as char else 'a' + (d - 10) as char
  }

  function DigitValue(c: char): (d: nat)
    ensures d < 16
  {
    if '0' <= c <= '9' then (c - '0') as nat
    else if 'a' <= c <= 'f' then 10 + (c - 'a') as nat
    else if 'A' <= c <= 'F' then 10 + (c - 'A') as nat
    else 0
  }

  predicate IsHexDigit(c: char) {
    '0' <= c <= '9' || 'a' <= c <= 'f' || 'A' <= c <= 'F'
  }

  function Decimal(n: nat): (s: string)
    ensures s != []
  {
    if n < 10 then [Digit(n)] else Decimal(n / 10) + [Digit(n % 10)]
  }

  function DecimalValue(s: string): nat {
    if s == [] then 0 else DecimalValue(s[..|s| - 1]) * 10 + DigitValue(s[|s| - 1])
  }

  function Hex(n: nat): (s: string)
    ensures s != []
  {
    if n < 16 then [Digit(n)] else Hex(n / 16) + [Digit(n % 16)]
  }

  function HexValue(s: string): nat {
    if s == [] then 0 else HexValue(s[..|s| - 1]) * 16 + DigitValue(s[|s| - 1])
  }

  predicate IsDecimal(s: string) {
    forall i :: 0 <= i < |s| ==> '0' <= s[i] <= '9'
  }

  predicate IsHex(s: string) {
    forall i :: 0 <= i < |s| ==> '0' <= s[i] <= '9' || 'a' <= s[i] <= 'f'
  }

  lemma {:induction false} DecimalRoundTrip(n: nat)
    ensures IsDecimal(Decimal(n)) && DecimalValue(Decimal(n)) == n
  {
    if n >= 10 {
      DecimalRoundTrip(n / 10);
      assert Decimal(n)[..|Decimal(n)| - 1] == Decimal(n / 10);
    } else {
      assert DecimalValue([]) == 0 && [Digit(n)][..0] == [];
    }
  }

  lemma {:induction false} HexRoundTrip(n: nat)
    ensures IsHex(Hex(n)) && HexValue(Hex(n)) == n
  {
    if n >= 16 {
      HexRoundTrip(n / 16);
      assert Hex(n)[..|Hex(n)| - 1] == Hex(n / 16);
    } else {
      assert HexValue([]) == 0 && [Digit(n)][..0] == [];
    }
  }

  lemma DecimalLength(n: nat)
    ensures |Decimal(n)| == if n < 10 then 1 else |Decimal(n / 10)| + 1
  {
  }

  /** A 16-bit port takes at most five digits. */
  lemma PortDigits(n: nat)
    requires n <= 65535
    ensures |Decimal(n)| <= 5
  {
    DecimalLength(n);
    DecimalLength(n / 10);
    DecimalLength(n / 10 / 10);
    DecimalLength(n / 10 / 10 / 10);
    DecimalLength(n / 10 / 10 / 10 / 10);
  }

  // --- parseInt(text, 10): leading white space, a sign, then as many digits as there are ---

  predicate IsSpace(c: char) {
    c == ' ' || ('\t' <= c <= '\r')
  }

  function TrimStart(s: string): string {
    if s != [] && IsSpace(s[0]) then TrimStart(s[1..]) else s
  }

  function DigitRun(s: string): (r: string)
    ensures IsDecimal(r)
  {
    if s != [] && '0' <= s[0] <= '9' then [s[0]] + DigitRun(s[1..]) else []
  }

  function ParseInt(s: string): Option<int> {
    var t := TrimStart(s);
    var negative := t != [] && t[0] == '-';
    var run := DigitRun(if t != [] && (t[0] == '-' || t[0] == '+') then t[1..] else t);
    if run == [] then None else Some(if negative then -(DecimalValue(run) as int) else DecimalValue(run))
  }

  lemma {:induction false} RunOfDecimal(s: string)
    requires IsDecimal(s)
    ensures DigitRun(s) == s
  {
    if s != [] {
      RunOfDecimal(s[1..]);
    }
  }

  lemma ParseIntOfDecimal(n: nat)
    ensures ParseInt(Decimal(n)) == Some(n)
  {
    DecimalRoundTrip(n);
    ParseIntOfDigits(Decimal(n));
  }

  lemma ParseIntOfDigits(s: string)
    requires s != [] && IsDecimal(s)
    ensures ParseInt(s) == Some(DecimalValue(s))
  {
    assert '0' <= s[0] <= '9';
    assert TrimStart(s) == s;
    RunOfDecimal(s);
  }
}
