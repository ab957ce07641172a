/** Which texts are read as which numbers, and so which printed parameters an endpoint accepts. */
module NumberTexts {
  import opened Common
  import opened JsStrings
  import opened Numerals
  import opened ChainableEndpoints

  // --- Printing ---

  lemma DecimalIs(n: nat, d: nat)
    requires d < 10
    ensures Decimal(d) == ["0123456789"[d]] && (n > 0 ==> Decimal(10 * n + d) == Decimal(n) + ["0123456789"[d]])
  {
    DigitIs(d);
    assert (10 * n + d) / 10 == n && (10 * n + d) % 10 == d;
  }

  lemma HexIs(n: nat, d: nat)
    requires d < 16
    ensures Hex(d) == ["0123456789abcdef"[d]] && (n > 0 ==> Hex(16 * n + d) == Hex(n) + ["0123456789abcdef"[d]])
  {
    DigitIs(d);
    assert (16 * n + d) / 16 == n && (16 * n + d) % 16 == d;
  }

  lemma DigitIs(d: nat)
    requires d < 16
    ensures Digit(d) == "0123456789abcdef"[d] && (d < 10 ==> Digit(d) == "0123456789"[d])
  {
  }

  // --- Integers ---

  /** White space, a sign or none, digits, and then nothing that goes on with a digit. */
  datatype Numeral = Numeral(space: string, sign: string, digits: string, rest: string)
  {
    predicate Valid() {
      && AllSpace(space) && sign in {"", "+", "-"}
      && digits != "" && IsDecimal(digits) && (rest != "" ==> !('0' <= rest[0] <= '9'))
    }

    function Text(): string {
      space + (sign + (digits + rest))
    }

    function Value(): int {
      if sign == "-" then -(DecimalValue(digits) as int) else DecimalValue(digits)
    }
  }

  predicate AllSpace(s: string) {
    forall i :: 0 <= i < |s| ==> s[i] == ' ' || '\t' <= s[i] <= '\r'
  }

  lemma {:induction false} TrimSplits(s: string) returns (space: string)
    ensures s == space + TrimStart(s) && AllSpace(space)
    ensures TrimStart(s) != "" ==> !IsSpace(TrimStart(s)[0])
  {
    if s != "" && IsSpace(s[0]) {
      var more := TrimSplits(s[1..]);
      space := [s[0]] + more;
      Assoc([s[0]], more, TrimStart(s));
      assert s == [s[0]] + s[1..];
    } else {
      space := "";
    }
  }

  lemma {:induction false} TrimOf(space: string, s: string)
    requires AllSpace(space) && (s != "" ==> !IsSpace(s[0]))
    ensures TrimStart(space + s) == s
  {
    if space == "" {
      assert space + s == s;
    } else {
      assert (space + s)[0] == space[0] && (space + s)[1..] == space[1..] + s;
      TrimOf(space[1..], s);
    }
  }

  lemma {:induction false} RunSplits(s: string) returns (rest: string)
    ensures s == DigitRun(s) + rest && (rest != "" ==> !('0' <= rest[0] <= '9'))
  {
    if s != "" && '0' <= s[0] <= '9' {
      rest := RunSplits(s[1..]);
      Assoc([s[0]], DigitRun(s[1..]), rest);
      assert s == [s[0]] + s[1..];
    } else {
      rest := s;
    }
  }

  lemma {:induction false} RunOf(digits: string, rest: string)
    requires IsDecimal(digits) && (rest != "" ==> !('0' <= rest[0] <= '9'))
    ensures DigitRun(digits + rest) == digits
  {
    if digits == "" {
      assert digits + rest == rest;
    } else {
      assert (digits + rest)[0] == digits[0] && (digits + rest)[1..] == digits[1..] + rest;
      RunOf(digits[1..], rest);
      assert digits == [digits[0]] + digits[1..];
    }
  }

  /** A text reads as n exactly when it is a numeral of value n. */
  ghost predicate ReadsAs(s: string, n: int) {
    exists numeral: Numeral :: numeral.Valid() && s == numeral.Text() && n == numeral.Value()
  }

  lemma SignSplits(t: string) returns (sign: string, unsigned: string)
    ensures t == sign + unsigned && sign in {"", "+", "-"}
    ensures unsigned == if t != "" && (t[0] == '-' || t[0] == '+') then t[1..] else t
    ensures sign == "-" <==> t != "" && t[0] == '-'
    ensures sign == "" <==> !(t != "" && (t[0] == '-' || t[0] == '+'))
  {
    if t != "" && (t[0] == '-' || t[0] == '+') {
      sign, unsigned := t[..1], t[1..];
      assert t[..1] == [t[0]];
    } else {
      sign, unsigned := "", t;
    }
  }

  lemma SignOf(sign: string, unsigned: string)
    requires sign in {"", "+", "-"} && unsigned != "" && unsigned[0] != '-' && unsigned[0] != '+'
    requires !IsSpace(unsigned[0])
    ensures var t := sign + unsigned;
      && t != "" && !IsSpace(t[0]) && (t[0] == '-' <==> sign == "-")
      && unsigned == if t[0] == '-' || t[0] == '+' then t[1..] else t
  {
    if sign == "" {
      assert sign + unsigned == unsigned;
    } else {
      assert (sign + unsigned)[1..] == unsigned;
    }
  }

  lemma NumeralParses(numeral: Numeral)
    requires numeral.Valid()
    ensures ParseInt(numeral.Text()) == Some(numeral.Value())
  {
    var Numeral(space, sign, digits, rest) := numeral;
    var unsigned := digits + rest;
    assert unsigned[0] == digits[0];
    SignOf(sign, unsigned);
    TrimOf(space, sign + unsigned);
    RunOf(digits, rest);
  }

  lemma ParseIntExactly(s: string, n: int)
    ensures ParseInt(s) == Some(n) <==> ReadsAs(s, n)
  {
    if ParseInt(s) == Some(n) {
      var space := TrimSplits(s);
      var sign, unsigned := SignSplits(TrimStart(s));
      var rest := RunSplits(unsigned);
      var numeral := Numeral(space, sign, DigitRun(unsigned), rest);
      assert numeral.Valid() && s == numeral.Text() && n == numeral.Value();
    }
    if numeral: Numeral :| numeral.Valid() && s == numeral.Text() && n == numeral.Value() {
      NumeralParses(numeral);
    }
  }

  // --- Numbers ---

  /** Digits, digits behind a point, or Infinity. */
  predicate IsNumber(number: string) {
    || number == "Infinity"
    || (number != "" && IsDecimal(number))
    || (|number| > 1 && number[0] == '.' && IsDecimal(number[1..]))
  }

  /** White space, a sign or none, a number, and then anything. */
  predicate IsNumberIn(s: string, space: string, sign: string, number: string, rest: string) {
    AllSpace(space) && sign in {"", "+", "-"} && IsNumber(number) && s == space + (sign + (number + rest))
  }

  ghost predicate StartsWithNumber(s: string) {
    exists space, sign, number, rest :: IsNumberIn(s, space, sign, number, rest)
  }

  predicate UnsignedParses(u: string) {
    || (u != "" && '0' <= u[0] <= '9')
    || (|u| > 1 && u[0] == '.' && '0' <= u[1] <= '9')
    || StartsWith(u, "Infinity")
  }

  lemma NumberLeads(u: string) returns (number: string, rest: string)
    requires UnsignedParses(u)
    ensures IsNumber(number) && u == number + rest
  {
    var n := if '0' <= u[0] <= '9' then 1 else if u[0] == '.' then 2 else 8;
    number, rest := u[..n], u[n..];
    assert u[0] == '.' ==> number[1..] == [u[1]];
    assert '0' <= u[0] <= '9' ==> number == [u[0]];
  }

  lemma LeadingNumber(number: string, rest: string)
    requires IsNumber(number)
    ensures var u := number + rest;
      UnsignedParses(u) && u != "" && u[0] != '-' && u[0] != '+' && !IsSpace(u[0])
  {
    var u := number + rest;
    assert u[0] == number[0] && (|number| > 1 ==> u[1] == number[1]);
    if number == "Infinity" {
      assert u[..8] == "Infinity";
    } else if number[0] == '.' {
      assert number[1..][0] == number[1];
    }
  }

  lemma NumberParses(space: string, sign: string, number: string, rest: string)
    requires IsNumberIn(space + (sign + (number + rest)), space, sign, number, rest)
    ensures ParsesAsFloat(space + (sign + (number + rest)))
  {
    LeadingNumber(number, rest);
    SignOf(sign, number + rest);
    TrimOf(space, sign + (number + rest));
  }

  /** parseFloat gives a number exactly for the texts that start with one. */
  lemma ParsesAsFloatExactly(s: string)
    ensures ParsesAsFloat(s) <==> StartsWithNumber(s)
  {
    if ParsesAsFloat(s) {
      var space := TrimSplits(s);
      var sign, unsigned := SignSplits(TrimStart(s));
      var number, rest := NumberLeads(unsigned);
      assert IsNumberIn(s, space, sign, number, rest);
    }
    if space, sign, number, rest :| IsNumberIn(s, space, sign, number, rest) {
      NumberParses(space, sign, number, rest);
    }
  }
}
