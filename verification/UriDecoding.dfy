/** Whether decodeURIComponent accepts a text: its percent escapes must spell well-formed UTF-8. */
module UriDecoding {
  import opened Common
  import opened Numerals

  /** The octet escaped at i, if there is one. */
  function Octet(s: string, i: nat): (octet: Option<nat>)
    ensures octet.Some? ==> i + 3 <= |s| && octet.value < 0x100
  {
    if i + 3 <= |s| && s[i] == '%' && IsHexDigit(s[i + 1]) && IsHexDigit(s[i + 2])
    then Some(DigitValue(s[i + 1]) * 16 + DigitValue(s[i + 2]))
    else None
  }

  /** How many octets follow a lead octet, if it can lead. */
  function Followers(lead: nat): Option<nat> {
    if lead < 0x80 then Some(0)
    else if 0xC2 <= lead < 0xE0 then Some(1)
    else if 0xE0 <= lead < 0xF0 then Some(2)
    else if 0xF0 <= lead < 0xF5 then Some(3)
    else None
  }

  /** The second octet must not make the character overlong, a surrogate, or larger than Unicode. */
  predicate Second(lead: nat, octet: Option<nat>) {
    && octet.Some?
    && (if lead == 0xE0 then 0xA0 else if lead == 0xF0 then 0x90 else 0x80) <= octet.value
    && octet.value <= if lead == 0xED then 0x9F else if lead == 0xF4 then 0x8F else 0xBF
  }

  predicate Later(octet: Option<nat>) {
    octet.Some? && 0x80 <= octet.value <= 0xBF
  }

  /** The length of the first character as written, escaped or not; 0 if it is malformed. */
  function Unit(s: string): (n: nat)
    requires s != ""
    ensures n <= |s|
  {
    if s[0] != '%' then 1
    else
      var lead := Octet(s, 0);
      if lead.None? then 0
      else
        match Followers(lead.value)
        case None => 0
        case Some(n) =>
          if n == 0 then 3
          else if Second(lead.value, Octet(s, 3)) && (n >= 2 ==> Later(Octet(s, 6))) && (n == 3 ==> Later(Octet(s, 9)))
          then 3 + 3 * n
          else 0
  }

  predicate Decodes(s: string)
    decreases |s|
  {
    s == "" || (Unit(s) > 0 && Decodes(s[Unit(s)..]))
  }

  /** Digits of either case, the first one worth sixteen times the second. */
  lemma OctetReads(s: string, i: nat, high: nat, low: nat)
    requires i + 3 <= |s| && s[i] == '%' && high < 16 && low < 16
    requires s[i + 1] == "0123456789abcdef"[high] || s[i + 1] == "0123456789ABCDEF"[high]
    requires s[i + 2] == "0123456789abcdef"[low] || s[i + 2] == "0123456789ABCDEF"[low]
    ensures Octet(s, i) == Some(16 * high + low)
  {
    DigitReads(high);
    DigitReads(low);
  }

  lemma DigitReads(d: nat)
    requires d < 16
    ensures IsHexDigit("0123456789abcdef"[d]) && DigitValue("0123456789abcdef"[d]) == d
    ensures IsHexDigit("0123456789ABCDEF"[d]) && DigitValue("0123456789ABCDEF"[d]) == d
  {
  }

  // --- Everything encoded decodes ---

  /** A Unicode scalar value: any code point but the surrogates. */
  predicate IsScalar(c: nat) {
    c < 0xD800 || 0xE000 <= c <= 0x10FFFF
  }

  /** Its UTF-8 octets, as in section 3 of RFC 3629. */
  function Utf8(c: nat): (octets: seq<nat>)
    requires IsScalar(c)
    ensures octets != [] && forall i :: 0 <= i < |octets| ==> octets[i] < 0x100
  {
    if c < 0x80 then [c]
    else if c < 0x800 then [0xC0 + c / 0x40, 0x80 + c % 0x40]
    else if c < 0x1_0000 then [0xE0 + c / 0x1000, 0x80 + c / 0x40 % 0x40, 0x80 + c % 0x40]
    else [0xF0 + c / 0x4_0000, 0x80 + c / 0x1000 % 0x40, 0x80 + c / 0x40 % 0x40, 0x80 + c % 0x40]
  }

  function Escape(octet: nat): (s: string)
    requires octet < 0x100
    ensures |s| == 3 && Octet(s, 0) == Some(octet)
  {
    ['%', Digit(octet / 16), Digit(octet % 16)]
  }

  function EscapeAll(octets: seq<nat>): (s: string)
    requires forall i :: 0 <= i < |octets| ==> octets[i] < 0x100
    ensures |s| == 3 * |octets|
  {
    if octets == [] then "" else Escape(octets[0]) + EscapeAll(octets[1..])
  }

  lemma {:induction false} OctetOf(octets: seq<nat>, rest: string, i: nat)
    requires (forall j :: 0 <= j < |octets| ==> octets[j] < 0x100) && i < |octets|
    ensures Octet(EscapeAll(octets) + rest, 3 * i) == Some(octets[i])
  {
    var head, tail := Escape(octets[0]), EscapeAll(octets[1..]);
    Assoc(head, tail, rest);
    if i == 0 {
      assert (head + (tail + rest))[..3] == head;
    } else {
      OctetOf(octets[1..], rest, i - 1);
      Shifted(head, tail + rest, 3 * (i - 1));
    }
  }

  lemma Shifted(head: string, s: string, i: nat)
    requires |head| == 3
    ensures Octet(head + s, 3 + i) == Octet(s, i)
  {
  }

  lemma SecondOctet(c: nat)
    requires IsScalar(c) && c >= 0x80
    ensures Followers(Utf8(c)[0]) == Some(|Utf8(c)| - 1) && Second(Utf8(c)[0], Some(Utf8(c)[1]))
  {
  }

  lemma UnitOf(c: nat, s: string)
    requires IsScalar(c) && s != "" && s[0] == '%'
    requires forall i {:trigger Utf8(c)[i]} :: 0 <= i < |Utf8(c)| ==> Octet(s, 3 * i) == Some(Utf8(c)[i])
    ensures Unit(s) == 3 * |Utf8(c)|
  {
    var octets := Utf8(c);
    assert Octet(s, 0) == Some(octets[0]);
    if |octets| > 1 {
      SecondOctet(c);
      assert Octet(s, 3) == Some(octets[1]);
    }
    if |octets| > 2 {
      assert Octet(s, 6) == Some(octets[2]);
    }
    if |octets| > 3 {
      assert Octet(s, 9) == Some(octets[3]);
    }
  }

  /** The escaped UTF-8 of any character decodes, and what follows it decides about the rest. */
  lemma EscapedDecodes(c: nat, rest: string)
    requires IsScalar(c)
    ensures Decodes(EscapeAll(Utf8(c)) + rest) <==> Decodes(rest)
  {
    var octets := Utf8(c);
    var s := EscapeAll(octets) + rest;
    forall i | 0 <= i < |octets|
      ensures Octet(s, 3 * i) == Some(octets[i])
    {
      OctetOf(octets, rest, i);
    }
    assert Octet(s, 0) == Some(octets[0]);
    UnitOf(c, s);
    assert s[3 * |octets|..] == rest;
  }

  // --- Nothing else decodes ---

  lemma Base64(q: nat, r: nat)
    requires r < 0x40
    ensures (q * 0x40 + r) / 0x40 == q && (q * 0x40 + r) % 0x40 == r
  {
  }

  lemma SpeltTwo(lead: nat, second: nat) returns (c: nat)
    requires 0xC2 <= lead < 0xE0 && 0x80 <= second <= 0xBF
    ensures IsScalar(c) && Utf8(c) == [lead, second]
  {
    c := (lead - 0xC0) * 0x40 + (second - 0x80);
    Base64(lead - 0xC0, second - 0x80);
  }

  lemma SpeltThree(lead: nat, second: nat, third: nat) returns (c: nat)
    requires 0xE0 <= lead < 0xF0 && Second(lead, Some(second)) && Later(Some(third))
    ensures IsScalar(c) && Utf8(c) == [lead, second, third]
  {
    var q := (lead - 0xE0) * 0x40 + (second - 0x80);
    c := q * 0x40 + (third - 0x80);
    Base64(q, third - 0x80);
    Base64(lead - 0xE0, second - 0x80);
    assert c / 0x1000 == lead - 0xE0;
    assert 0x800 <= c < 0x1_0000;
  }

  lemma SpeltFour(lead: nat, second: nat, third: nat, fourth: nat) returns (c: nat)
    requires 0xF0 <= lead < 0xF5 && Second(lead, Some(second)) && Later(Some(third)) && Later(Some(fourth))
    ensures IsScalar(c) && Utf8(c) == [lead, second, third, fourth]
  {
    var q := (lead - 0xF0) * 0x40 + (second - 0x80);
    var r := q * 0x40 + (third - 0x80);
    c := r * 0x40 + (fourth - 0x80);
    Base64(r, fourth - 0x80);
    Base64(q, third - 0x80);
    Base64(lead - 0xF0, second - 0x80);
    assert c / 0x1000 == q;
    assert c / 0x4_0000 == lead - 0xF0;
    assert 0x1_0000 <= c <= 0x10FFFF;
  }

  /** The text begins with the escaped octets of character c, in any case of the digits. */
  predicate Escapes(s: string, c: nat) {
    IsScalar(c) && forall i {:trigger Utf8(c)[i]} :: 0 <= i < |Utf8(c)| ==> Octet(s, 3 * i) == Some(Utf8(c)[i])
  }

  /** An escape that is accepted is that of a character. */
  lemma AcceptedEscapes(s: string) returns (c: nat)
    requires s != "" && s[0] == '%' && Unit(s) > 0
    ensures Escapes(s, c) && Unit(s) == 3 * |Utf8(c)|
  {
    var lead := Octet(s, 0).value;
    if lead < 0x80 {
      c := lead;
      assert Utf8(c) == [lead];
    } else if lead < 0xE0 {
      c := SpeltTwo(lead, Octet(s, 3).value);
    } else if lead < 0xF0 {
      c := SpeltThree(lead, Octet(s, 3).value, Octet(s, 6).value);
    } else {
      c := SpeltFour(lead, Octet(s, 3).value, Octet(s, 6).value, Octet(s, 9).value);
    }
  }

  /** One character of a text: itself, unless it is a percent sign, or escaped. */
  ghost predicate Piece(p: string) {
    (|p| == 1 && p[0] != '%') || (exists c :: Escapes(p, c) && |p| == 3 * |Utf8(c)|)
  }

  ghost predicate Pieces(ps: seq<string>) {
    forall i :: 0 <= i < |ps| ==> Piece(ps[i])
  }

  lemma OctetOfPart(p: string, rest: string, i: nat)
    requires i + 3 <= |p|
    ensures Octet(p + rest, i) == Octet(p, i)
  {
  }

  /** A piece in front decides nothing about the rest. */
  lemma PieceThen(p: string, rest: string)
    requires Piece(p)
    ensures Unit(p + rest) == |p| > 0 && (p + rest)[|p|..] == rest
  {
    var s := p + rest;
    if !(|p| == 1 && p[0] != '%') {
      var c :| Escapes(p, c) && |p| == 3 * |Utf8(c)|;
      forall i | 0 <= i < |Utf8(c)|
        ensures Octet(s, 3 * i) == Some(Utf8(c)[i])
      {
        OctetOfPart(p, rest, 3 * i);
      }
      assert Octet(s, 0) == Some(Utf8(c)[0]);
      UnitOf(c, s);
    }
  }

  lemma {:induction false} PiecesDecode(ps: seq<string>)
    requires Pieces(ps)
    ensures Decodes(Concat(ps))
  {
    if ps != [] {
      PieceThen(ps[0], Concat(ps[1..]));
      PiecesDecode(ps[1..]);
    }
  }

  lemma {:induction false} DecodedPieces(s: string) returns (ps: seq<string>)
    requires Decodes(s)
    ensures Pieces(ps) && Concat(ps) == s
    decreases |s|
  {
    if s == "" {
      ps := [];
    } else {
      var n := Unit(s);
      var p := s[..n];
      FirstPiece(s);
      var more := DecodedPieces(s[n..]);
      ps := [p] + more;
      assert ps[1..] == more;
      SplitAt(s, n);
    }
  }

  lemma FirstPiece(s: string)
    requires s != "" && Unit(s) > 0
    ensures Piece(s[..Unit(s)])
  {
    var p := s[..Unit(s)];
    if s[0] == '%' {
      var c := AcceptedEscapes(s);
      SplitAt(s, Unit(s));
      forall i | 0 <= i < |Utf8(c)|
        ensures Octet(p, 3 * i) == Some(Utf8(c)[i])
      {
        OctetOfPart(p, s[Unit(s)..], 3 * i);
      }
    }
  }

  /** A text decodes exactly when it is made of characters other than the percent sign and of escaped characters. */
  lemma DecodesExactly(s: string)
    ensures Decodes(s) <==> exists ps :: Pieces(ps) && Concat(ps) == s
  {
    if Decodes(s) {
      var ps := DecodedPieces(s);
    }
    if ps :| Pieces(ps) && Concat(ps) == s {
      PiecesDecode(ps);
    }
  }

  /** A lone percent sign does not decode. */
  lemma LonePercent(text: string)
    requires text == "" || !IsHexDigit(text[0])
    ensures !Decodes("%" + text)
  {
    assert ("%" + text)[0] == '%';
    assert text != "" ==> ("%" + text)[1] == text[0];
  }

  lemma {:induction false} PlainDecodes(s: string)
    requires '%' !in s
    ensures Decodes(s)
  {
    if s != "" {
      PlainDecodes(s[1..]);
    }
  }
}
