/** The serial number of a certificate as the content of a DER INTEGER, for the CertID of an OCSP response. */
module OcspSerial {
  import opened Common
  import opened Numerals

  function WithoutSpaces(s: string): string {
    if s == "" then ""
    else if IsSpace(s[0]) then WithoutSpaces(s[1..])
    else [s[0]] + WithoutSpaces(s[1..])
  }

  predicate HexText(s: string) {
    forall i :: 0 <= i < |s| ==> IsHexDigit(s[i])
  }

  function PadToPairs(hex: string): (r: string)
    ensures |r| % 2 == 0
  {
    if |hex| % 2 == 0 then hex else "0" + hex
  }

  /** Each pair of digits as a byte. */
  function PairBytes(hex: string): (r: Buffer)
    requires |hex| % 2 == 0
    ensures |r| == |hex| / 2
  {
    if hex == "" then []
    else PairBytes(hex[..|hex| - 2]) + [(DigitValue(hex[|hex| - 2]) * 16 + DigitValue(hex[|hex| - 1])) as Byte]
  }

  /** Without digits there is nothing to match, and the code throws. */
  function SerialBytes(serial: string): Option<Buffer> {
    var bytes := PairBytes(PadToPairs(WithoutSpaces(serial)));
    if bytes == [] then None
    else Some(if bytes[0] < 0x80 then bytes else [0] + bytes)
  }

  method SerialNumberBytes(serialNumber: string) returns (r: Option<array<Byte>>)
    ensures r.Some? <==> SerialBytes(serialNumber).Some?
    ensures r.Some? ==> fresh(r.value) && r.value[..] == SerialBytes(serialNumber).value
  {
    var pairs := PairBytes(PadToPairs(WithoutSpaces(serialNumber)));
    if pairs == [] {
      return None;
    }
    var bytes := new Byte[|pairs|](i requires 0 <= i < |pairs| => pairs[i]);
    assert bytes[..] == pairs;
    if bytes[0] < 0x80 {
      return Some(bytes);
    }
    var signedBytes := new Byte[|pairs| + 1](_ => 0);
    forall i | 0 <= i < |pairs| {
      signedBytes[i + 1] := bytes[i];
    }
    assert signedBytes[..] == [0] + pairs;
    return Some(signedBytes);
  }

  // --- What the bytes mean ---

  /** The big-endian unsigned value. */
  function Unsigned(bytes: Buffer): nat {
    if bytes == [] then 0 else Unsigned(bytes[..|bytes| - 1]) * 256 + bytes[|bytes| - 1] as nat
  }

  function Power256(n: nat): nat {
    if n == 0 then 1 else Power256(n - 1) * 256
  }

  /** The value of a DER INTEGER: two's complement, big-endian. */
  function Signed(bytes: Buffer): int
    requires bytes != []
  {
    if bytes[0] < 0x80 then Unsigned(bytes) else Unsigned(bytes) - Power256(|bytes|)
  }

  lemma {:induction false} PairsValue(hex: string)
    requires |hex| % 2 == 0
    ensures Unsigned(PairBytes(hex)) == HexValue(hex)
  {
    if hex != "" {
      var n := |hex|;
      var before, last := PairBytes(hex[..n - 2]), (DigitValue(hex[n - 2]) * 16 + DigitValue(hex[n - 1])) as Byte;
      PairsValue(hex[..n - 2]);
      assert (before + [last])[..|before|] == before;
      assert hex[..n - 1][..n - 2] == hex[..n - 2];
      assert HexValue(hex[..n - 1]) == HexValue(hex[..n - 2]) * 16 + DigitValue(hex[n - 2]);
    }
  }

  lemma {:induction false} LeadingZeroByte(bytes: Buffer)
    ensures Unsigned([0] + bytes) == Unsigned(bytes)
  {
    if bytes == [] {
      assert ([0] + bytes)[..0] == [];
    } else {
      LeadingZeroByte(bytes[..|bytes| - 1]);
      assert ([0] + bytes)[..|bytes|] == [0] + bytes[..|bytes| - 1];
    }
  }

  lemma {:induction false} LeadingZeroDigit(hex: string)
    ensures HexValue("0" + hex) == HexValue(hex)
  {
    if hex == "" {
      assert ("0" + hex)[..0] == "";
    } else {
      LeadingZeroDigit(hex[..|hex| - 1]);
      assert ("0" + hex)[..|hex|] == "0" + hex[..|hex| - 1];
    }
  }

  lemma {:induction false} BelowPower(bytes: Buffer)
    ensures Unsigned(bytes) < Power256(|bytes|)
  {
    if bytes != [] {
      BelowPower(bytes[..|bytes| - 1]);
    }
  }

  /** White space goes, wherever it stands, and everything else stays. */
  lemma {:induction false} SpacesGo(s: string, t: string)
    ensures WithoutSpaces(s + t) == WithoutSpaces(s) + WithoutSpaces(t)
    ensures |s| == 1 ==> WithoutSpaces(s) == if s[0] == ' ' || '\t' <= s[0] <= '\r' then "" else s
  {
    if s == "" {
      assert s + t == t;
    } else {
      assert (s + t)[0] == s[0] && (s + t)[1..] == s[1..] + t;
      SpacesGo(s[1..], t);
      if !IsSpace(s[0]) {
        Assoc([s[0]], WithoutSpaces(s[1..]), WithoutSpaces(t));
      }
      if |s| == 1 {
        assert s[1..] == "" && s == [s[0]];
      }
    }
  }

  lemma {:induction false} NoSpaces(s: string)
    requires IsHex(s)
    ensures WithoutSpaces(s) == s && HexText(s)
  {
    if s != "" {
      NoSpaces(s[1..]);
      assert s == [s[0]] + s[1..];
    }
  }

  /** The serial number of a certificate, printed in hexadecimal, comes back as the value of the DER INTEGER. */
  lemma SerialRoundTrip(n: nat)
    ensures SerialBytes(Hex(n)).Some? && SerialBytes(Hex(n)).value != []
    ensures Signed(SerialBytes(Hex(n)).value) == n
  {
    HexRoundTrip(n);
    NoSpaces(Hex(n));
    SerialIsPositive(Hex(n));
  }

  /**
   * For every serial with at least one digit, the signed reading of the bytes is the value of the digits, and so
   * never negative; one zero byte is put in front exactly when the digits alone would have read as negative.
   */
  lemma SerialIsPositive(serial: string)
    requires WithoutSpaces(serial) != "" && HexText(WithoutSpaces(serial))
    ensures SerialBytes(serial).Some? && SerialBytes(serial).value != []
    ensures Signed(SerialBytes(serial).value) == HexValue(WithoutSpaces(serial))
    ensures var pairs := PairBytes(PadToPairs(WithoutSpaces(serial)));
      SerialBytes(serial).value == if Signed(pairs) < 0 then [0] + pairs else pairs
  {
    var hex := WithoutSpaces(serial);
    var pairs := PairBytes(PadToPairs(hex));
    PairsValue(PadToPairs(hex));
    LeadingZeroDigit(hex);
    LeadingZeroByte(pairs);
    BelowPower(pairs);
  }
}
