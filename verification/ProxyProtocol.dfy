/** The PROXY protocol v1 and v2 parser (sections 2.1 and 2.2 of the HAProxy PROXY protocol specification). */
module ProxyProtocol {
  import opened Common
  import opened JsStrings
  import opened Numerals

  const V1_SIGNATURE: Buffer := [0x50, 0x52, 0x4F, 0x58, 0x59, 0x20]  // "PROXY "
  const V2_SIGNATURE: Buffer := [0x0D, 0x0A, 0x0D, 0x0A, 0x00, 0x0D, 0x0A, 0x51, 0x55, 0x49, 0x54, 0x0A]
  const CRLF: Buffer := [0x0D, 0x0A]
  const V1_MAX_LENGTH: nat := 109
  const V2_MIN_HEADER: nat := 16
  const V2_MAX_ADDR_LENGTH: nat := 216

  datatype Addresses = Addresses(source: string, sourcePort: nat, destination: string, destinationPort: nat)

  datatype Parsed = Parsed(addresses: Option<Addresses>, remaining: Buffer)

  datatype Kind = V1 | V2 | NoProxy | Incomplete

  // --- Detection ---

  function Detect(data: Buffer): Kind {
    if |data| == 0 then Incomplete
    else if |data| >= |V2_SIGNATURE| && StartsWith(data, V2_SIGNATURE) then V2
    else if |data| < |V2_SIGNATURE| && StartsWith(data, V2_SIGNATURE[..|data|]) then Incomplete
    else if |data| >= |V1_SIGNATURE| && StartsWith(data, V1_SIGNATURE) then V1
    else if |data| < |V1_SIGNATURE| && StartsWith(data, V1_SIGNATURE[..|data|]) then Incomplete
    else NoProxy
  }

  method StartsWithSignature(data: Buffer, signature: Buffer) returns (r: bool)
    ensures r <==> StartsWith(data, signature)
  {
    if |data| < |signature| { return false; }
    for i := 0 to |signature|
      invariant data[..i] == signature[..i]
    {
      if data[i] != signature[i] {
        assert data[..|signature|][i] != signature[i];
        return false;
      }
    }
    return true;
  }

  // --- Version 1 ---

  function Min(a: nat, b: nat): nat {
    if a < b then a else b
  }

  /** The 'ascii' decoding of Node drops the top bit of every byte. */
  function Ascii(s: Buffer): (r: string)
    ensures |r| == |s| && forall i :: 0 <= i < |s| ==> r[i] == (s[i] as int % 0x80) as char
  {
    seq(|s|, i requires 0 <= i < |s| => (s[i] as int % 0x80) as char)
  }

  predicate IsOctet(part: string) {
    var num := ParseInt(part);
    num.Some? && 0 <= num.value <= 255 && part == Decimal(num.value)
  }

  predicate IsColonHex(c: char) {
    '0' <= c <= '9' || 'a' <= c <= 'f' || 'A' <= c <= 'F' || c == ':'
  }

  predicate IsValidAddress(addr: string, protocol: string) {
    if protocol == "TCP4" then
      var parts := Split(addr, ".");
      |parts| == 4 && forall i :: 0 <= i < 4 ==> IsOctet(parts[i])
    else if protocol == "TCP6" then
      ':' in addr && |addr| <= 45 && forall i :: 0 <= i < |addr| ==> IsColonHex(addr[i])
    else false
  }

  predicate PortInRange(port: Option<int>) {
    port.Some? && 0 <= port.value <= 65535
  }

  function ParseLine(parts: seq<string>, remaining: Buffer): Parsed {
    if |parts| < 2 || parts[0] != "PROXY" then Parsed(None, remaining)
    else if parts[1] == "UNKNOWN" then Parsed(None, remaining)
    else if parts[1] != "TCP4" && parts[1] != "TCP6" then Parsed(None, remaining)
    else if |parts| != 6 then Parsed(None, remaining)
    else
      var sourcePort, destinationPort := ParseInt(parts[4]), ParseInt(parts[5]);
      if !PortInRange(sourcePort) || !PortInRange(destinationPort) then Parsed(None, remaining)
      else if !IsValidAddress(parts[2], parts[1]) || !IsValidAddress(parts[3], parts[1]) then Parsed(None, remaining)
      else Parsed(Some(Addresses(parts[2], sourcePort.value, parts[3], destinationPort.value)), remaining)
  }

  /** Where the header line ends, if it ends within the permitted length. */
  function LineEnd(data: Buffer): (r: Option<nat>)
    ensures r.Some? ==> r.value + 2 <= Min(|data|, V1_MAX_LENGTH)
  {
    Find(data[..Min(|data|, V1_MAX_LENGTH)], CRLF, 0)
  }

  function ParseV1(data: Buffer): Option<Parsed> {
    var end := LineEnd(data);
    if end.None? then
      if |data| >= V1_MAX_LENGTH then Some(Parsed(None, data)) else None
    else
      Some(ParseLine(Split(Ascii(data[..end.value]), " "), data[end.value + 2..]))
  }

  /** The scan for the line end, as the code does it. */
  method FindLineEnd(data: Buffer) returns (crlfIndex: int)
    ensures crlfIndex == (if LineEnd(data).Some? then LineEnd(data).value else -1)
  {
    crlfIndex := -1;
    var searchLimit: int := Min(|data|, V1_MAX_LENGTH);
    ghost var line := data[..searchLimit];
    var i := 0;
    while i < searchLimit - 1
      invariant 0 <= i
      invariant forall j: nat :: j < i ==> !At(line, CRLF, j)
      decreases searchLimit - i
    {
      assert line[i..i + 2] == [line[i], line[i + 1]];
      if data[i] == 0x0D && data[i + 1] == 0x0A {
        FindIs(line, CRLF, 0, i);
        crlfIndex := i;
        return;
      }
      assert CRLF[0] == 0x0D && CRLF[1] == 0x0A;
      i := i + 1;
    }
    FindAbsent(line, CRLF, 0);
  }

  /** The loop over the octets, as the code does it. */
  method CheckOctets(addr: string) returns (r: bool)
    ensures r == IsValidAddress(addr, "TCP4")
  {
    var parts := Split(addr, ".");
    if |parts| != 4 { return false; }
    for k := 0 to |parts|
      invariant forall i :: 0 <= i < k ==> IsOctet(parts[i])
    {
      var num := ParseInt(parts[k]);
      if num.None? || num.value < 0 || num.value > 255 || parts[k] != Decimal(num.value) {
        return false;
      }
    }
    return true;
  }

  // --- Version 2 ---

  function Octets(b: Buffer): (r: seq<string>)
    ensures |r| == |b| && forall i :: 0 <= i < |b| ==> r[i] == Decimal(b[i] as nat)
  {
    seq(|b|, i requires 0 <= i < |b| => Decimal(b[i] as nat))
  }

  function DottedQuad(b: Buffer): string
    requires |b| == 4
  {
    Join(Octets(b), ".")
  }

  function Group(b: Buffer, i: nat): string
    requires |b| == 16 && i < 8
  {
    Hex(Join2(b[2 * i], b[2 * i + 1]))
  }

  function Groups(b: Buffer): (r: seq<string>)
    requires |b| == 16
    ensures |r| == 8 && forall i :: 0 <= i < 8 ==> r[i] == Group(b, i)
  {
    seq(8, i requires 0 <= i < 8 => Group(b, i))
  }

  function FormatIPv6(b: Buffer): string
    requires |b| == 16
  {
    Join(Groups(b), ":")
  }

  /** The loop over the byte pairs, as the code does it. */
  method FormatGroups(b: Buffer) returns (r: string)
    requires |b| == 16
    ensures r == FormatIPv6(b)
  {
    var groups: seq<string> := [];
    var i := 0;
    while i < 16
      invariant 0 <= i <= 16 && i % 2 == 0
      invariant |groups| == i / 2 && forall k :: 0 <= k < i / 2 ==> groups[k] == Group(b, k)
    {
      groups := groups + [Hex(Join2(b[i], b[i + 1]))];
      i := i + 2;
    }
    assert groups == Groups(b);
    r := Join(groups, ":");
  }

  function AddressBlock(family: int, a: Buffer): Option<Addresses> {
    if family == 1 && |a| >= 12 then
      Some(Addresses(DottedQuad(a[..4]), Join2(a[8], a[9]), DottedQuad(a[4..8]), Join2(a[10], a[11])))
    else if family == 2 && |a| >= 36 then
      Some(Addresses(FormatIPv6(a[..16]), Join2(a[32], a[33]), FormatIPv6(a[16..32]), Join2(a[34], a[35])))
    else None
  }

  function ParseV2(data: Buffer): Option<Parsed> {
    if |data| < V2_MIN_HEADER then None
    else
      var version, command := data[12] as int / 16, data[12] as int % 16;
      if version != 2 then None
      else
        var family, proto := data[13] as int / 16, data[13] as int % 16;
        var addrLen := Join2(data[14], data[15]);
        if addrLen > V2_MAX_ADDR_LENGTH then None
        else if |data| < V2_MIN_HEADER + addrLen then None
        else
          var remaining := data[V2_MIN_HEADER + addrLen..];
          if command != 1 || proto != 1 then Some(Parsed(None, remaining))
          else Some(Parsed(AddressBlock(family, data[V2_MIN_HEADER..V2_MIN_HEADER + addrLen]), remaining))
  }

  function ParseProxyProtocol(data: Buffer): Option<Parsed> {
    match Detect(data)
    case V1 => ParseV1(data)
    case V2 => ParseV2(data)
    case NoProxy => Some(Parsed(None, data))
    case Incomplete => None
  }
}
