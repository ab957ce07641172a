/** The PROXY parsers invert the printers of the specification, and accept exactly the addresses they should. */
module ProxyRoundTrip {
  import opened Common
  import opened JsStrings
  import opened Numerals
  import opened ProxyProtocol

  // --- IPv4 ---

  lemma OctetOf(b: Byte)
    ensures IsOctet(Decimal(b as nat)) && '.' !in Decimal(b as nat)
  {
    ParseIntOfDecimal(b as nat);
    DecimalRoundTrip(b as nat);
  }

  lemma SplitQuad(b: Buffer)
    requires |b| == 4
    ensures Split(DottedQuad(b), ".") == Octets(b)
  {
    forall i | 0 <= i < 4
      ensures '.' !in Octets(b)[i]
    {
      OctetOf(b[i]);
    }
    SplittableOne(Octets(b), '.');
    SplitJoinExact(Octets(b), ".");
  }

  /** TCP4 validation accepts exactly the canonical dotted quads. */
  lemma Tcp4Exact(addr: string)
    ensures IsValidAddress(addr, "TCP4") <==> exists b: Buffer :: |b| == 4 && addr == DottedQuad(b)
  {
    var parts := Split(addr, ".");
    if IsValidAddress(addr, "TCP4") {
      var b := QuadOf(parts);
      assert addr == DottedQuad(b) by { JoinSplit(addr, "."); }
    }
    forall b: Buffer | |b| == 4 && addr == DottedQuad(b)
      ensures IsValidAddress(addr, "TCP4")
    {
      QuadIsValid(b);
    }
  }

  lemma QuadOf(parts: seq<string>) returns (b: Buffer)
    requires |parts| == 4 && forall i :: 0 <= i < 4 ==> IsOctet(parts[i])
    ensures |b| == 4 && Octets(b) == parts
  {
    b := seq(4, i requires 0 <= i < 4 => ByteOf(parts[i]));
  }

  lemma QuadIsValid(b: Buffer)
    requires |b| == 4
    ensures IsValidAddress(DottedQuad(b), "TCP4")
  {
    SplitQuad(b);
    forall i | 0 <= i < 4
      ensures IsOctet(Octets(b)[i])
    {
      OctetOf(b[i]);
    }
  }

  function ByteOf(part: string): Byte {
    var num := ParseInt(part);
    if num.Some? && 0 <= num.value <= 255 then num.value as Byte else 0
  }

  // --- IPv6 ---

  lemma SplitGroups(b: Buffer)
    requires |b| == 16
    ensures Split(FormatIPv6(b), ":") == Groups(b)
  {
    forall i | 0 <= i < 8
      ensures ':' !in Groups(b)[i]
    {
      HexRoundTrip(Join2(b[2 * i], b[2 * i + 1]));
    }
    SplittableOne(Groups(b), ':');
    SplitJoinExact(Groups(b), ":");
  }

  lemma FormatIPv6Injective(a: Buffer, b: Buffer)
    requires |a| == |b| == 16 && FormatIPv6(a) == FormatIPv6(b)
    ensures a == b
  {
    SplitGroups(a);
    SplitGroups(b);
    forall i | 0 <= i < 8
      ensures a[2 * i] == b[2 * i] && a[2 * i + 1] == b[2 * i + 1]
    {
      assert Groups(a)[i] == Groups(b)[i];
      HexRoundTrip(Join2(a[2 * i], a[2 * i + 1]));
      HexRoundTrip(Join2(b[2 * i], b[2 * i + 1]));
    }
    forall k | 0 <= k < 16
      ensures a[k] == b[k]
    {
      assert k == 2 * (k / 2) || k == 2 * (k / 2) + 1;
    }
  }

  // --- Version 1 ---

  function ToBytes(s: string): (r: Buffer)
    requires forall i :: 0 <= i < |s| ==> s[i] < '\U{80}'
    ensures |r| == |s| && forall i :: 0 <= i < |s| ==> r[i] == s[i] as int as Byte
  {
    seq(|s|, i requires 0 <= i < |s| => s[i] as int as Byte)
  }

  predicate ValidHeader(protocol: string, a: Addresses) {
    && (protocol == "TCP4" || protocol == "TCP6")
    && IsValidAddress(a.source, protocol) && IsValidAddress(a.destination, protocol)
    && a.sourcePort <= 65535 && a.destinationPort <= 65535
  }

  function Fields(protocol: string, a: Addresses): seq<string> {
    ["PROXY", protocol, a.source, a.destination, Decimal(a.sourcePort), Decimal(a.destinationPort)]
  }

  function HeaderLine(protocol: string, a: Addresses): string {
    Join(Fields(protocol, a), " ")
  }

  /** Letters, digits, '.' and ':' — what a header field may hold. */
  predicate IsFieldChar(c: char) {
    '0' <= c <= '9' || 'a' <= c <= 'z' || 'A' <= c <= 'Z' || c == ':' || c == '.'
  }

  predicate AllFieldChars(s: string) {
    forall i :: 0 <= i < |s| ==> IsFieldChar(s[i])
  }

  lemma AddressChars(addr: string, protocol: string)
    requires IsValidAddress(addr, protocol)
    ensures AllFieldChars(addr)
  {
    if protocol == "TCP4" {
      var parts := Split(addr, ".");
      JoinSplit(addr, ".");
      forall c | c in addr
        ensures IsFieldChar(c)
      {
        if c != '.' {
          JoinElement(parts, ".", c);
          var i :| 0 <= i < 4 && c in parts[i];
          DecimalRoundTrip(ParseInt(parts[i]).value);
        }
      }
    }
  }

  lemma FieldChars(protocol: string, a: Addresses)
    requires ValidHeader(protocol, a)
    ensures forall i :: 0 <= i < 6 ==> AllFieldChars(Fields(protocol, a)[i])
  {
    AddressChars(a.source, protocol);
    AddressChars(a.destination, protocol);
    DecimalRoundTrip(a.sourcePort);
    DecimalRoundTrip(a.destinationPort);
  }

  lemma LineChars(protocol: string, a: Addresses)
    requires ValidHeader(protocol, a)
    ensures forall i :: 0 <= i < |HeaderLine(protocol, a)| ==>
                          IsFieldChar(HeaderLine(protocol, a)[i]) || HeaderLine(protocol, a)[i] == ' '
  {
    FieldChars(protocol, a);
    var line, fields := HeaderLine(protocol, a), Fields(protocol, a);
    forall i | 0 <= i < |line| && line[i] != ' '
      ensures IsFieldChar(line[i])
    {
      JoinElement(fields, " ", line[i]);
      var k :| 0 <= k < |fields| && line[i] in fields[k];
      assert AllFieldChars(fields[k]);
    }
  }

  /** A v1 header as section 2.1 of the PROXY protocol specification prints it. */
  function PrintV1(protocol: string, a: Addresses): Buffer
    requires ValidHeader(protocol, a)
  {
    LineChars(protocol, a);
    ToBytes(HeaderLine(protocol, a)) + CRLF
  }

  lemma SplitLine(protocol: string, a: Addresses)
    requires ValidHeader(protocol, a)
    ensures Split(HeaderLine(protocol, a), " ") == Fields(protocol, a)
  {
    FieldChars(protocol, a);
    assert forall f :: AllFieldChars(f) ==> ' ' !in f;
    SplittableOne(Fields(protocol, a), ' ');
    SplitJoinExact(Fields(protocol, a), " ");
  }

  lemma Pair(d: Buffer, j: nat)
    requires j + 2 <= |d|
    ensures d[j..j + 2] == [d[j], d[j + 1]]
  {
  }

  lemma TakeOfAppend(a: Buffer, b: Buffer, n: nat, j: nat)
    requires n <= |a + b| && j < n && j < |a|
    ensures (a + b)[..n][j] == a[j]
  {
  }

  lemma EndFits(line: Buffer, tail: Buffer, n: nat)
    requires |line| + 2 <= n <= |line + (CRLF + tail)|
    ensures At((line + (CRLF + tail))[..n], CRLF, |line|)
  {
    var data := line + (CRLF + tail);
    SliceOfTake(data, n, |line|, |line| + 2);
    assert data[|line|..|line| + 2] == CRLF;
  }

  /** The scan finds the end of a line without carriage returns iff line and end fit in 109 bytes. */
  lemma LineEndOf(line: Buffer, tail: Buffer)
    requires forall i :: 0 <= i < |line| ==> line[i] != 0x0D
    ensures LineEnd(line + (CRLF + tail)) == if |line| + 2 <= V1_MAX_LENGTH then Some(|line|) else None
  {
    var data := line + (CRLF + tail);
    var d := data[..Min(|data|, V1_MAX_LENGTH)];
    assert CRLF == [0x0D, 0x0A];
    forall j: nat | j < |line| && j + 2 <= |d|
      ensures !At(d, CRLF, j)
    {
      TakeOfAppend(line, CRLF + tail, |d|, j);
      Pair(d, j);
    }
    if |line| + 2 <= V1_MAX_LENGTH {
      EndFits(line, tail, |d|);
      FindIs(d, CRLF, 0, |line|);
    } else {
      FindAbsent(d, CRLF, 0);
    }
  }

  lemma ParseFields(protocol: string, a: Addresses, tail: Buffer)
    requires ValidHeader(protocol, a)
    ensures ParseLine(Fields(protocol, a), tail) == Parsed(Some(a), tail)
  {
    ParseIntOfDecimal(a.sourcePort);
    ParseIntOfDecimal(a.destinationPort);
  }

  /**
   * A printed v1 header followed by anything parses to exactly its fields and that tail if the header is
   * at most 109 bytes long; a longer one is passed through whole, without addresses.
   */
  lemma V1RoundTrip(protocol: string, a: Addresses, tail: Buffer)
    requires ValidHeader(protocol, a)
    ensures var data := PrintV1(protocol, a) + tail;
            ParseProxyProtocol(data) == Some(if |PrintV1(protocol, a)| <= V1_MAX_LENGTH
                                             then Parsed(Some(a), tail) else Parsed(None, data))
  {
    var line := HeaderLine(protocol, a);
    LineChars(protocol, a);
    var bytes := ToBytes(line);
    Assoc(bytes, CRLF, tail);
    LineEndOf(bytes, tail);
    DetectV1(protocol, a, tail);
    DropHead(bytes, CRLF, tail);
    assert Ascii(bytes) == line;
    SplitLine(protocol, a);
    ParseFields(protocol, a, tail);
  }

  lemma DetectV1(protocol: string, a: Addresses, tail: Buffer)
    requires ValidHeader(protocol, a)
    ensures Detect(PrintV1(protocol, a) + tail) == V1
  {
    var line := HeaderLine(protocol, a);
    LineChars(protocol, a);
    assert line[..6] == "PROXY ";
    var data := PrintV1(protocol, a) + tail;
    assert |line| >= 12 by { LineLength(protocol, a); }
    assert forall i :: 0 <= i < 6 ==> data[i] == line[i] as int as Byte;
    assert data[..6] == V1_SIGNATURE;
    assert data[0] != V2_SIGNATURE[0] && data[..12][0] == data[0];
  }

  lemma LineLength(protocol: string, a: Addresses)
    ensures |HeaderLine(protocol, a)| == 5 + |protocol| + |a.source| + |a.destination|
                                         + |Decimal(a.sourcePort)| + |Decimal(a.destinationPort)| + 5
  {
    var f6 := [Decimal(a.destinationPort)];
    var f5 := [Decimal(a.sourcePort)] + f6;
    var f4 := [a.destination] + f5;
    var f3 := [a.source] + f4;
    var f2 := [protocol] + f3;
    JoinCons(Decimal(a.sourcePort), f6, " ");
    JoinCons(a.destination, f5, " ");
    JoinCons(a.source, f4, " ");
    JoinCons(protocol, f3, " ");
    JoinCons("PROXY", f2, " ");
    assert Fields(protocol, a) == ["PROXY"] + f2;
  }

  /** Addresses of up to 39 characters (every IPv4 and every IPv6 text without an embedded quad) always fit. */
  lemma ShortAddressesFit(protocol: string, a: Addresses)
    requires ValidHeader(protocol, a) && |a.source| <= 39 && |a.destination| <= 39
    ensures |PrintV1(protocol, a)| <= 104
  {
    LineLength(protocol, a);
    LineChars(protocol, a);
    PortDigits(a.sourcePort);
    PortDigits(a.destinationPort);
  }

  // --- Version 2 ---

  function U16(n: nat): (r: Buffer)
    requires n < 0x1_0000
    ensures |r| == 2 && Join2(r[0], r[1]) == n
  {
    [(n / 0x100) as Byte, (n % 0x100) as Byte]
  }

  datatype Endpoints = Endpoints(source: Buffer, sourcePort: nat, destination: Buffer, destinationPort: nat)

  predicate ValidEndpoints(family: int, e: Endpoints) {
    && (family == 1 || family == 2)
    && |e.source| == |e.destination| == (if family == 1 then 4 else 16)
    && e.sourcePort < 0x1_0000 && e.destinationPort < 0x1_0000
  }

  function Block(family: int, e: Endpoints): (r: Buffer)
    requires ValidEndpoints(family, e)
    ensures |r| == if family == 1 then 12 else 36
  {
    e.source + e.destination + U16(e.sourcePort) + U16(e.destinationPort)
  }

  /** A v2 header over TCP as section 2.2 of the HAProxy PROXY protocol document prints it, with extensions. */
  function PrintV2(family: int, e: Endpoints, extensions: Buffer): Buffer
    requires ValidEndpoints(family, e) && |extensions| < 0x1_0000 - 36
  {
    var n := |Block(family, e)| + |extensions|;
    V2_SIGNATURE + [0x21, (family * 16 + 1) as Byte] + U16(n) + (Block(family, e) + extensions)
  }

  function Formatted(family: int, e: Endpoints): Addresses
    requires ValidEndpoints(family, e)
  {
    if family == 1 then
      Addresses(DottedQuad(e.source), e.sourcePort, DottedQuad(e.destination), e.destinationPort)
    else
      Addresses(FormatIPv6(e.source), e.sourcePort, FormatIPv6(e.destination), e.destinationPort)
  }

  lemma FourParts(a: Buffer, b: Buffer, c: Buffer, d: Buffer, e: Buffer)
    requires |a| == |b| && |c| == |d| == 2
    ensures var (s, n) := (a + b + c + d + e, |a|);
            && s[..n] == a && s[n..n + n] == b
            && s[n + n] == c[0] && s[n + n + 1] == c[1] && s[n + n + 2] == d[0] && s[n + n + 3] == d[1]
  {
  }

  lemma BlockParses(family: int, e: Endpoints, extensions: Buffer)
    requires ValidEndpoints(family, e)
    ensures AddressBlock(family, Block(family, e) + extensions) == Some(Formatted(family, e))
  {
    FourParts(e.source, e.destination, U16(e.sourcePort), U16(e.destinationPort), extensions);
  }

  lemma HeadBodyTail(head: Buffer, body: Buffer, tail: Buffer)
    requires |head| == V2_MIN_HEADER
    ensures var data := head + body + tail;
            && (forall i :: 0 <= i < V2_MIN_HEADER ==> data[i] == head[i])
            && data[V2_MIN_HEADER..V2_MIN_HEADER + |body|] == body
            && data[V2_MIN_HEADER + |body|..] == tail
            && data[..12] == head[..12]
  {
  }

  /** A printed v2 header followed by anything parses to its endpoints and that tail iff it holds at most 216 bytes. */
  lemma V2RoundTrip(family: int, e: Endpoints, extensions: Buffer, tail: Buffer)
    requires ValidEndpoints(family, e) && |extensions| < 0x1_0000 - 36
    ensures var n := |Block(family, e)| + |extensions|;
            ParseProxyProtocol(PrintV2(family, e, extensions) + tail)
            == if n <= V2_MAX_ADDR_LENGTH then Some(Parsed(Some(Formatted(family, e)), tail)) else None
  {
    var body := Block(family, e) + extensions;
    var head := V2_SIGNATURE + [0x21, (family * 16 + 1) as Byte] + U16(|body|);
    HeadBodyTail(head, body, tail);
    assert head[..12] == V2_SIGNATURE;
    BlockParses(family, e, extensions);
  }
}
