/**
 * Which addresses a connection gets: exactly those of the header its bytes start with, whatever the chunks, and none
 * from any other header.
 */
module ProxyAddresses {
  import opened Common
  import opened JsStrings
  import opened Numerals
  import opened ProxyProtocol
  import opened ProxyRoundTrip
  import opened ProxyStage

  // --- TCP6 texts ---

  predicate HexText(s: string) {
    forall i :: 0 <= i < |s| ==> IsHexDigit(s[i])
  }

  /** Groups of hexadecimal digits, possibly empty, as in the text form of an IPv6 address. */
  predicate HexGroups(groups: seq<string>) {
    |groups| >= 2 && forall i :: 0 <= i < |groups| ==> HexText(groups[i])
  }

  /** TCP6 validation accepts exactly the texts of up to 45 characters that are hexadecimal groups between colons. */
  lemma Tcp6Exact(addr: string)
    ensures IsValidAddress(addr, "TCP6") <==>
      |addr| <= 45 && exists groups :: HexGroups(groups) && addr == Join(groups, ":")
  {
    if IsValidAddress(addr, "TCP6") {
      var groups := Split(addr, ":");
      JoinSplit(addr, ":");
      HasOne(addr, ':');
      forall i | 0 <= i < |groups|
        ensures HexText(groups[i])
      {
        GroupIsHex(addr, groups[i]);
      }
      assert HexGroups(groups);
    }
    forall groups | HexGroups(groups) && addr == Join(groups, ":") && |addr| <= 45
      ensures IsValidAddress(addr, "TCP6")
    {
      GroupsAreValid(groups);
    }
  }

  lemma GroupIsHex(addr: string, group: string)
    requires group in Split(addr, ":") && forall i :: 0 <= i < |addr| ==> IsColonHex(addr[i])
    ensures HexText(group)
  {
    var at := PieceAt(addr, ":", group);
    PiecesHoldNo(addr, ':', group);
    forall i | 0 <= i < |group|
      ensures IsHexDigit(group[i])
    {
      assert addr[at..at + |group|][i] == addr[at + i];
    }
  }

  lemma GroupsAreValid(groups: seq<string>)
    requires HexGroups(groups)
    ensures ':' in Join(groups, ":") && forall i :: 0 <= i < |Join(groups, ":")| ==> IsColonHex(Join(groups, ":")[i])
  {
    var addr := Join(groups, ":");
    assert addr[|groups[0]|] == ':';
    forall i | 0 <= i < |addr| && addr[i] != ':'
      ensures IsColonHex(addr[i])
    {
      JoinElement(groups, ":", addr[i]);
      var k :| 0 <= k < |groups| && addr[i] in groups[k];
    }
  }

  // --- Version 1 ---

  /** The fields of a header line: two addresses of the protocol, and two texts that read as ports. */
  predicate ReadsAs(protocol: string, a: Addresses, sourcePort: string, destinationPort: string) {
    && ValidHeader(protocol, a)
    && ParseInt(sourcePort) == Some(a.sourcePort) && ParseInt(destinationPort) == Some(a.destinationPort)
    && ' ' !in sourcePort && ' ' !in destinationPort
  }

  function LineOf(protocol: string, a: Addresses, sourcePort: string, destinationPort: string): string {
    Join(["PROXY", protocol, a.source, a.destination, sourcePort, destinationPort], " ")
  }

  /** Some fields make this line, and they give these addresses. */
  ghost predicate Says(line: string, a: Addresses) {
    exists protocol, sourcePort, destinationPort ::
      ReadsAs(protocol, a, sourcePort, destinationPort) && line == LineOf(protocol, a, sourcePort, destinationPort)
  }

  lemma FieldsOfLine(protocol: string, a: Addresses, sourcePort: string, destinationPort: string)
    requires ReadsAs(protocol, a, sourcePort, destinationPort)
    ensures Split(LineOf(protocol, a, sourcePort, destinationPort), " ") ==
      ["PROXY", protocol, a.source, a.destination, sourcePort, destinationPort]
  {
    var fields := ["PROXY", protocol, a.source, a.destination, sourcePort, destinationPort];
    AddressChars(a.source, protocol);
    AddressChars(a.destination, protocol);
    SplittableOne(fields, ' ');
    SplitJoinExact(fields, " ");
  }

  lemma {:induction false} PiecesHoldNo(s: string, c: char, piece: string)
    requires piece in Split(s, [c])
    ensures c !in piece
    decreases |s|
  {
    var f := Find(s, [c], 0);
    if f.None? {
      HasOne(s, c);
    } else if piece == s[..f.value] {
      FindFirst(s, [c], 0);
      forall j | 0 <= j < f.value
        ensures piece[j] != c
      {
        assert !At(s, [c], j) && s[j..j + 1] == [s[j]];
      }
    } else {
      PiecesHoldNo(s[f.value + 1..], c, piece);
    }
  }

  lemma SixParts(parts: seq<string>)
    requires |parts| == 6
    ensures parts == [parts[0], parts[1], parts[2], parts[3], parts[4], parts[5]]
  {
  }

  lemma LineSays(line: string, remaining: Buffer, a: Addresses)
    requires ParseLine(Split(line, " "), remaining).addresses == Some(a)
    ensures Says(line, a)
  {
    var parts := Split(line, " ");
    SixParts(parts);
    JoinSplit(line, " ");
    PiecesHoldNo(line, ' ', parts[4]);
    PiecesHoldNo(line, ' ', parts[5]);
    assert ReadsAs(parts[1], a, parts[4], parts[5]);
  }

  lemma SaidLine(protocol: string, a: Addresses, sourcePort: string, destinationPort: string, remaining: Buffer)
    requires ReadsAs(protocol, a, sourcePort, destinationPort)
    ensures var line := LineOf(protocol, a, sourcePort, destinationPort);
      ParseLine(Split(line, " "), remaining) == Parsed(Some(a), remaining)
  {
    FieldsOfLine(protocol, a, sourcePort, destinationPort);
  }

  /** A header line gives addresses exactly when it is made of the fields that say them. */
  lemma LineExactly(line: string, remaining: Buffer, a: Addresses)
    ensures ParseLine(Split(line, " "), remaining).addresses == Some(a) <==> Says(line, a)
  {
    if ParseLine(Split(line, " "), remaining).addresses == Some(a) {
      LineSays(line, remaining, a);
    }
    if protocol, sourcePort, destinationPort :|
      ReadsAs(protocol, a, sourcePort, destinationPort) && line == LineOf(protocol, a, sourcePort, destinationPort)
    {
      SaidLine(protocol, a, sourcePort, destinationPort, remaining);
    }
  }

  /** The first line end within 109 bytes stands after n bytes. */
  predicate LineEnds(x: Buffer, n: nat) {
    && n + 2 <= |x| && n + 2 <= 109 && x[n] == 0x0D && x[n + 1] == 0x0A
    && forall j :: 0 <= j < n ==> x[j] != 0x0D || x[j + 1] != 0x0A
  }

  lemma CrlfAt(x: Buffer, n: nat, j: nat)
    requires n <= |x|
    ensures At(x[..n], CRLF, j) <==> j + 2 <= n && x[j] == 0x0D && x[j + 1] == 0x0A
  {
    if j + 2 <= n {
      assert x[..n][j..j + 2] == [x[j], x[j + 1]];
    }
  }

  lemma LineEndExactly(x: Buffer, n: nat)
    ensures LineEnd(x) == Some(n) <==> LineEnds(x, n)
  {
    var limit := Min(|x|, V1_MAX_LENGTH);
    forall j: nat
      ensures At(x[..limit], CRLF, j) <==> j + 2 <= limit && x[j] == 0x0D && x[j + 1] == 0x0A
    {
      CrlfAt(x, limit, j);
    }
    if LineEnd(x) == Some(n) {
      FindFirst(x[..limit], CRLF, 0);
    }
    if LineEnds(x, n) {
      forall j: nat | j < n
        ensures !At(x[..limit], CRLF, j)
      {
        assert x[j] != 0x0D || x[j + 1] != 0x0A;
      }
      FindIs(x[..limit], CRLF, 0, n);
    }
  }

  /** The bytes start with a v1 header that says a. */
  ghost predicate V1Says(x: Buffer, a: Addresses) {
    StartsWith(x, V1_SIGNATURE) && exists n: nat :: LineEnds(x, n) && Says(Ascii(x[..n]), a)
  }

  lemma V1Parsed(x: Buffer, a: Addresses)
    requires StartsWith(x, V1_SIGNATURE) && ParseV1(x).Some? && ParseV1(x).value.addresses == Some(a)
    ensures V1Says(x, a)
  {
    var n := LineEnd(x).value;
    LineEndExactly(x, n);
    LineExactly(Ascii(x[..n]), x[n + 2..], a);
  }

  lemma V1Said(x: Buffer, a: Addresses)
    requires V1Says(x, a)
    ensures ParseV1(x).Some? && ParseV1(x).value.addresses == Some(a)
  {
    var n: nat :| LineEnds(x, n) && Says(Ascii(x[..n]), a);
    LineEndExactly(x, n);
    LineExactly(Ascii(x[..n]), x[n + 2..], a);
  }

  // --- Version 2 ---

  /** The bytes are a printed v2 header for these endpoints, and something after it. */
  predicate V2Header(x: Buffer, family: int, e: Endpoints, extensions: Buffer, tail: Buffer) {
    && ValidEndpoints(family, e) && |Block(family, e)| + |extensions| <= V2_MAX_ADDR_LENGTH
    && x == PrintV2(family, e, extensions) + tail
  }

  ghost predicate V2Says(x: Buffer, a: Addresses) {
    exists family, e, extensions, tail :: V2Header(x, family, e, extensions, tail) && a == Formatted(family, e)
  }

  predicate HoldsEndpoints(family: int, block: Buffer) {
    (family == 1 && |block| >= 12) || (family == 2 && |block| >= 36)
  }

  function EndpointsOf(family: int, block: Buffer): Endpoints
    requires HoldsEndpoints(family, block)
  {
    var n := if family == 1 then 4 else 16;
    Endpoints(block[..n], Join2(block[n + n], block[n + n + 1]),
              block[n..n + n], Join2(block[n + n + 2], block[n + n + 3]))
  }

  lemma U16OfJoin(a: Byte, b: Byte)
    ensures U16(Join2(a, b)) == [a, b]
  {
  }

  lemma BlockOf(family: int, block: Buffer)
    requires HoldsEndpoints(family, block)
    ensures var e := EndpointsOf(family, block);
      ValidEndpoints(family, e) && Block(family, e) + block[|Block(family, e)|..] == block
  {
    var n := if family == 1 then 4 else 16;
    U16OfJoin(block[n + n], block[n + n + 1]);
    U16OfJoin(block[n + n + 2], block[n + n + 3]);
    var e := EndpointsOf(family, block);
    assert Block(family, e) == block[..n + n + 4];
  }

  lemma HeaderSplits(x: Buffer, n: nat)
    requires V2_MIN_HEADER + n <= |x|
    ensures x == x[..12] + [x[12], x[13]] + [x[14], x[15]] + x[V2_MIN_HEADER..V2_MIN_HEADER + n]
                 + x[V2_MIN_HEADER + n..]
  {
  }

  /** A header that gives addresses is a printed one. */
  lemma ParsedWasPrinted(x: Buffer, a: Addresses)
    requires StartsWith(x, V2_SIGNATURE) && ParseV2(x).Some? && ParseV2(x).value.addresses == Some(a)
    ensures V2Says(x, a)
  {
    var family, n := x[13] as int / 16, Join2(x[14], x[15]);
    var block, tail := x[V2_MIN_HEADER..V2_MIN_HEADER + n], x[V2_MIN_HEADER + n..];
    BlockOf(family, block);
    var e := EndpointsOf(family, block);
    var extensions := block[|Block(family, e)|..];
    U16OfJoin(x[14], x[15]);
    HeaderSplits(x, n);
    BlockParses(family, e, extensions);
    assert V2Header(x, family, e, extensions, tail);
  }

  lemma PrintedV2Starts(family: int, e: Endpoints, extensions: Buffer, tail: Buffer)
    requires ValidEndpoints(family, e) && |extensions| < 0x1_0000 - 36
    ensures StartsWith(PrintV2(family, e, extensions) + tail, V2_SIGNATURE)
  {
    var x := PrintV2(family, e, extensions) + tail;
    assert x[..12] == V2_SIGNATURE;
  }

  /** The two signatures as texts. */
  lemma SignatureTexts()
    ensures V1_SIGNATURE == ToBytes("PROXY ") && V2_SIGNATURE == ToBytes("\r\n\r\n\0\r\nQUIT\n")
  {
    assert |V2_SIGNATURE| == |"\r\n\r\n\0\r\nQUIT\n"|;
  }

  // --- Every stream ---

  /** The bytes start with a header that says a. */
  ghost predicate SaysAddresses(x: Buffer, a: Addresses) {
    V1Says(x, a) || V2Says(x, a)
  }

  lemma ParsedExactly(x: Buffer, a: Addresses)
    ensures (var r := ParseProxyProtocol(x); r.Some? && r.value.addresses == Some(a)) <==> SaysAddresses(x, a)
  {
    Exclusive(x);
    var r := ParseProxyProtocol(x);
    if r.Some? && r.value.addresses == Some(a) {
      if Detect(x) == V1 {
        V1Parsed(x, a);
      } else {
        ParsedWasPrinted(x, a);
      }
    }
    if V1Says(x, a) {
      V1Said(x, a);
    }
    if family, e, extensions, tail :| V2Header(x, family, e, extensions, tail) && a == Formatted(family, e) {
      V2RoundTrip(family, e, extensions, tail);
    }
  }

  /** For every stream: the connection is passed on with addresses a if and only if it starts with a header saying a. */
  lemma AddressesExactly(x: Buffer, a: Addresses)
    ensures Decide(x).Passed? && Decide(x).addresses == Some(a) <==> SaysAddresses(x, a)
  {
    ParsedExactly(x, a);
    IncompleteIsShort(x);
  }

  /** And so for every division into chunks. */
  lemma AddressesOfRun(chunks: seq<Option<Buffer>>, a: Addresses)
    ensures (var s := Run([], chunks).stage; s.Passed? && s.addresses == Some(a)) <==>
      SaysAddresses(Bytes(chunks), a)
  {
    OutcomeDependsOnBytes(chunks);
    AddressesExactly(Bytes(chunks), a);
  }

  /** And for every object at all times. */
  lemma AddressesOfObject(p: ProxyFrontEnd, a: Addresses)
    requires p.Valid()
    ensures p.stage.Passed? && p.stage.addresses == Some(a) <==> SaysAddresses(Bytes(p.received), a)
  {
    p.StageOfBytes();
    AddressesExactly(Bytes(p.received), a);
  }

  /** A printed v1 header gives its addresses, and what follows it is handed on; a longer one is data. */
  lemma V1Passes(protocol: string, a: Addresses, tail: Buffer)
    requires ValidHeader(protocol, a)
    ensures var header := PrintV1(protocol, a);
      Decide(header + tail) == if |header| <= 109 then Passed(Some(a), tail) else Passed(None, header + tail)
  {
    V1RoundTrip(protocol, a, tail);
    DetectV1(protocol, a, tail);
  }

  /** A printed v2 header gives its addresses, and what follows it is handed on; a longer one is never accepted. */
  lemma V2Passes(family: int, e: Endpoints, extensions: Buffer, tail: Buffer)
    requires ValidEndpoints(family, e) && |extensions| < 0x1_0000 - 36
    ensures var x := PrintV2(family, e, extensions) + tail;
      Decide(x) == if |Block(family, e)| + |extensions| <= 216 then Passed(Some(Formatted(family, e)), tail)
                   else if |x| > 512 then Destroyed
                   else Waiting(x)
  {
    V2RoundTrip(family, e, extensions, tail);
    PrintedV2Starts(family, e, extensions, tail);
  }

  /** In any chunks: the addresses of the header, and between them what is handed on and what is unread are the rest. */
  lemma V1InChunks(protocol: string, a: Addresses, tail: Buffer, chunks: seq<Option<Buffer>>)
    requires ValidHeader(protocol, a) && |PrintV1(protocol, a)| <= 109
    requires Bytes(chunks) == PrintV1(protocol, a) + tail
    ensures var o := Run([], chunks);
      o.stage.Passed? && o.stage.addresses == Some(a) && o.stage.data + o.unread == tail
  {
    OutcomeDependsOnBytes(chunks);
    V1Passes(protocol, a, tail);
  }

  lemma V2InChunks(family: int, e: Endpoints, extensions: Buffer, tail: Buffer, chunks: seq<Option<Buffer>>)
    requires ValidEndpoints(family, e) && |Block(family, e)| + |extensions| <= 216
    requires Bytes(chunks) == PrintV2(family, e, extensions) + tail
    ensures var o := Run([], chunks);
      o.stage.Passed? && o.stage.addresses == Some(Formatted(family, e)) && o.stage.data + o.unread == tail
  {
    OutcomeDependsOnBytes(chunks);
    V2Passes(family, e, extensions, tail);
  }

  // --- Headers without addresses ---

  /**
   * A complete v2 header gives addresses exactly if its command is PROXY over a TCP stream and its address block is
   * large enough for its family. A LOCAL header, which a health check sends, gives none, whatever its block.
   */
  lemma V2AddressesExactly(x: Buffer)
    requires StartsWith(x, V2_SIGNATURE) && Decide(x).Passed?
    ensures |x| >= 16 && Decide(x).data == x[HeaderLength(x)..]
    ensures Decide(x).addresses.Some? <==>
      x[12] == 0x21 && (var n := Join2(x[14], x[15]); (x[13] == 0x11 && n >= 12) || (x[13] == 0x21 && n >= 36))
  {
    HeaderStripped(x);
    ParseV2None(x);
  }
}
