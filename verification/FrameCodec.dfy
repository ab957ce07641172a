/** The HTTP/2 frame layout (section 4.1 of RFC 9113) and the connection preface (section 3.4 of RFC 9113). */
module FrameCodec {
  import opened Common

  const FRAME_HEADER_SIZE: nat := 9

  const PREFACE: Buffer := [
    0x50, 0x52, 0x49, 0x20, 0x2A, 0x20, 0x48, 0x54, 0x54, 0x50, 0x2F, 0x32, 0x2E, 0x30,
    0x0D, 0x0A, 0x0D, 0x0A, 0x53, 0x4D, 0x0D, 0x0A, 0x0D, 0x0A]

  const PREFACE_TEXT := "PRI * HTTP/2.0\r\n\r\nSM\r\n\r\n"

  lemma PrefaceIsText()
    ensures |PREFACE| == |PREFACE_TEXT|
    ensures forall i :: 0 <= i < |PREFACE| ==> PREFACE[i] as int == PREFACE_TEXT[i] as int
  {
  }

  predicate HasPreface(s: Buffer) {
    |s| >= |PREFACE| && s[..|PREFACE|] == PREFACE
  }

  datatype FrameHeader = FrameHeader(length: nat, kind: Byte, flags: Byte, streamId: nat)

  /** The header at `offset`, or nothing while fewer than nine bytes are there. */
  function ParseFrameHeader(data: Buffer, offset: nat): (r: Option<FrameHeader>)
    ensures r.Some? <==> offset + FRAME_HEADER_SIZE <= |data|
    ensures r.Some? ==> r.value.length < 0x100_0000 && r.value.streamId < 0x8000_0000
  {
    if offset + FRAME_HEADER_SIZE > |data| then None
    else
      Some(FrameHeader(
             Join3(data[offset], data[offset + 1], data[offset + 2]),
             data[offset + 3],
             data[offset + 4],
             Join31(data[offset + 5], data[offset + 6], data[offset + 7], data[offset + 8])))
  }

  /** What the echo endpoint reports about one captured frame; it decodes the buffer on its own. */
  datatype ParsedFrame = ParsedFrame(streamId: nat, kind: Byte, flags: Byte, length: nat, payload: Buffer)

  /** Bit operations read a byte beyond the buffer as 0. */
  function ByteAt(s: Buffer, i: nat): Byte {
    if i < |s| then s[i] else 0
  }

  function FrameToOutput(frame: Buffer): ParsedFrame {
    var length := Join3(ByteAt(frame, 0), ByteAt(frame, 1), ByteAt(frame, 2));
    var payload := if |frame| <= 9 then [] else if |frame| <= 9 + length then frame[9..] else frame[9..9 + length];
    ParsedFrame(
      Join31(ByteAt(frame, 5), ByteAt(frame, 6), ByteAt(frame, 7), ByteAt(frame, 8)),
      ByteAt(frame, 3), ByteAt(frame, 4), length, payload)
  }

  // --- Splitting a byte string into whole frames ---

  function FrameSize(s: Buffer): nat
    requires |s| >= FRAME_HEADER_SIZE
  {
    FRAME_HEADER_SIZE + ParseFrameHeader(s, 0).value.length
  }

  /** A whole frame sits at the front of `s`. */
  predicate HasFrame(s: Buffer) {
    |s| >= FRAME_HEADER_SIZE && FrameSize(s) <= |s|
  }

  /** One frame and nothing else. */
  predicate IsFrame(s: Buffer) {
    |s| >= FRAME_HEADER_SIZE && FrameSize(s) == |s|
  }

  function StreamIdOf(s: Buffer): nat
    requires |s| >= FRAME_HEADER_SIZE
  {
    ParseFrameHeader(s, 0).value.streamId
  }

  function Frames(s: Buffer): seq<Buffer>
    decreases |s|
  {
    if HasFrame(s) then [s[..FrameSize(s)]] + Frames(s[FrameSize(s)..]) else []
  }

  /** What is left after the last whole frame. */
  function Rest(s: Buffer): (r: Buffer)
    ensures !HasFrame(r)
    decreases |s|
  {
    if HasFrame(s) then Rest(s[FrameSize(s)..]) else s
  }

  predicate AnyGlobal(fs: seq<Buffer>) {
    fs != [] && (IsGlobal(fs[0]) || AnyGlobal(fs[1..]))
  }

  predicate IsGlobal(f: Buffer) {
    |f| >= FRAME_HEADER_SIZE && StreamIdOf(f) == 0
  }

  // --- Facts about splitting ---

  lemma HeaderOfFirst(s: Buffer)
    requires HasFrame(s)
    ensures IsFrame(s[..FrameSize(s)]) && StreamIdOf(s[..FrameSize(s)]) == StreamIdOf(s)
  {
    var a := s[..FrameSize(s)];
    assert ParseFrameHeader(a, 0) == ParseFrameHeader(s, 0);
  }

  lemma {:induction false} FramesAreFrames(s: Buffer)
    ensures forall i :: 0 <= i < |Frames(s)| ==> IsFrame(Frames(s)[i])
    decreases |s|
  {
    if HasFrame(s) {
      HeaderOfFirst(s);
      FramesAreFrames(s[FrameSize(s)..]);
    }
  }

  lemma {:induction false} FramesAndRest(s: Buffer)
    ensures Concat(Frames(s)) + Rest(s) == s
    decreases |s|
  {
    if HasFrame(s) {
      var n := FrameSize(s);
      var tail := s[n..];
      FramesAndRest(tail);
      Assoc(s[..n], Concat(Frames(tail)), Rest(tail));
      SplitAt(s, n);
    }
  }

  /** The front of a longer string splits the same way. */
  lemma HeaderOfPrefix(a: Buffer, b: Buffer)
    requires |a| >= FRAME_HEADER_SIZE
    ensures ParseFrameHeader(a + b, 0) == ParseFrameHeader(a, 0)
    ensures FrameSize(a + b) == FrameSize(a)
    ensures HasFrame(a) ==> HasFrame(a + b)
  {
    assert forall i :: 0 <= i < |a| ==> (a + b)[i] == a[i];
  }

  lemma {:induction false} RestOfConcat(a: Buffer, b: Buffer)
    ensures Rest(a + b) == Rest(Rest(a) + b)
    decreases |a|
  {
    if HasFrame(a) {
      HeaderOfPrefix(a, b);
      var a' := a[FrameSize(a)..];
      assert (a + b)[FrameSize(a)..] == a' + b;
      RestOfConcat(a', b);
    }
  }

  lemma {:induction false} FramesOfConcat(a: Buffer, b: Buffer)
    ensures Frames(a + b) == Frames(a) + Frames(Rest(a) + b)
    decreases |a|
  {
    if HasFrame(a) {
      HeaderOfPrefix(a, b);
      var first, a' := a[..FrameSize(a)], a[FrameSize(a)..];
      assert (a + b)[FrameSize(a)..] == a' + b && (a + b)[..FrameSize(a)] == first;
      FramesOfConcat(a', b);
      Assoc([first], Frames(a'), Frames(Rest(a') + b));
    }
  }

  // --- The printer: section 4.1 of RFC 9113 with the reserved bit clear ---

  datatype Frame = Frame(kind: Byte, flags: Byte, streamId: nat, payload: Buffer)

  predicate ValidFrame(f: Frame) {
    |f.payload| < 0x100_0000 && f.streamId < 0x8000_0000
  }

  function Encode(f: Frame): (s: Buffer)
    requires ValidFrame(f)
    ensures |s| == FRAME_HEADER_SIZE + |f.payload|
  {
    var n := |f.payload|;
    var id := f.streamId;
    [(n / 0x1_0000) as Byte, (n / 0x100 % 0x100) as Byte, (n % 0x100) as Byte, f.kind, f.flags,
     (id / 0x100_0000) as Byte, (id / 0x1_0000 % 0x100) as Byte, (id / 0x100 % 0x100) as Byte, (id % 0x100) as Byte]
    + f.payload
  }

  function EncodeEach(fs: seq<Frame>): (r: seq<Buffer>)
    requires forall f :: f in fs ==> ValidFrame(f)
    ensures |r| == |fs| && forall i :: 0 <= i < |fs| ==> r[i] == Encode(fs[i])
  {
    if fs == [] then [] else [Encode(fs[0])] + EncodeEach(fs[1..])
  }

  /** Both decoders invert the printer: the capturing stream's header parser and the echo endpoint's. */
  lemma DecodeEncode(f: Frame)
    requires ValidFrame(f)
    ensures IsFrame(Encode(f))
    ensures ParseFrameHeader(Encode(f), 0) == Some(FrameHeader(|f.payload|, f.kind, f.flags, f.streamId))
    ensures FrameToOutput(Encode(f)) == ParsedFrame(f.streamId, f.kind, f.flags, |f.payload|, f.payload)
  {
    var s := Encode(f);
    var n := |f.payload|;
    Base256(n);
    Base256(f.streamId);
    assert f.streamId / 0x100_0000 < 0x80;
    assert s[9..] == f.payload;
  }

  lemma Base256(n: nat)
    ensures n / 0x1_0000 * 0x1_0000 + n / 0x100 % 0x100 * 0x100 + n % 0x100 == n
    ensures n / 0x100_0000 * 0x100_0000 + n / 0x1_0000 % 0x100 * 0x1_0000 == n / 0x1_0000 * 0x1_0000
  {
    var q, m := n / 0x100, n / 0x1_0000;
    DivideTwice(n);
    DivideThrice(n);
    assert n % 0x100 == n - q * 0x100;
    assert q % 0x100 == q - m * 0x100;
    assert m % 0x100 == m - n / 0x100_0000 * 0x100;
  }

  lemma DivideTwice(n: nat)
    ensures n / 0x100 / 0x100 == n / 0x1_0000
  {
  }

  lemma DivideThrice(n: nat)
    ensures n / 0x1_0000 / 0x100 == n / 0x100_0000
  {
  }

  lemma {:induction false} FramesOfEncoding(fs: seq<Frame>)
    requires forall f :: f in fs ==> ValidFrame(f)
    ensures Frames(Concat(EncodeEach(fs))) == EncodeEach(fs)
    ensures Rest(Concat(EncodeEach(fs))) == []
  {
    if fs != [] {
      var first, rest := Encode(fs[0]), Concat(EncodeEach(fs[1..]));
      DecodeEncode(fs[0]);
      FramesOfEncoding(fs[1..]);
      assert Concat(EncodeEach(fs)) == first + rest;
      HeaderOfPrefix(first, rest);
      assert (first + rest)[..|first|] == first && (first + rest)[|first|..] == rest;
    }
  }
}
