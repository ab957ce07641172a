/**
 * What the capturing stream makes of incoming bytes, as a function of its carry-over buffer: the
 * specification of DataCapturingStream.ProcessIncomingData, and the theorems about it.
 */
module FrameCapture {
  import opened Common
  import opened FrameCodec

  /** Frames handed to the router so far, in order, and the carry-over buffer. */
  datatype Capture = Capture(routed: seq<Buffer>, partial: Buffer)

  const EMPTY: Capture := Capture([], [])

  /** The preface test runs on every chunk for as long as no stream-0 frame has been routed. */
  function SkipPreface(routed: seq<Buffer>, full: Buffer): Buffer {
    if !AnyGlobal(routed) && HasPreface(full) then full[|PREFACE|..] else full
  }

  function Feed(c: Capture, chunk: Buffer): Capture {
    var body := SkipPreface(c.routed, Glue(c.partial, chunk));
    Capture(Glue(c.routed, Frames(body)), Rest(body))
  }

  function FeedAll(c: Capture, chunks: seq<Buffer>): Capture
    decreases |chunks|
  {
    if chunks == [] then c else FeedAll(Feed(c, chunks[0]), chunks[1..])
  }

  /** The reference: everything in one piece. */
  function Whole(x: Buffer): Capture {
    Feed(EMPTY, x)
  }

  lemma WholeIs(x: Buffer)
    ensures var body := if HasPreface(x) then x[|PREFACE|..] else x;
            Whole(x) == Capture(Frames(body), Rest(body))
  {
  }

  // --- The exact condition under which chunking does not matter ---

  /** No frame boundary of `s` that comes before the first stream-0 frame is followed by a preface. */
  predicate NoLatePreface(s: Buffer)
    decreases |s|
  {
    && !HasPreface(s)
    && (HasFrame(s) && StreamIdOf(s) != 0 ==> NoLatePreface(s[FrameSize(s)..]))
  }

  predicate Unambiguous(x: Buffer) {
    if HasPreface(x) then NoLatePreface(x[|PREFACE|..]) else NoLatePreface(x)
  }

  /** A cut preface never reads as a frame: its length field is 0x505249, far more than 24 bytes. */
  lemma CutPrefaceIsNoFrame(y: Buffer)
    requires y <= PREFACE
    ensures !HasFrame(y)
  {
    if |y| >= FRAME_HEADER_SIZE {
      assert y[0] == PREFACE[0] && y[1] == PREFACE[1] && y[2] == PREFACE[2];
    }
  }

  /** While only other streams' frames have been seen, what remains is still free of a late preface. */
  lemma {:induction false} LatePrefaceCarriesOver(a: Buffer, b: Buffer)
    requires NoLatePreface(a + b)
    ensures !AnyGlobal(Frames(a)) ==> NoLatePreface(Rest(a) + b)
    decreases |a|
  {
    if HasFrame(a) {
      HeaderOfPrefix(a, b);
      HeaderOfFirst(a);
      var n := FrameSize(a);
      assert (a + b)[n..] == a[n..] + b;
      if StreamIdOf(a) != 0 {
        LatePrefaceCarriesOver(a[n..], b);
      }
    }
  }

  lemma FeedBodyExtends(y: Buffer, z: Buffer)
    requires NoLatePreface(y + z)
    ensures Feed(Capture(Frames(y), Rest(y)), z) == Capture(Frames(y + z), Rest(y + z))
  {
    FramesOfConcat(y, z);
    RestOfConcat(y, z);
    LatePrefaceCarriesOver(y, z);
    GlueIs(Rest(y), z);
    GlueIs(Frames(y), Frames(Rest(y) + z));
  }

  lemma FeedCompletesPreface(y: Buffer, z: Buffer)
    requires y <= PREFACE && !HasPreface(y) && HasPreface(y + z)
    ensures Feed(Whole(y), z) == Whole(y + z)
  {
    CutPrefaceIsNoFrame(y);
    WholeIs(y);
    WholeIs(y + z);
    GlueIs(y, z);
  }

  /** Going on after `y` is the same as having received `y + z` at once. */
  lemma FeedExtends(y: Buffer, z: Buffer)
    requires Unambiguous(y + z)
    ensures Feed(Whole(y), z) == Whole(y + z)
  {
    WholeIs(y);
    WholeIs(y + z);
    if HasPreface(y) {
      assert (y + z)[|PREFACE|..] == y[|PREFACE|..] + z;
      FeedBodyExtends(y[|PREFACE|..], z);
    } else if HasPreface(y + z) {
      FeedCompletesPreface(y, z);
    } else {
      FeedBodyExtends(y, z);
    }
  }

  lemma {:induction false} NoLatePrefaceOfPrefix(a: Buffer, b: Buffer)
    requires NoLatePreface(a + b)
    ensures NoLatePreface(a)
    decreases |a|
  {
    if HasFrame(a) && StreamIdOf(a) != 0 {
      HeaderOfPrefix(a, b);
      var n := FrameSize(a);
      assert (a + b)[n..] == a[n..] + b;
      NoLatePrefaceOfPrefix(a[n..], b);
    }
  }

  lemma UnambiguousPrefix(a: Buffer, b: Buffer)
    requires Unambiguous(a + b)
    ensures Unambiguous(a)
  {
    if HasPreface(a) {
      assert (a + b)[|PREFACE|..] == a[|PREFACE|..] + b;
      NoLatePrefaceOfPrefix(a[|PREFACE|..], b);
    } else if HasPreface(a + b) {
      CutPrefaceIsNoFrame(a);
    } else {
      NoLatePrefaceOfPrefix(a, b);
    }
  }

  lemma {:induction false} FeedAllFrom(y: Buffer, chunks: seq<Buffer>)
    requires Unambiguous(y + Concat(chunks))
    ensures FeedAll(Whole(y), chunks) == Whole(y + Concat(chunks))
    decreases |chunks|
  {
    if chunks == [] {
      assert y + Concat(chunks) == y;
    } else {
      assert y + Concat(chunks) == y + chunks[0] + Concat(chunks[1..]);
      UnambiguousPrefix(y + chunks[0], Concat(chunks[1..]));
      FeedExtends(y, chunks[0]);
      FeedAllFrom(y + chunks[0], chunks[1..]);
    }
  }

  lemma ChunkingIndependence(x: Buffer, chunks: seq<Buffer>)
    requires Unambiguous(x) && Concat(chunks) == x
    ensures FeedAll(EMPTY, chunks) == Whole(x)
  {
    GlueIs([], x);
    FeedAllFrom([], chunks);
  }

  // --- Conservation, and the converse ---

  function Bytes(c: Capture): nat {
    |Concat(c.routed)| + |c.partial|
  }

  /** One chunk adds exactly its bytes to what is held, less a preface when one is skipped. */
  lemma FeedConserves(c: Capture, chunk: Buffer)
    ensures Concat(Feed(c, chunk).routed) + Feed(c, chunk).partial
            == Concat(c.routed) + SkipPreface(c.routed, Glue(c.partial, chunk))
  {
    var body := SkipPreface(c.routed, Glue(c.partial, chunk));
    GlueIs(c.routed, Frames(body));
    ConcatAppend(c.routed, Frames(body));
    Assoc(Concat(c.routed), Concat(Frames(body)), Rest(body));
    FramesAndRest(body);
  }

  lemma BytesOfFeed(c: Capture, chunk: Buffer)
    ensures Bytes(Feed(c, chunk)) == |Concat(c.routed)| + |SkipPreface(c.routed, Glue(c.partial, chunk))|
  {
    FeedConserves(c, chunk);
    assert |Concat(Feed(c, chunk).routed) + Feed(c, chunk).partial| == Bytes(Feed(c, chunk));
  }

  /** For an unambiguous stream, preface, routed frames and carry-over are together the bytes received. */
  lemma Conservation(x: Buffer, chunks: seq<Buffer>)
    requires Unambiguous(x) && Concat(chunks) == x
    ensures var c := FeedAll(EMPTY, chunks);
            && x == (if HasPreface(x) then PREFACE else []) + Concat(c.routed) + c.partial
            && !HasFrame(c.partial)
  {
    ChunkingIndependence(x, chunks);
    WholeIs(x);
    var body := if HasPreface(x) then x[|PREFACE|..] else x;
    FramesAndRest(body);
    var skipped := if HasPreface(x) then PREFACE else [];
    assert x == skipped + body;
    Assoc(skipped, Concat(Frames(body)), Rest(body));
  }

  lemma OneFrameThen(f: Buffer, t: Buffer)
    requires IsFrame(f)
    ensures Frames(f + t) == [f] + Frames(t) && Rest(f + t) == Rest(t)
  {
    HeaderOfPrefix(f, t);
    assert (f + t)[..|f|] == f && (f + t)[|f|..] == t;
  }

  /**
   * A late preface splits `s` in two: whole frames, none of them on stream 0, and then the preface with
   * what follows it.
   */
  lemma {:induction false} LatePrefaceSplit(s: Buffer) returns (a: Buffer, b: Buffer)
    requires !NoLatePreface(s)
    ensures a + b == s && HasPreface(b)
    ensures !AnyGlobal(Frames(a)) && Rest(a) == []
    decreases |s|
  {
    if HasPreface(s) {
      a, b := [], s;
    } else {
      var f, t := s[..FrameSize(s)], s[FrameSize(s)..];
      var a';
      a', b := LatePrefaceSplit(t);
      a := f + a';
      HeaderOfFirst(s);
      OneFrameThen(f, a');
      Assoc(f, a', b);
      SplitAt(s, FrameSize(s));
    }
  }

  lemma WholeAfterPreface(t: Buffer)
    ensures HasPreface(PREFACE + t) && Whole(PREFACE + t) == Capture(Frames(t), Rest(t))
  {
    assert (PREFACE + t)[..|PREFACE|] == PREFACE && (PREFACE + t)[|PREFACE|..] == t;
  }

  /** The same split of an ambiguous stream, after the preface it may start with. */
  lemma AmbiguousParts(x: Buffer) returns (a: Buffer, b: Buffer)
    requires !Unambiguous(x)
    ensures a + b == x && HasPreface(b)
    ensures Whole(a).partial == [] && !AnyGlobal(Whole(a).routed)
    ensures HasPreface(x) <==> HasPreface(a)
  {
    if HasPreface(x) {
      var a';
      a', b := LatePrefaceSplit(x[|PREFACE|..]);
      a := PREFACE + a';
      Assoc(PREFACE, a', b);
      SplitAt(x, |PREFACE|);
      WholeAfterPreface(a');
    } else {
      a, b := LatePrefaceSplit(x);
      PrefaceInFront(a, b);
    }
  }

  lemma PrefaceInFront(a: Buffer, b: Buffer)
    ensures HasPreface(a) ==> HasPreface(a + b)
  {
    if HasPreface(a) {
      assert (a + b)[..|PREFACE|] == a[..|PREFACE|];
    }
  }

  /** Cutting an ambiguous stream at its late preface loses 24 bytes that the whole stream would keep. */
  lemma AmbiguousSplit(x: Buffer) returns (chunks: seq<Buffer>)
    requires !Unambiguous(x)
    ensures Concat(chunks) == x && FeedAll(EMPTY, chunks) != Whole(x)
  {
    var a, b := AmbiguousParts(x);
    chunks := [a, b];
    ConcatTwo(a, b);
    FeedTwo(a, b);
    BytesOfWhole(a);
    BytesOfFeed(Whole(a), b);
    BytesOfWhole(x);
    assert |x| == |a| + |b|;
  }

  lemma BytesOfWhole(x: Buffer)
    ensures Bytes(Whole(x)) == if HasPreface(x) then |x| - |PREFACE| else |x|
  {
    BytesOfFeed(EMPTY, x);
  }

  lemma FeedTwo(a: Buffer, b: Buffer)
    ensures FeedAll(EMPTY, [a, b]) == Feed(Whole(a), b)
  {
    var two: seq<Buffer> := [a, b];
    assert two[1..] == [b];
    var one: seq<Buffer> := [b];
    assert FeedAll(Whole(a), one) == FeedAll(Feed(Whole(a), b), one[1..]);
  }

  /** Main theorem: what is captured depends only on the bytes exactly when the stream is unambiguous. */
  lemma ChunkingIndependenceExact(x: Buffer)
    ensures (forall chunks: seq<Buffer> :: Concat(chunks) == x ==> FeedAll(EMPTY, chunks) == Whole(x))
            <==> Unambiguous(x)
  {
    if Unambiguous(x) {
      forall chunks: seq<Buffer> | Concat(chunks) == x
        ensures FeedAll(EMPTY, chunks) == Whole(x)
      {
        ChunkingIndependence(x, chunks);
      }
    } else {
      var chunks := AmbiguousSplit(x);
    }
  }

  // --- Frame round trip ---

  /** Only a frame on stream 0x20485454 with a payload of 0x505249 bytes can look like the preface. */
  predicate LooksLikePreface(f: Frame) {
    ValidFrame(f) && HasPreface(Encode(f))
  }

  /** No look-alike before the first frame on stream 0. */
  predicate NoLookalike(fs: seq<Frame>) {
    fs == [] || (!LooksLikePreface(fs[0]) && (fs[0].streamId != 0 ==> NoLookalike(fs[1..])))
  }

  lemma LookalikeIsNotGlobal(f: Frame)
    requires LooksLikePreface(f)
    ensures f.streamId == 0x2048_5454 && |f.payload| == 0x50_5249
  {
    var s := Encode(f);
    DecodeEncode(f);
    assert forall i :: 0 <= i < |PREFACE| ==> s[i] == PREFACE[i];
  }

  lemma PrefaceOfEncoding(f: Frame, rest: Buffer)
    requires ValidFrame(f)
    ensures HasPreface(Encode(f) + rest) <==> LooksLikePreface(f)
  {
    var s := Encode(f);
    if HasPreface(s + rest) && |s| < |PREFACE| {
      assert forall i :: 0 <= i < |s| ==> s[i] == PREFACE[i];
      assert s <= PREFACE;
      CutPrefaceIsNoFrame(s);
      DecodeEncode(f);
    } else if |s| >= |PREFACE| {
      assert (s + rest)[..|PREFACE|] == s[..|PREFACE|];
    }
  }

  lemma {:induction false} LookalikeExact(fs: seq<Frame>)
    requires forall f :: f in fs ==> ValidFrame(f)
    ensures NoLatePreface(Concat(EncodeEach(fs))) <==> NoLookalike(fs)
  {
    if fs != [] {
      var first, rest := Encode(fs[0]), Concat(EncodeEach(fs[1..]));
      assert Concat(EncodeEach(fs)) == first + rest;
      DecodeEncode(fs[0]);
      HeaderOfPrefix(first, rest);
      PrefaceOfEncoding(fs[0], rest);
      assert (first + rest)[|first|..] == rest;
      LookalikeExact(fs[1..]);
    }
  }

  function Serialise(fs: seq<Frame>): Buffer
    requires forall f :: f in fs ==> ValidFrame(f)
  {
    PREFACE + Concat(EncodeEach(fs))
  }

  lemma SerialiseFacts(fs: seq<Frame>)
    requires forall f :: f in fs ==> ValidFrame(f)
    ensures Unambiguous(Serialise(fs)) <==> NoLookalike(fs)
    ensures Whole(Serialise(fs)) == Capture(EncodeEach(fs), [])
  {
    var x := Serialise(fs);
    assert x[|PREFACE|..] == Concat(EncodeEach(fs));
    WholeAfterPreface(Concat(EncodeEach(fs)));
    LookalikeExact(fs);
    FramesOfEncoding(fs);
  }

  /** Serialised frames come back exactly, under every chunking, if and only if none looks like a preface. */
  lemma FrameRoundTrip(fs: seq<Frame>)
    requires forall f :: f in fs ==> ValidFrame(f)
    ensures (forall chunks: seq<Buffer> :: Concat(chunks) == Serialise(fs)
                              ==> FeedAll(EMPTY, chunks) == Capture(EncodeEach(fs), []))
            <==> NoLookalike(fs)
  {
    SerialiseFacts(fs);
    ChunkingIndependenceExact(Serialise(fs));
  }

  /** A conforming client sends SETTINGS first, and that is on stream 0: then the round trip holds. */
  lemma FirstOnStreamZero(fs: seq<Frame>, chunks: seq<Buffer>)
    requires forall f :: f in fs ==> ValidFrame(f)
    requires fs != [] ==> fs[0].streamId == 0
    requires Concat(chunks) == Serialise(fs)
    ensures FeedAll(EMPTY, chunks) == Capture(EncodeEach(fs), [])
  {
    if fs != [] && LooksLikePreface(fs[0]) {
      LookalikeIsNotGlobal(fs[0]);
    }
    FrameRoundTrip(fs);
  }
}
