/** The whole output of an echo, line by line, in terms of what the client sent before and after it registered. */
module EchoOrder {
  import opened Common
  import opened FrameCodec
  import opened FrameCapture
  import opened FrameHistory
  import opened EchoEndpoint

  /** A frame as it is reported; frames of the request's own stream carry the request. */
  function LineOf(f: Frame): Line {
    Line(ParsedFrame(f.streamId, f.kind, f.flags, |f.payload|, f.payload), f.streamId != 0)
  }

  /** The lines for the frames on these streams, in the order in which they were sent. */
  function LinesOn(fs: seq<Frame>, streams: set<nat>): seq<Line> {
    if fs == [] then []
    else
      var f, before := fs[|fs| - 1], LinesOn(fs[..|fs| - 1], streams);
      if f.streamId in streams then before + [LineOf(f)] else before
  }

  lemma ValidParts(fs: seq<Frame>, n: nat)
    requires (forall f :: f in fs ==> ValidFrame(f)) && n <= |fs|
    ensures forall f :: f in fs[..n] ==> ValidFrame(f)
    ensures forall f :: f in fs[n..] ==> ValidFrame(f)
  {
  }

  lemma {:induction false} EncodeSnoc(fs: seq<Frame>)
    requires fs != [] && forall f :: f in fs ==> ValidFrame(f)
    requires forall f :: f in fs[..|fs| - 1] ==> ValidFrame(f)
    ensures EncodeEach(fs) == EncodeEach(fs[..|fs| - 1]) + [Encode(fs[|fs| - 1])]
  {
    var before, rest := fs[..|fs| - 1], fs[1..];
    if rest == [] {
      assert EncodeEach(rest) == [] && EncodeEach(before) == [];
    } else {
      assert before[1..] == rest[..|rest| - 1];
      ValidParts(rest, |rest| - 1);
      EncodeSnoc(rest);
      Assoc([Encode(fs[0])], EncodeEach(before[1..]), [Encode(fs[|fs| - 1])]);
    }
  }

  lemma LinesSnoc(fs: seq<Frame>, streams: set<nat>)
    requires fs != []
    ensures var f := fs[|fs| - 1];
      LinesOn(fs, streams) == LinesOn(fs[..|fs| - 1], streams) + if f.streamId in streams then [LineOf(f)] else []
  {
  }

  lemma StreamStep(frames: seq<Buffer>, f: Frame, t: nat)
    requires ValidFrame(f)
    ensures Lines(OnlyStream(frames + [Encode(f)], t), t != 0) ==
      Lines(OnlyStream(frames, t), t != 0) + if f.streamId == t then [LineOf(f)] else []
  {
    DecodeEncode(f);
    assert (frames + [Encode(f)])[..|frames|] == frames;
    var kept := OnlyStream(frames, t);
    assert (kept + [Encode(f)])[..|kept|] == kept;
  }

  lemma {:induction false} LinesOfStream(fs: seq<Frame>, t: nat)
    requires forall f :: f in fs ==> ValidFrame(f)
    ensures Lines(OnlyStream(EncodeEach(fs), t), t != 0) == LinesOn(fs, {t})
  {
    if fs != [] {
      ValidParts(fs, |fs| - 1);
      EncodeSnoc(fs);
      LinesOfStream(fs[..|fs| - 1], t);
      StreamStep(EncodeEach(fs[..|fs| - 1]), fs[|fs| - 1], t);
      LinesSnoc(fs, {t});
    }
  }

  /** The frames of the stream and of stream 0 that these events route. */
  lemma {:induction false} RelevantOf(h: seq<Event>, s: nat)
    requires WellRouted(h)
    ensures Relevant(h, s) == Concerning(RoutedFrames(h), s)
  {
    if h != [] {
      var before := h[..|h| - 1];
      RelevantOf(before, s);
      if h[|h| - 1].Routed? {
        var frames := RoutedFrames(before);
        assert (frames + [h[|h| - 1].frame])[..|frames|] == frames;
      }
    }
  }

  function Concerning(frames: seq<Buffer>, s: nat): seq<Buffer> {
    if frames == [] then []
    else
      var f, before := frames[|frames| - 1], Concerning(frames[..|frames| - 1], s);
      if |f| >= FRAME_HEADER_SIZE && (StreamIdOf(f) == 0 || StreamIdOf(f) == s) then before + [f] else before
  }

  lemma CallbackSnoc(kept: seq<Buffer>, f: Frame, s: nat)
    requires ValidFrame(f) && s != 0 && (f.streamId == 0 || f.streamId == s)
    ensures CallbackLines(kept + [Encode(f)], s) == CallbackLines(kept, s) + [LineOf(f)]
  {
    DecodeEncode(f);
    assert (kept + [Encode(f)])[..|kept|] == kept;
  }

  lemma ConcerningSnoc(frames: seq<Buffer>, f: Frame, s: nat)
    requires ValidFrame(f)
    ensures Concerning(frames + [Encode(f)], s) ==
      if f.streamId == 0 || f.streamId == s then Concerning(frames, s) + [Encode(f)] else Concerning(frames, s)
  {
    DecodeEncode(f);
    assert (frames + [Encode(f)])[..|frames|] == frames;
  }

  lemma CallbackStep(frames: seq<Buffer>, f: Frame, s: nat)
    requires ValidFrame(f) && s != 0
    ensures CallbackLines(Concerning(frames + [Encode(f)], s), s) ==
      CallbackLines(Concerning(frames, s), s) + if f.streamId == 0 || f.streamId == s then [LineOf(f)] else []
  {
    ConcerningSnoc(frames, f, s);
    if f.streamId == 0 || f.streamId == s {
      CallbackSnoc(Concerning(frames, s), f, s);
    }
  }

  lemma {:induction false} CallbackLinesOf(fs: seq<Frame>, s: nat)
    requires s != 0 && forall f :: f in fs ==> ValidFrame(f)
    ensures CallbackLines(Concerning(EncodeEach(fs), s), s) == LinesOn(fs, {0, s})
  {
    if fs != [] {
      ValidParts(fs, |fs| - 1);
      EncodeSnoc(fs);
      CallbackLinesOf(fs[..|fs| - 1], s);
      CallbackStep(EncodeEach(fs[..|fs| - 1]), fs[|fs| - 1], s);
      LinesSnoc(fs, {0, s});
    }
  }

  lemma {:induction false} EncodedSuffix(fs: seq<Frame>, n: nat)
    requires (forall f :: f in fs ==> ValidFrame(f)) && n <= |fs|
    requires forall f :: f in fs[n..] ==> ValidFrame(f)
    ensures EncodeEach(fs[n..]) == EncodeEach(fs)[n..]
    decreases n
  {
    if n == 0 {
      assert fs[0..] == fs && EncodeEach(fs)[0..] == EncodeEach(fs);
    } else {
      var rest := fs[1..];
      assert rest[n - 1..] == fs[n..];
      EncodedSuffix(rest, n - 1);
      assert EncodeEach(fs) == [Encode(fs[0])] + EncodeEach(rest);
      assert EncodeEach(fs)[n..] == EncodeEach(rest)[n - 1..];
    }
  }

  lemma EncodedParts(fs: seq<Frame>, first: seq<Buffer>, second: seq<Buffer>)
    requires (forall f :: f in fs ==> ValidFrame(f)) && EncodeEach(fs) == first + second
    ensures |first| <= |fs|
    ensures forall f :: f in fs[..|first|] ==> ValidFrame(f)
    ensures forall f :: f in fs[|first|..] ==> ValidFrame(f)
    ensures EncodeEach(fs[..|first|]) == first && EncodeEach(fs[|first|..]) == second
  {
    EncodedPrefix(fs, first, second);
    ValidParts(fs, |first|);
    EncodedSuffix(fs, |first|);
    assert (first + second)[|first|..] == second;
  }

  /**
   * Main theorem. The output is the stream-0 frames sent before the echo registered, then the frames of its own stream
   * sent before that, and then every frame of either in the order in which the client sent them.
   */
  lemma EchoInOrder(fs: seq<Frame>, chunks: seq<Buffer>, pre: seq<Event>, s: nat, cb: Callback, post: seq<Event>)
    requires (forall f :: f in fs ==> ValidFrame(f)) && NoLookalike(fs)
    requires Concat(chunks) == Serialise(fs)
    requires s != 0 && LastControl(pre, s).None? && Uncontrolled(post, s)
    requires WellRouted(pre + [Added(s, cb)] + post)
    requires RoutedFrames(pre + [Added(s, cb)] + post) == FeedAll(EMPTY, chunks).routed
    ensures var n := |RoutedFrames(pre)|;
      && n <= |fs|
      && Output(pre, s, post) == LinesOn(fs[..n], {0}) + LinesOn(fs[..n], {s}) + LinesOn(fs[n..], {0, s})
  {
    var h := pre + [Added(s, cb)] + post;
    FrameRoundTrip(fs);
    RoutedFramesConcat(pre + [Added(s, cb)], post);
    RoutedFramesConcat(pre, [Added(s, cb)]);
    assert RoutedFrames([Added(s, cb)]) == [];
    EncodedParts(fs, RoutedFrames(pre), RoutedFrames(post));
    var n := |RoutedFrames(pre)|;
    assert WellRouted(pre) by {
      forall i | 0 <= i < |pre| ensures pre[i] == h[i] {}
    }
    assert WellRouted(post) by {
      forall i | 0 <= i < |post| ensures post[i] == h[|pre| + 1 + i] {}
    }
    StreamOfRouted(pre, 0);
    StreamOfRouted(pre, s);
    OwedUntouched(pre, s);
    LinesOfStream(fs[..n], 0);
    LinesOfStream(fs[..n], s);
    RelevantOf(post, s);
    CallbackLinesOf(fs[n..], s);
  }
}
