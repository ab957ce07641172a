/** The HTTP/2 echo endpoint: what it writes from the snapshot it is given and from later deliveries. */
module EchoEndpoint {
  import opened Common
  import opened FrameCodec
  import opened FrameCapture
  import opened FrameHistory

  /** One output line; lines about the request's own stream carry the request. */
  datatype Line = Line(frame: ParsedFrame, withRequest: bool)

  function Lines(frames: seq<Buffer>, withRequest: bool): seq<Line> {
    if frames == [] then []
    else Lines(frames[..|frames| - 1], withRequest) + [Line(FrameToOutput(frames[|frames| - 1]), withRequest)]
  }

  /** The registered callback: a stream-0 frame, a frame of its own stream, or nothing. */
  function CallbackLines(frames: seq<Buffer>, s: nat): seq<Line> {
    if frames == [] then []
    else
      var before, p := CallbackLines(frames[..|frames| - 1], s), FrameToOutput(frames[|frames| - 1]);
      if p.streamId == 0 then before + [Line(p, false)]
      else if p.streamId == s then before + [Line(p, true)]
      else before
  }

  /** The output for stream `s` once the callback has been run with `frames`, where it registered after `pre`. */
  function OutputWith(pre: seq<Event>, s: nat, frames: seq<Buffer>): seq<Line> {
    Lines(OnStream(pre, 0), false) + Lines(Owed(pre, s), true) + CallbackLines(frames, s)
  }

  /** All output for stream `s`, once every delivery scheduled for it has been run. */
  function Output(pre: seq<Event>, s: nat, post: seq<Event>): seq<Line> {
    OutputWith(pre, s, Relevant(post, s))
  }

  function Select(lines: seq<Line>, withRequest: bool): seq<ParsedFrame> {
    if lines == [] then []
    else
      var last, before := lines[|lines| - 1], Select(lines[..|lines| - 1], withRequest);
      if last.withRequest == withRequest then before + [last.frame] else before
  }

  function Decoded(frames: seq<Buffer>): seq<ParsedFrame> {
    if frames == [] then []
    else Decoded(frames[..|frames| - 1]) + [FrameToOutput(frames[|frames| - 1])]
  }

  /** What the client sent on stream `t`, as it should be reported. */
  function Sent(fs: seq<Frame>, t: nat): seq<ParsedFrame> {
    if fs == [] then []
    else
      var f, before := fs[|fs| - 1], Sent(fs[..|fs| - 1], t);
      if f.streamId == t then before + [ParsedFrame(f.streamId, f.kind, f.flags, |f.payload|, f.payload)] else before
  }

  lemma {:induction false} SelectAppend(a: seq<Line>, b: seq<Line>, withRequest: bool)
    ensures Select(a + b, withRequest) == Select(a, withRequest) + Select(b, withRequest)
    decreases |b|
  {
    if b == [] {
      assert a + b == a;
    } else {
      var b', last := b[..|b| - 1], b[|b| - 1];
      assert (a + b)[..|a + b| - 1] == a + b';
      SelectAppend(a, b', withRequest);
      Assoc(Select(a, withRequest), Select(b', withRequest), [last.frame]);
    }
  }

  lemma {:induction false} SelectLines(frames: seq<Buffer>, withRequest: bool)
    ensures Select(Lines(frames, withRequest), withRequest) == Decoded(frames)
    ensures Select(Lines(frames, withRequest), !withRequest) == []
  {
    if frames != [] {
      var frames' := frames[..|frames| - 1];
      SelectLines(frames', withRequest);
      SelectSnoc(Lines(frames', withRequest), Line(FrameToOutput(frames[|frames| - 1]), withRequest));
    }
  }

  lemma SameStreamId(f: Buffer)
    requires IsFrame(f)
    ensures FrameToOutput(f).streamId == StreamIdOf(f)
  {
  }

  lemma {:induction false} SelectCallback(frames: seq<Buffer>, s: nat)
    requires s != 0 && forall i :: 0 <= i < |frames| ==> IsFrame(frames[i])
    ensures Select(CallbackLines(frames, s), false) == Decoded(OnlyStream(frames, 0))
    ensures Select(CallbackLines(frames, s), true) == Decoded(OnlyStream(frames, s))
  {
    if frames != [] {
      var frames', last := frames[..|frames| - 1], frames[|frames| - 1];
      SelectCallback(frames', s);
      SameStreamId(last);
      SelectSnoc(CallbackLines(frames', s), Line(FrameToOutput(last), FrameToOutput(last).streamId != 0));
      DecodedSnoc(OnlyStream(frames', 0), last);
      DecodedSnoc(OnlyStream(frames', s), last);
    }
  }

  lemma SelectSnoc(lines: seq<Line>, l: Line)
    ensures Select(lines + [l], l.withRequest) == Select(lines, l.withRequest) + [l.frame]
    ensures Select(lines + [l], !l.withRequest) == Select(lines, !l.withRequest)
  {
    assert (lines + [l])[..|lines|] == lines;
  }

  lemma DecodedSnoc(frames: seq<Buffer>, f: Buffer)
    ensures Decoded(frames + [f]) == Decoded(frames) + [FrameToOutput(f)]
  {
    assert (frames + [f])[..|frames|] == frames;
  }

  lemma {:induction false} DecodedAppend(a: seq<Buffer>, b: seq<Buffer>)
    ensures Decoded(a + b) == Decoded(a) + Decoded(b)
    decreases |b|
  {
    if b == [] {
      assert a + b == a;
    } else {
      var b', last := b[..|b| - 1], FrameToOutput(b[|b| - 1]);
      assert (a + b)[..|a + b| - 1] == a + b';
      DecodedAppend(a, b');
      Assoc(Decoded(a), Decoded(b'), [last]);
    }
  }

  lemma {:induction false} StreamOfRouted(h: seq<Event>, t: nat)
    requires WellRouted(h)
    ensures OnStream(h, t) == OnlyStream(RoutedFrames(h), t)
  {
    if h != [] {
      StreamOfRouted(h[..|h| - 1], t);
      assert h[|h| - 1].Routed? ==> RoutedFrames(h)[..|RoutedFrames(h)| - 1] == RoutedFrames(h[..|h| - 1]);
    }
  }

  lemma {:induction false} SentOnStream(fs: seq<Frame>, t: nat)
    requires forall f :: f in fs ==> ValidFrame(f)
    ensures Decoded(OnlyStream(EncodeEach(fs), t)) == Sent(fs, t)
  {
    if fs != [] {
      var fs', last := fs[..|fs| - 1], fs[|fs| - 1];
      SentOnStream(fs', t);
      DecodeEncode(last);
      assert EncodeEach(fs)[..|fs| - 1] == EncodeEach(fs');
      DecodedSnoc(OnlyStream(EncodeEach(fs'), t), Encode(last));
    }
  }

  /** Frames of the stream or of stream 0. */
  predicate Concern(frames: seq<Buffer>, s: nat) {
    forall i :: 0 <= i < |frames| ==> IsFrame(frames[i]) && (StreamIdOf(frames[i]) == 0 || StreamIdOf(frames[i]) == s)
  }

  lemma {:induction false} RelevantAreFrames(h: seq<Event>, s: nat)
    requires WellRouted(h)
    ensures Concern(Relevant(h, s), s)
  {
    if h != [] {
      RelevantAreFrames(h[..|h| - 1], s);
    }
  }

  /** An echo reports what was routed in the run of its registration. */
  lemma EchoReports(fs: seq<Frame>, pre: seq<Event>, s: nat, cb: Callback, post: seq<Event>)
    requires forall f :: f in fs ==> ValidFrame(f)
    requires s != 0 && LastControl(pre, s).None? && Uncontrolled(post, s)
    requires WellRouted(pre + [Added(s, cb)] + post)
    requires RoutedFrames(pre + [Added(s, cb)] + post) == EncodeEach(fs)
    ensures Select(Output(pre, s, post), true) == Sent(fs, s)
    ensures Select(Output(pre, s, post), false) == Sent(fs, 0)
  {
    var h := pre + [Added(s, cb)] + post;
    ExactlyOnce(pre, s, cb, post);
    StreamOfRouted(h, s);
    StreamOfRouted(h, 0);
    SentOnStream(fs, s);
    SentOnStream(fs, 0);
    assert WellRouted(post) by {
      forall i | 0 <= i < |post| ensures post[i] == h[|pre| + 1 + i] {}
    }
    RelevantAreFrames(post, s);
    SelectOutput(pre, s, Relevant(post, s));
  }

  /**
   * End to end. A client's frames arrive in any chunks; readers of any streams register, stop and leave in
   * any order around them. An echo that registers once for its stream, untouched until then, reports every
   * frame of that stream and every stream-0 frame, each decoded to what was sent, once and in order,
   * when all its deliveries have been run.
   */
  lemma EchoReportsEverything(fs: seq<Frame>, chunks: seq<Buffer>,
                              pre: seq<Event>, s: nat, cb: Callback, post: seq<Event>)
    requires (forall f :: f in fs ==> ValidFrame(f)) && NoLookalike(fs)
    requires Concat(chunks) == Serialise(fs)
    requires s != 0 && LastControl(pre, s).None? && Uncontrolled(post, s)
    requires WellRouted(pre + [Added(s, cb)] + post)
    requires RoutedFrames(pre + [Added(s, cb)] + post) == FeedAll(EMPTY, chunks).routed
    ensures Select(Output(pre, s, post), true) == Sent(fs, s)
    ensures Select(Output(pre, s, post), false) == Sent(fs, 0)
  {
    FrameRoundTrip(fs);
    EchoReports(fs, pre, s, cb, post);
  }

  lemma EncodedPrefix(fs: seq<Frame>, first: seq<Buffer>, rest: seq<Buffer>)
    requires forall f :: f in fs ==> ValidFrame(f)
    requires EncodeEach(fs) == first + rest
    ensures |first| <= |fs| && (forall f :: f in fs[..|first|] ==> ValidFrame(f)) && EncodeEach(fs[..|first|]) == first
  {
    var n := |first|;
    assert |EncodeEach(fs)| == |fs|;
    forall i | 0 <= i < n
      ensures EncodeEach(fs[..n])[i] == first[i]
    {
      assert fs[..n][i] == fs[i] && EncodeEach(fs)[i] == (first + rest)[i];
    }
  }

  lemma {:induction false} OnlyStreamAppend(a: seq<Buffer>, b: seq<Buffer>, t: nat)
    ensures OnlyStream(a + b, t) == OnlyStream(a, t) + OnlyStream(b, t)
    decreases |b|
  {
    if b == [] {
      assert a + b == a;
    } else {
      assert (a + b)[..|a + b| - 1] == a + b[..|b| - 1];
      OnlyStreamAppend(a, b[..|b| - 1], t);
    }
  }

  lemma {:induction false} OneOrTheOther(frames: seq<Buffer>, s: nat)
    requires s != 0 && Concern(frames, s)
    ensures |OnlyStream(frames, s)| + |OnlyStream(frames, 0)| == |frames|
  {
    if frames != [] {
      OneOrTheOther(frames[..|frames| - 1], s);
    }
  }

  lemma {:induction false} DecodedLength(frames: seq<Buffer>)
    ensures |Decoded(frames)| == |frames|
  {
    if frames != [] {
      DecodedLength(frames[..|frames| - 1]);
    }
  }

  /** What was reported from the frames run so far, followed by what those still queued would add, is everything. */
  lemma ReportedThenQueued(pre: seq<Event>, s: nat, done: seq<Buffer>, queued: seq<Buffer>)
    requires s != 0 && Concern(done + queued, s)
    ensures forall own ::
      Select(OutputWith(pre, s, done + queued), own) ==
      Select(OutputWith(pre, s, done), own) + Decoded(OnlyStream(queued, if own then s else 0))
  {
    forall i | 0 <= i < |done|
      ensures IsFrame(done[i])
    {
      assert (done + queued)[i] == done[i];
    }
    SelectOutput(pre, s, done + queued);
    SelectOutput(pre, s, done);
    OnlyStreamAppend(done, queued, s);
    OnlyStreamAppend(done, queued, 0);
    Appended(Owed(pre, s), OnlyStream(done, s), OnlyStream(queued, s));
    Appended(OnStream(pre, 0), OnlyStream(done, 0), OnlyStream(queued, 0));
  }

  lemma Appended(a: seq<Buffer>, b: seq<Buffer>, c: seq<Buffer>)
    ensures Decoded(a + (b + c)) == Decoded(a + b) + Decoded(c)
  {
    Assoc(a, b, c);
    DecodedAppend(a + b, c);
  }

  lemma FramesOfDeliver(fs: seq<Buffer>, s: nat, cb: Callback, a: seq<Delivery>, b: seq<Delivery>)
    requires a + b == Deliver(fs, s, cb)
    ensures FramesOf(a) + FramesOf(b) == fs
  {
    forall i | 0 <= i < |fs|
      ensures (FramesOf(a) + FramesOf(b))[i] == fs[i]
    {
      assert (a + b)[i] == Deliver(fs, s, cb)[i];
    }
    assert |a + b| == |fs|;
  }

  lemma {:induction false} NothingSentBefore(pre: seq<Event>, s: nat)
    requires LastControl(pre, s).None?
    ensures FrameHistory.Sent(pre, s) == []
  {
    if pre != [] {
      NothingSentBefore(pre[..|pre| - 1], s);
    }
  }

  /** The state of the event loop when the echo removes itself: what was scheduled, and how much of it has run. */
  datatype Loop = Loop(scheduled: seq<Delivery>, ran: nat)
  {
    predicate Fits(h: seq<Event>, s: nat) {
      ran <= |scheduled| && For(scheduled, s) == FrameHistory.Sent(h, s)
    }

    /** The frames the callback of stream s has been run with, and those it is still to be run with. */
    function Done(s: nat): seq<Buffer>
      requires ran <= |scheduled|
    {
      FramesOf(For(scheduled[..ran], s))
    }

    function Queued(s: nat): seq<Buffer>
      requires ran <= |scheduled|
    {
      FramesOf(For(scheduled[ran..], s))
    }
  }

  lemma DoneThenQueued(loop: Loop, pre: seq<Event>, s: nat, cb: Callback, post: seq<Event>)
    requires LastControl(pre, s).None? && Uncontrolled(post, s) && loop.Fits(pre + [Added(s, cb)] + post, s)
    ensures loop.Done(s) + loop.Queued(s) == Relevant(post, s)
  {
    var a, b := For(loop.scheduled[..loop.ran], s), For(loop.scheduled[loop.ran..], s);
    SplitAt(loop.scheduled, loop.ran);
    ForAppend(loop.scheduled[..loop.ran], loop.scheduled[loop.ran..], s);
    DeliveriesAfterAdd(pre, s, cb, post);
    NothingSentBefore(pre, s);
    GlueIs([], Deliver(Relevant(post, s), s, cb));
    assert a + b == Deliver(Relevant(post, s), s, cb);
    FramesOfDeliver(Relevant(post, s), s, cb, a, b);
  }

  /** Two parts are complete exactly when what is missing from them together is nothing. */
  lemma NothingMissing<T, U>(a: seq<T>, restOfA: seq<T>, b: seq<T>, restOfB: seq<T>, missing: seq<U>)
    requires |restOfA| + |restOfB| == |missing|
    ensures a == a + restOfA && b == b + restOfB <==> missing == []
  {
    assert |a + restOfA| == |a| + |restOfA| && |b + restOfB| == |b| + |restOfB|;
    if missing == [] {
      assert restOfA == [] && restOfB == [];
    }
  }

  lemma ReportedSoFar(fs: seq<Frame>, pre: seq<Event>, s: nat, cb: Callback, post: seq<Event>, loop: Loop)
    requires forall f :: f in fs ==> ValidFrame(f)
    requires s != 0 && LastControl(pre, s).None? && Uncontrolled(post, s)
    requires WellRouted(pre + [Added(s, cb)] + post) && loop.Fits(pre + [Added(s, cb)] + post, s)
    requires RoutedFrames(pre + [Added(s, cb)] + post) == EncodeEach(fs)
    ensures var reported := OutputWith(pre, s, loop.Done(s));
      && Select(reported, true) + Decoded(OnlyStream(loop.Queued(s), s)) == Sent(fs, s)
      && Select(reported, false) + Decoded(OnlyStream(loop.Queued(s), 0)) == Sent(fs, 0)
    ensures Concern(loop.Done(s) + loop.Queued(s), s)
  {
    var h := pre + [Added(s, cb)] + post;
    EchoReports(fs, pre, s, cb, post);
    DoneThenQueued(loop, pre, s, cb, post);
    assert WellRouted(post) by {
      forall i | 0 <= i < |post| ensures post[i] == h[|pre| + 1 + i] {}
    }
    RelevantAreFrames(post, s);
    ReportedThenQueued(pre, s, loop.Done(s), loop.Queued(s));
  }

  lemma RoutedPrefix(fs: seq<Frame>, chunks: seq<Buffer>, h: seq<Event>, rest: seq<Event>) returns (n: nat)
    requires (forall f :: f in fs ==> ValidFrame(f)) && NoLookalike(fs)
    requires Concat(chunks) == Serialise(fs) && RoutedFrames(h + rest) == FeedAll(EMPTY, chunks).routed
    ensures n == |RoutedFrames(h)| <= |fs| && (forall f :: f in fs[..n] ==> ValidFrame(f))
    ensures RoutedFrames(h) == EncodeEach(fs[..n])
  {
    n := |RoutedFrames(h)|;
    FrameRoundTrip(fs);
    RoutedFramesConcat(h, rest);
    EncodedPrefix(fs, RoutedFrames(h), RoutedFrames(rest));
  }

  /**
   * The echo removes itself when its request ends, with the event loop in any state. What it has reported, followed
   * by what its queued deliveries would add, is every frame routed by then. So it has reported all of them if and
   * only if no delivery for its stream is still queued.
   */
  lemma EchoUntilRemoved(fs: seq<Frame>, chunks: seq<Buffer>, pre: seq<Event>, s: nat, cb: Callback,
                         post: seq<Event>, after: seq<Event>, loop: Loop) returns (n: nat)
    requires (forall f :: f in fs ==> ValidFrame(f)) && NoLookalike(fs)
    requires Concat(chunks) == Serialise(fs)
    requires s != 0 && LastControl(pre, s).None? && Uncontrolled(post, s)
    requires WellRouted(pre + [Added(s, cb)] + post) && loop.Fits(pre + [Added(s, cb)] + post, s)
    requires RoutedFrames(pre + [Added(s, cb)] + post + ([Removed(s)] + after)) == FeedAll(EMPTY, chunks).routed
    ensures n == |RoutedFrames(pre + [Added(s, cb)] + post)| <= |fs|
    ensures var reported := OutputWith(pre, s, loop.Done(s));
      && Select(reported, true) + Decoded(OnlyStream(loop.Queued(s), s)) == Sent(fs[..n], s)
      && Select(reported, false) + Decoded(OnlyStream(loop.Queued(s), 0)) == Sent(fs[..n], 0)
      && (Select(reported, true) == Sent(fs[..n], s) && Select(reported, false) == Sent(fs[..n], 0) <==>
          loop.Queued(s) == [])
  {
    n := RoutedPrefix(fs, chunks, pre + [Added(s, cb)] + post, [Removed(s)] + after);
    ReportedSoFar(fs[..n], pre, s, cb, post, loop);
    QueuedCounts(loop.Done(s), loop.Queued(s), s);
    var reported := OutputWith(pre, s, loop.Done(s));
    NothingMissing(Select(reported, true), Decoded(OnlyStream(loop.Queued(s), s)),
                   Select(reported, false), Decoded(OnlyStream(loop.Queued(s), 0)), loop.Queued(s));
  }

  lemma QueuedCounts(done: seq<Buffer>, queued: seq<Buffer>, s: nat)
    requires s != 0 && Concern(done + queued, s)
    ensures |Decoded(OnlyStream(queued, s))| + |Decoded(OnlyStream(queued, 0))| == |queued|
  {
    forall i | 0 <= i < |queued|
      ensures IsFrame(queued[i]) && (StreamIdOf(queued[i]) == 0 || StreamIdOf(queued[i]) == s)
    {
      assert (done + queued)[|done| + i] == queued[i];
    }
    OneOrTheOther(queued, s);
    DecodedLength(OnlyStream(queued, s));
    DecodedLength(OnlyStream(queued, 0));
  }

  /**
   * After the removal exactly the queued deliveries still run for the stream, on a response that has ended: removing
   * the callback takes none of them away, and until the stream is controlled again none is added.
   */
  lemma QueuedRunLate(loop: Loop, h: seq<Event>, s: nat, after: seq<Event>, later: seq<Delivery>)
    requires loop.Fits(h, s) && Uncontrolled(after, s)
    requires For(loop.scheduled + later, s) == FrameHistory.Sent(h + ([Removed(s)] + after), s)
    ensures FramesOf(For((loop.scheduled + later)[loop.ran..], s)) == loop.Queued(s)
  {
    Assoc(h, [Removed(s)], after);
    NothingScheduledAfterRemoval(h, s, after);
    ForAppend(loop.scheduled, later, s);
    assert For(later, s) == [];
    var queue := loop.scheduled[loop.ran..];
    assert (loop.scheduled + later)[loop.ran..] == queue + later;
    ForAppend(queue, later, s);
    assert For(queue, s) + [] == For(queue, s);
  }

  /** One frame routed after the registration and still queued at the removal: it is not reported. */
  lemma LastFrameLost(f: Frame, s: nat, cb: Callback)
    requires ValidFrame(f) && f.streamId == s != 0
    ensures var h := [Added(s, cb)] + [Routed(s, Encode(f))];
      var loop := Loop([Delivery(s, cb, Encode(f))], 0);
      loop.Fits(h, s) && Select(OutputWith([], s, loop.Done(s)), true) == [] && |Sent([f], s)| == 1
  {
    var e := Encode(f);
    var added := [Added(s, cb)];
    var h := added + [Routed(s, e)];
    assert h[..1] == added && added[..0] == [];
    assert FrameHistory.Sent(added, s) == [];
    assert FrameHistory.Sent(h, s) == [] + [Delivery(s, cb, e)];
    var loop := Loop([Delivery(s, cb, e)], 0);
    ForSnoc([], Delivery(s, cb, e), s);
    assert loop.scheduled == [] + [Delivery(s, cb, e)];
    assert loop.Done(s) == [];
    assert Owed([], s) == [] && OutputWith([], s, []) == [];
    assert [f][..0] == [];
  }

  lemma SelectOutput(pre: seq<Event>, s: nat, frames: seq<Buffer>)
    requires s != 0 && forall i :: 0 <= i < |frames| ==> IsFrame(frames[i])
    ensures Select(OutputWith(pre, s, frames), true) == Decoded(Owed(pre, s) + OnlyStream(frames, s))
    ensures Select(OutputWith(pre, s, frames), false) == Decoded(OnStream(pre, 0) + OnlyStream(frames, 0))
  {
    SelectLines(OnStream(pre, 0), false);
    SelectLines(Owed(pre, s), true);
    SelectCallback(frames, s);
    var globals, own := Lines(OnStream(pre, 0), false), Lines(Owed(pre, s), true);
    var later := CallbackLines(frames, s);
    SelectRequest(globals, own, later);
    SelectGlobal(globals, own, later);
    DecodedAppend(Owed(pre, s), OnlyStream(frames, s));
    DecodedAppend(OnStream(pre, 0), OnlyStream(frames, 0));
  }

  lemma SelectRequest(globals: seq<Line>, own: seq<Line>, later: seq<Line>)
    requires Select(globals, true) == []
    ensures Select(globals + own + later, true) == Select(own, true) + Select(later, true)
  {
    SelectAppend(globals + own, later, true);
    SelectAppend(globals, own, true);
  }

  lemma SelectGlobal(globals: seq<Line>, own: seq<Line>, later: seq<Line>)
    requires Select(own, false) == []
    ensures Select(globals + own + later, false) == Select(globals, false) + Select(later, false)
  {
    SelectAppend(globals + own, later, false);
    SelectAppend(globals, own, false);
  }
}
