/**
 * The capturing stream itself: the carry-over buffer, the stored stream-0 frames and the stream table,
 * updated in place, proved against FrameCapture (bytes to frames) and FrameHistory (frames to readers).
 */
module DataCapturingStreams {
  import opened Common
  import opened JsMaps
  import opened FrameCodec
  import opened FrameCapture
  import opened FrameHistory

  /** One entry of the stream table. */
  datatype StreamState = StreamState(callback: Option<Callback>, buffer: seq<Buffer>, stopped: bool)

  const IDLE: StreamState := StreamState(None, [], false)

  function StateOf(streams: JsMap<nat, StreamState>, s: nat): StreamState {
    streams.Get(s).GetOr(IDLE)
  }

  /** The table entry a history calls for. */
  function Expected(h: seq<Event>, s: nat): StreamState {
    var c := LastControl(h, s);
    StreamState(
      if c.Some? && c.value.Added? then Some(c.value.callback) else None,
      Owed(h, s),
      c.Some? && c.value.Stopped?)
  }

  function AsEvent(f: Buffer): Event {
    Routed(if |f| >= FRAME_HEADER_SIZE then StreamIdOf(f) else 0, f)
  }

  function Events(fs: seq<Buffer>): seq<Event> {
    seq(|fs|, i requires 0 <= i < |fs| => AsEvent(fs[i]))
  }

  lemma EventsNone(h: seq<Event>)
    ensures h + Events([]) == h
  {
  }

  lemma EventsSnoc(h: seq<Event>, fs: seq<Buffer>, f: Buffer)
    ensures h + Events(fs) + [AsEvent(f)] == h + Events(fs + [f])
  {
    assert Events(fs + [f]) == Events(fs) + [AsEvent(f)];
  }

  lemma {:induction false} RoutedFramesAppend(h: seq<Event>, fs: seq<Buffer>)
    ensures RoutedFrames(h + Events(fs)) == RoutedFrames(h) + fs
    decreases |fs|
  {
    var es := Events(fs);
    if fs == [] {
      assert h + es == h;
    } else {
      var fs' := fs[..|fs| - 1];
      assert es == Events(fs') + [es[|fs| - 1]];
      assert (h + es)[..|h + es| - 1] == h + Events(fs');
      RoutedFramesAppend(h, fs');
      assert fs == fs' + [fs[|fs| - 1]];
    }
  }

  lemma {:induction false} AnyGlobalSnoc(fs: seq<Buffer>, f: Buffer)
    ensures AnyGlobal(fs + [f]) <==> AnyGlobal(fs) || IsGlobal(f)
  {
    if fs == [] {
      assert (fs + [f])[0] == f && (fs + [f])[1..] == [];
    } else {
      assert (fs + [f])[1..] == fs[1..] + [f];
      AnyGlobalSnoc(fs[1..], f);
    }
  }

  /** The code tests whether stored stream-0 frames exist; that is whether any was routed. */
  lemma {:induction false} GlobalsStored(h: seq<Event>)
    requires WellRouted(h)
    ensures AnyGlobal(RoutedFrames(h)) <==> OnStream(h, 0) != []
  {
    if h != [] {
      GlobalsStored(h[..|h| - 1]);
      if h[|h| - 1].Routed? {
        AnyGlobalSnoc(RoutedFrames(h[..|h| - 1]), h[|h| - 1].frame);
      }
    }
  }

  /** Table and deliveries are what the history calls for, on every stream. */
  ghost predicate Agrees(streams: JsMap<nat, StreamState>, scheduled: seq<Delivery>, h: seq<Event>) {
    forall s: nat :: StateOf(streams, s) == Expected(h, s) && For(scheduled, s) == Sent(h, s)
  }

  /** Skipping the preface by the stored stream-0 frames and then routing is what Feed says. */
  lemma FeedMatches(h: seq<Event>, partial: Buffer, data: Buffer, offset: nat)
    requires WellRouted(h)
    requires offset == if OnStream(h, 0) == [] && HasPreface(Glue(partial, data)) then |PREFACE| else 0
    ensures offset <= |Glue(partial, data)|
    ensures var body := Glue(partial, data)[offset..];
            && body == SkipPreface(RoutedFrames(h), Glue(partial, data))
            && Feed(Capture(RoutedFrames(h), partial), data)
               == Capture(RoutedFrames(h + Events(Frames(body))), Rest(body))
  {
    GlobalsStored(h);
    var body := Glue(partial, data)[offset..];
    RoutedFramesAppend(h, Frames(body));
    GlueIs(RoutedFrames(h), Frames(body));
  }

  class DataCapturingStream {
    var globalFrames: seq<Buffer>
    var streams: JsMap<nat, StreamState>
    var partialData: Buffer
    var scheduled: seq<Delivery>  // callbacks handed to setImmediate, in order
    var ran: nat                  // how many of them the event loop has run; the others are queued
    ghost var history: seq<Event>

    ghost predicate Valid()
      reads this
    {
      && streams.Valid()
      && WellRouted(history)
      && globalFrames == OnStream(history, 0)
      && Agrees(streams, scheduled, history)
      && ran <= |scheduled|
    }

    /** Of a stream's deliveries those that have run come first, and the others are queued behind them. */
    lemma QueueOf(s: nat)
      requires Valid()
      ensures ran <= |scheduled| && For(scheduled[..ran], s) + For(scheduled[ran..], s) == Sent(history, s)
    {
      assert For(scheduled, s) == Sent(history, s);
      SplitAt(scheduled, ran);
      ForAppend(scheduled[..ran], scheduled[ran..], s);
    }

    ghost function Captured(): Capture
      reads this
    {
      Capture(RoutedFrames(history), partialData)
    }

    constructor ()
      ensures Valid() && history == [] && Captured() == EMPTY
    {
      globalFrames, partialData, scheduled, ran, history := [], [], [], 0, [];
      streams := JsMap([], map[]);
    }

    /** In every reachable state a callback means nothing is kept, and so does a stop. */
    lemma TableInvariant(s: nat)
      requires Valid() && s in streams.values
      ensures streams.values[s].callback.Some? ==> streams.values[s].buffer == [] && !streams.values[s].stopped
      ensures streams.values[s].stopped ==> streams.values[s].buffer == [] && streams.values[s].callback.None?
    {
      assert StateOf(streams, s) == Expected(history, s);
    }

    method ProcessIncomingData(data: Buffer)
      requires Valid()
      modifies this
      ensures Valid()
      ensures Captured() == Feed(old(Captured()), data)
      ensures ran == old(ran) && old(scheduled) <= scheduled
      ensures history == old(history)
                         + Events(Frames(SkipPreface(RoutedFrames(old(history)), Glue(old(partialData), data))))
    {
      var fullData := if |partialData| > 0 then partialData + data else data;
      var offset := 0;
      if offset == 0 && |globalFrames| == 0 && |fullData| >= |PREFACE| && fullData[..|PREFACE|] == PREFACE {
        offset := |PREFACE|;
      }
      FeedMatches(history, partialData, data, offset);
      offset := RouteFrames(fullData, offset);
      NothingLeft(fullData, offset);
      partialData := if offset < |fullData| then fullData[offset..] else [];
    }

    /** The loop of ProcessIncomingData: routes the whole frames from `start` on, and says where they end. */
    method RouteFrames(fullData: Buffer, start: nat) returns (offset: nat)
      requires Valid() && start <= |fullData|
      modifies this`globalFrames, this`streams, this`scheduled, this`history
      ensures Valid()
      ensures offset <= |fullData| && fullData[offset..] == Rest(fullData[start..])
      ensures old(scheduled) <= scheduled
      ensures history == old(history) + Events(Frames(fullData[start..]))
    {
      offset := start;
      ghost var body, done: seq<Buffer> := fullData[start..], [];
      EventsNone(history);
      NothingDone(Frames(body));
      while offset < |fullData|
        invariant offset <= |fullData|
        invariant Valid() && old(scheduled) <= scheduled
        invariant Frames(body) == done + Frames(fullData[offset..]) && Rest(body) == Rest(fullData[offset..])
        invariant history == old(history) + Events(done)
      {
        var header := ParseFrameHeader(fullData, offset);
        if header.None? { break; }
        var frameEnd := offset + FRAME_HEADER_SIZE + header.value.length;
        if frameEnd > |fullData| { break; }
        var frame := fullData[offset..frameEnd];
        NextFrame(fullData, offset, frameEnd);
        RouteFrame(header.value.streamId, frame);
        EventsSnoc(old(history), done, frame);
        Assoc(done, [frame], Frames(fullData[frameEnd..]));
        done := done + [frame];
        offset := frameEnd;
      }
      NoNextFrame(fullData, offset);
      NothingDone(done);
    }

    method RouteFrame(streamId: nat, frame: Buffer)
      requires Valid() && IsFrame(frame) && StreamIdOf(frame) == streamId
      modifies this`globalFrames, this`streams, this`scheduled, this`history
      ensures Valid() && old(scheduled) <= scheduled
      ensures history == old(history) + [AsEvent(frame)]
    {
      if streamId == 0 {
        globalFrames := globalFrames + [frame];
        NotifyAll(frame);
      } else {
        RouteToStream(streamId, frame);
      }
      RoutingAgrees(old(streams), streams, old(scheduled), scheduled, history, frame);
      history := history + [AsEvent(frame)];
    }

    method RouteToStream(streamId: nat, frame: Buffer)
      requires streams.Valid() && IsFrame(frame) && StreamIdOf(frame) == streamId != 0
      modifies this`streams, this`scheduled
      ensures streams.Valid() && old(scheduled) <= scheduled
      ensures forall s: nat :: For(scheduled, s)
                               == For(old(scheduled), s) + if s == streamId then Notice(old(streams), s, frame) else []
      ensures forall s: nat :: StateOf(streams, s) == Kept(StateOf(old(streams), s), s, frame)
    {
      var state := StateOf(streams, streamId);
      streams.SetValid(streamId, state);
      if streamId !in streams.values {
        streams := streams.Set(streamId, state);
      }
      if state.callback.Some? {
        forall s: nat { ForSnoc(scheduled, Delivery(streamId, state.callback.value, frame), s); }
        scheduled := scheduled + [Delivery(streamId, state.callback.value, frame)];
      } else if !state.stopped {
        streams := streams.Set(streamId, state.(buffer := state.buffer + [frame]));
      }
    }

    /** A stream-0 frame goes to every registered callback, in table order. */
    method NotifyAll(frame: Buffer)
      requires streams.Valid()
      modifies this`scheduled
      ensures old(scheduled) <= scheduled
      ensures forall s: nat :: For(scheduled, s) == For(old(scheduled), s) + Notice(streams, s, frame)
    {
      var i := 0;
      while i < |streams.keys|
        invariant 0 <= i <= |streams.keys| && old(scheduled) <= scheduled
        invariant Notified(old(scheduled), scheduled, streams, streams.keys[..i], frame)
      {
        var key := streams.keys[i];
        var state := streams.values[key];
        NotifyOne(old(scheduled), scheduled, streams, i, frame);
        if state.callback.Some? {
          scheduled := scheduled + [Delivery(key, state.callback.value, frame)];
        }
        i := i + 1;
      }
      assert streams.keys[..i] == streams.keys;
    }

    /** The event loop runs the callback that has waited longest; stopping or removing a stream takes none away. */
    method RunImmediate() returns (delivered: Delivery)
      requires Valid() && ran < |scheduled|
      modifies this`ran
      ensures Valid() && ran == old(ran) + 1
      ensures delivered == scheduled[old(ran)]
    {
      delivered := scheduled[ran];
      ran := ran + 1;
    }

    method StopCapturingStream(streamId: nat)
      requires Valid()
      modifies this`streams, this`history
      ensures Valid()
      ensures history == old(history) + [Stopped(streamId)]
    {
      streams.SetValid(streamId, StreamState(None, [], true));
      streams := streams.Set(streamId, StreamState(None, [], true));
      ControlAgrees(old(streams), streams, scheduled, history, Stopped(streamId));
      history := history + [Stopped(streamId)];
    }

    method AddStreamCallback(streamId: nat, callback: Callback)
      returns (globals: seq<Buffer>, streamFrames: seq<Buffer>)
      requires Valid()
      modifies this`streams, this`history
      ensures Valid()
      ensures history == old(history) + [Added(streamId, callback)]
      ensures globals == OnStream(old(history), 0) && streamFrames == Owed(old(history), streamId)
    {
      var state := StateOf(streams, streamId);
      globals, streamFrames := globalFrames, state.buffer;
      streams.SetValid(streamId, StreamState(Some(callback), [], false));
      streams := streams.Set(streamId, StreamState(Some(callback), [], false));
      assert state == Expected(history, streamId);
      ControlAgrees(old(streams), streams, scheduled, history, Added(streamId, callback));
      history := history + [Added(streamId, callback)];
    }

    method RemoveStreamCallback(streamId: nat)
      requires Valid()
      modifies this`streams, this`history
      ensures Valid()
      ensures history == old(history) + [Removed(streamId)]
    {
      streams.DeleteValid(streamId);
      streams := streams.Delete(streamId);
      ControlAgrees(old(streams), streams, scheduled, history, Removed(streamId));
      history := history + [Removed(streamId)];
    }
  }

  lemma ControlAgrees(streams: JsMap<nat, StreamState>, streams': JsMap<nat, StreamState>,
                      ds: seq<Delivery>, h: seq<Event>, e: Event)
    requires !e.Routed? && Agrees(streams, ds, h)
    requires forall s: nat | s != e.id :: StateOf(streams', s) == StateOf(streams, s)
    requires StateOf(streams', e.id) == StreamState(if e.Added? then Some(e.callback) else None, [], e.Stopped?)
    ensures Agrees(streams', ds, h + [e])
    ensures WellRouted(h) ==> WellRouted(h + [e])
    ensures OnStream(h + [e], 0) == OnStream(h, 0)
  {
    forall s: nat
      ensures StateOf(streams', s) == Expected(h + [e], s) && For(ds, s) == Sent(h + [e], s)
    {
      assert StateOf(streams, s) == Expected(h, s) && For(ds, s) == Sent(h, s);
      ControlChangesOneStream(h, e, s);
    }
    ControlChangesOneStream(h, e, 0);
  }

  /** What a stream-0 frame adds for stream `s`. */
  function Notice(streams: JsMap<nat, StreamState>, s: nat, frame: Buffer): seq<Delivery> {
    var c := StateOf(streams, s).callback;
    if c.Some? then [Delivery(s, c.value, frame)] else []
  }

  /** Exactly the streams in `keys` have had their notice of `frame`. */
  ghost predicate Notified(before: seq<Delivery>, after: seq<Delivery>, streams: JsMap<nat, StreamState>,
                           keys: seq<nat>, frame: Buffer)
  {
    forall s: nat ::
      For(after, s) == if s in keys then For(before, s) + Notice(streams, s, frame) else For(before, s)
  }

  lemma NotifyOne(before: seq<Delivery>, after: seq<Delivery>, streams: JsMap<nat, StreamState>,
                  i: nat, frame: Buffer)
    requires streams.Valid() && i < |streams.keys|
    requires Notified(before, after, streams, streams.keys[..i], frame)
    ensures Notified(before, after + Notice(streams, streams.keys[i], frame), streams, streams.keys[..i + 1], frame)
  {
    var key := streams.keys[i];
    KeyIsNew(streams.keys, i);
    assert streams.keys[..i + 1] == streams.keys[..i] + [key];
    var notice := Notice(streams, key, frame);
    forall s: nat
      ensures For(after + notice, s) == if s == key then For(after, s) + notice else For(after, s)
    {
      ForOneNotice(after, streams, key, frame, s);
    }
  }

  lemma ForOneNotice(ds: seq<Delivery>, streams: JsMap<nat, StreamState>, key: nat, frame: Buffer, s: nat)
    ensures var notice := Notice(streams, key, frame);
            For(ds + notice, s) == if s == key then For(ds, s) + notice else For(ds, s)
  {
    var c := StateOf(streams, key).callback;
    if c.Some? {
      ForSnoc(ds, Delivery(key, c.value, frame), s);
    } else {
      assert ds + [] == ds;
    }
  }

  lemma NextFrame(data: Buffer, offset: nat, frameEnd: nat)
    requires offset + FRAME_HEADER_SIZE <= |data|
    requires frameEnd == offset + FRAME_HEADER_SIZE + ParseFrameHeader(data, offset).value.length <= |data|
    ensures IsFrame(data[offset..frameEnd])
    ensures StreamIdOf(data[offset..frameEnd]) == ParseFrameHeader(data, offset).value.streamId
    ensures Frames(data[offset..]) == [data[offset..frameEnd]] + Frames(data[frameEnd..])
    ensures Rest(data[offset..]) == Rest(data[frameEnd..])
  {
    var tail := data[offset..];
    HeaderAtOffset(data, offset);
    HeaderOfFirst(tail);
    assert data[offset..frameEnd] == tail[..FrameSize(tail)] && data[frameEnd..] == tail[FrameSize(tail)..];
  }

  lemma NothingDone<T>(a: seq<T>)
    ensures [] + a == a && a + [] == a
  {
  }

  lemma NothingLeft(data: Buffer, offset: nat)
    requires offset <= |data|
    ensures data[offset..] == if offset < |data| then data[offset..] else []
  {
  }

  lemma NoNextFrame(data: Buffer, offset: nat)
    requires offset <= |data|
    requires offset + FRAME_HEADER_SIZE <= |data|
             ==> offset + FRAME_HEADER_SIZE + ParseFrameHeader(data, offset).value.length > |data|
    ensures Frames(data[offset..]) == [] && Rest(data[offset..]) == data[offset..]
  {
    if offset + FRAME_HEADER_SIZE <= |data| {
      HeaderAtOffset(data, offset);
    }
  }

  /** What one routed frame changes in the reading of the history. */
  lemma RoutingChanges(h: seq<Event>, f: Buffer)
    requires IsFrame(f)
    ensures var (id, h') := (StreamIdOf(f), h + [AsEvent(f)]);
            && (WellRouted(h) ==> WellRouted(h'))
            && OnStream(h', 0) == OnStream(h, 0) + (if id == 0 then [f] else [])
            && (forall s: nat :: LastControl(h', s) == LastControl(h, s))
            && (forall s: nat :: SinceControl(h', s) == SinceControl(h, s) + if s == id && s != 0 then [f] else [])
            && (forall s: nat :: Sent(h', s) == Sent(h, s) +
                                                if (id == 0 || id == s) && Expected(h, s).callback.Some?
                                                then [Delivery(s, Expected(h, s).callback.value, f)] else [])
  {
    assert (h + [AsEvent(f)])[..|h|] == h;
  }

  lemma RoutingAgrees(streams: JsMap<nat, StreamState>, streams': JsMap<nat, StreamState>,
                      ds: seq<Delivery>, ds': seq<Delivery>, h: seq<Event>, f: Buffer)
    requires IsFrame(f) && Agrees(streams, ds, h)
    requires forall s: nat ::
      For(ds', s) == For(ds, s) + if StreamIdOf(f) == 0 || StreamIdOf(f) == s then Notice(streams, s, f) else []
    requires forall s: nat :: StateOf(streams', s) == Kept(StateOf(streams, s), s, f)
    ensures Agrees(streams', ds', h + [AsEvent(f)])
    ensures WellRouted(h) ==> WellRouted(h + [AsEvent(f)])
    ensures OnStream(h + [AsEvent(f)], 0) == if StreamIdOf(f) == 0 then OnStream(h, 0) + [f] else OnStream(h, 0)
  {
    RoutingChanges(h, f);
    forall s: nat
      ensures StateOf(streams', s) == Expected(h + [AsEvent(f)], s) && For(ds', s) == Sent(h + [AsEvent(f)], s)
    {
      assert StateOf(streams, s) == Expected(h, s) && For(ds, s) == Sent(h, s);
    }
  }

  /** What routing frame `f` makes of the entry of stream `s`. */
  function Kept(state: StreamState, s: nat, f: Buffer): StreamState {
    if |f| >= FRAME_HEADER_SIZE && StreamIdOf(f) == s && s != 0 && state.callback.None? && !state.stopped
    then state.(buffer := state.buffer + [f])
    else state
  }

  lemma HeaderAtOffset(data: Buffer, offset: nat)
    requires offset + FRAME_HEADER_SIZE <= |data|
    ensures ParseFrameHeader(data, offset) == ParseFrameHeader(data[offset..], 0)
  {
  }

  lemma {:induction false} KeyIsNew(ks: seq<nat>, i: nat)
    requires i < |ks| && Distinct(ks)
    ensures ks[i] !in ks[..i]
  {
    if i > 0 {
      KeyIsNew(ks[1..], i - 1);
      assert ks[1..][i - 1] == ks[i] && ks[..i] == [ks[0]] + ks[1..][..i - 1];
    }
  }

  /** A stop, add or remove changes what the history says of its own stream, and of no other. */
  lemma ControlChangesOneStream(h: seq<Event>, e: Event, s: nat)
    requires !e.Routed?
    ensures OnStream(h + [e], s) == OnStream(h, s) && Sent(h + [e], s) == Sent(h, s)
    ensures s != e.id ==> LastControl(h + [e], s) == LastControl(h, s) && Owed(h + [e], s) == Owed(h, s)
    ensures s == e.id ==> LastControl(h + [e], s) == Some(e) && Owed(h + [e], s) == []
  {
    assert (h + [e])[..|h|] == h;
  }
}
