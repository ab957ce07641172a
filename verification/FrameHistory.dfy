/**
 * What a run of the capturing stream owes each HTTP/2 stream, read off the run's events alone: the
 * reference against which the stream table of DataCapturingStream is proved.
 */
module FrameHistory {
  import opened Common
  import opened FrameCodec

  type Callback = nat

  datatype Event =
    | Routed(id: nat, frame: Buffer)
    | Stopped(id: nat)
    | Added(id: nat, callback: Callback)
    | Removed(id: nat)

  /** One scheduled callback: for which registration, to whom, with what. */
  datatype Delivery = Delivery(stream: nat, callback: Callback, frame: Buffer)

  predicate Controls(e: Event, s: nat) {
    !e.Routed? && e.id == s
  }

  /** The last stop, add or remove on stream `s`. */
  function LastControl(h: seq<Event>, s: nat): (r: Option<Event>)
    ensures r.Some? ==> Controls(r.value, s)
  {
    if h == [] then None
    else if Controls(h[|h| - 1], s) then Some(h[|h| - 1])
    else LastControl(h[..|h| - 1], s)
  }

  /** All frames that arrived on stream `s`, in order. */
  function OnStream(h: seq<Event>, s: nat): seq<Buffer> {
    if h == [] then []
    else
      var e, before := h[|h| - 1], OnStream(h[..|h| - 1], s);
      if e.Routed? && e.id == s then before + [e.frame] else before
  }

  /** Frames on stream `s` (not 0) that arrived after its last stop, add or remove. */
  function SinceControl(h: seq<Event>, s: nat): seq<Buffer> {
    if h == [] || Controls(h[|h| - 1], s) then []
    else
      var e, before := h[|h| - 1], SinceControl(h[..|h| - 1], s);
      if e.Routed? && e.id == s && s != 0 then before + [e.frame] else before
  }

  /** What must be kept for stream `s`: nothing once it is stopped or has a callback. */
  function Owed(h: seq<Event>, s: nat): seq<Buffer> {
    var c := LastControl(h, s);
    if c.Some? && !c.value.Removed? then [] else SinceControl(h, s)
  }

  /** Every delivery scheduled for stream `s`: the frames on it and on stream 0 while it had a callback. */
  function Sent(h: seq<Event>, s: nat): seq<Delivery> {
    if h == [] then []
    else
      var e, before := h[|h| - 1], Sent(h[..|h| - 1], s);
      var c := LastControl(h[..|h| - 1], s);
      if e.Routed? && (e.id == 0 || e.id == s) && c.Some? && c.value.Added?
      then before + [Delivery(s, c.value.callback, e.frame)]
      else before
  }

  /** The frames in arrival order that concern stream `s`: its own and those on stream 0. */
  function Relevant(h: seq<Event>, s: nat): seq<Buffer> {
    if h == [] then []
    else
      var e, before := h[|h| - 1], Relevant(h[..|h| - 1], s);
      if e.Routed? && (e.id == 0 || e.id == s) then before + [e.frame] else before
  }

  function RoutedFrames(h: seq<Event>): seq<Buffer> {
    if h == [] then []
    else
      var e, before := h[|h| - 1], RoutedFrames(h[..|h| - 1]);
      if e.Routed? then before + [e.frame] else before
  }

  /** Every routed frame is a whole frame filed under the stream id in its own header. */
  predicate WellRouted(h: seq<Event>) {
    forall i :: 0 <= i < |h| && h[i].Routed? ==> IsFrame(h[i].frame) && StreamIdOf(h[i].frame) == h[i].id
  }

  predicate Uncontrolled(h: seq<Event>, s: nat) {
    forall i :: 0 <= i < |h| ==> !Controls(h[i], s)
  }

  function Deliver(fs: seq<Buffer>, s: nat, cb: Callback): seq<Delivery> {
    seq(|fs|, i requires 0 <= i < |fs| => Delivery(s, cb, fs[i]))
  }

  function OnlyStream(fs: seq<Buffer>, s: nat): seq<Buffer> {
    if fs == [] then []
    else
      var f, before := fs[|fs| - 1], OnlyStream(fs[..|fs| - 1], s);
      if |f| >= FRAME_HEADER_SIZE && StreamIdOf(f) == s then before + [f] else before
  }

  /** The deliveries scheduled for stream `s`. */
  function For(ds: seq<Delivery>, s: nat): seq<Delivery> {
    if ds == [] then []
    else
      var d, before := ds[|ds| - 1], For(ds[..|ds| - 1], s);
      if d.stream == s then before + [d] else before
  }

  lemma ForSnoc(ds: seq<Delivery>, d: Delivery, s: nat)
    ensures For(ds + [d], s) == if d.stream == s then For(ds, s) + [d] else For(ds, s)
  {
    assert (ds + [d])[..|ds|] == ds;
  }

  function FramesOf(ds: seq<Delivery>): seq<Buffer> {
    seq(|ds|, i requires 0 <= i < |ds| => ds[i].frame)
  }

  // --- Facts ---

  lemma {:induction false} ForAppend(a: seq<Delivery>, b: seq<Delivery>, s: nat)
    ensures For(a + b, s) == For(a, s) + For(b, s)
    decreases |b|
  {
    if b == [] {
      assert a + b == a;
    } else {
      assert (a + b)[..|a + b| - 1] == a + b[..|b| - 1];
      ForAppend(a, b[..|b| - 1], s);
    }
  }

  lemma {:induction false} OnStreamAppend(a: seq<Event>, b: seq<Event>, s: nat)
    ensures OnStream(a + b, s) == OnStream(a, s) + OnStream(b, s)
    decreases |b|
  {
    if b == [] {
      assert a + b == a;
    } else {
      assert (a + b)[..|a + b| - 1] == a + b[..|b| - 1];
      OnStreamAppend(a, b[..|b| - 1], s);
    }
  }

  lemma {:induction false} LastControlAppend(a: seq<Event>, b: seq<Event>, s: nat)
    requires Uncontrolled(b, s)
    ensures LastControl(a + b, s) == LastControl(a, s)
    decreases |b|
  {
    if b == [] {
      assert a + b == a;
    } else {
      assert (a + b)[..|a + b| - 1] == a + b[..|b| - 1];
      LastControlAppend(a, b[..|b| - 1], s);
    }
  }

  /** A stream nobody ever touched is owed all its frames. */
  lemma {:induction false} OwedUntouched(h: seq<Event>, s: nat)
    requires LastControl(h, s).None? && s != 0
    ensures Owed(h, s) == OnStream(h, s)
  {
    if h != [] {
      OwedUntouched(h[..|h| - 1], s);
    }
  }

  /** While a callback is registered, the deliveries scheduled for it are the relevant frames in arrival order. */
  lemma {:induction false} DeliveriesAfterAdd(pre: seq<Event>, s: nat, cb: Callback, post: seq<Event>)
    requires Uncontrolled(post, s)
    ensures Sent(pre + [Added(s, cb)] + post, s) == Sent(pre, s) + Deliver(Relevant(post, s), s, cb)
    decreases |post|
  {
    var h := pre + [Added(s, cb)];
    assert h[..|h| - 1] == pre;
    if post == [] {
      assert h + post == h;
    } else {
      var post' := post[..|post| - 1];
      assert (h + post)[..|h + post| - 1] == h + post';
      DeliveriesAfterAdd(pre, s, cb, post');
      LastControlAppend(h, post', s);
    }
  }

  /** From a removal until the stream is next controlled nothing is scheduled for it. */
  lemma {:induction false} NothingScheduledAfterRemoval(h: seq<Event>, s: nat, post: seq<Event>)
    requires Uncontrolled(post, s)
    ensures Sent(h + [Removed(s)] + post, s) == Sent(h, s)
    decreases |post|
  {
    var gone := h + [Removed(s)];
    assert gone[..|gone| - 1] == h;
    if post == [] {
      assert gone + post == gone;
    } else {
      var post' := post[..|post| - 1];
      assert (gone + post)[..|gone + post| - 1] == gone + post';
      NothingScheduledAfterRemoval(h, s, post');
      LastControlAppend(gone, post', s);
    }
  }

  /** From a stop until the stream is next controlled nothing is scheduled for it either. */
  lemma {:induction false} NothingScheduledAfterStop(h: seq<Event>, s: nat, post: seq<Event>)
    requires Uncontrolled(post, s)
    ensures Sent(h + [Stopped(s)] + post, s) == Sent(h, s)
    decreases |post|
  {
    var stopped := h + [Stopped(s)];
    assert stopped[..|stopped| - 1] == h;
    if post == [] {
      assert stopped + post == stopped;
    } else {
      var post' := post[..|post| - 1];
      assert (stopped + post)[..|stopped + post| - 1] == stopped + post';
      NothingScheduledAfterStop(h, s, post');
      LastControlAppend(stopped, post', s);
    }
  }

  lemma {:induction false} SinceControlAppend(h: seq<Event>, control: Event, s: nat, post: seq<Event>)
    requires Controls(control, s) && Uncontrolled(post, s) && s != 0
    ensures LastControl(h + [control] + post, s) == Some(control)
    ensures SinceControl(h + [control] + post, s) == OnStream(post, s)
    decreases |post|
  {
    var controlled := h + [control];
    if post == [] {
      assert controlled + post == controlled;
    } else {
      var post' := post[..|post| - 1];
      assert (controlled + post)[..|controlled + post| - 1] == controlled + post';
      SinceControlAppend(h, control, s, post');
    }
  }

  /**
   * What is kept for a stream from its last stop, add or removal on: after a removal every frame that arrives on it,
   * from scratch, and nothing while it is stopped or has a callback.
   */
  lemma OwedExactly(h: seq<Event>, control: Event, s: nat, post: seq<Event>)
    requires Controls(control, s) && Uncontrolled(post, s) && s != 0
    ensures Owed(h + [control] + post, s) == if control.Removed? then OnStream(post, s) else []
  {
    SinceControlAppend(h, control, s, post);
  }

  lemma {:induction false} RoutedFramesConcat(a: seq<Event>, b: seq<Event>)
    ensures RoutedFrames(a + b) == RoutedFrames(a) + RoutedFrames(b)
    decreases |b|
  {
    if b == [] {
      assert a + b == a;
    } else {
      assert (a + b)[..|a + b| - 1] == a + b[..|b| - 1];
      RoutedFramesConcat(a, b[..|b| - 1]);
    }
  }

  lemma {:induction false} RelevantByStream(h: seq<Event>, s: nat, t: nat)
    requires WellRouted(h) && (t == 0 || t == s)
    ensures OnlyStream(Relevant(h, s), t) == OnStream(h, t)
  {
    if h != [] {
      var h' := h[..|h| - 1];
      RelevantByStream(h', s, t);
      assert forall x: Buffer :: (Relevant(h', s) + [x])[..|Relevant(h', s)|] == Relevant(h', s);
    }
  }

  /**
   * Exactly once, in order. Whatever happened before, the snapshot returned by an add together with the
   * deliveries made from then on (until the stream is next stopped, added or removed) is every frame on
   * stream 0, and, for a stream never controlled before, every frame on it.
   */
  lemma ExactlyOnce(pre: seq<Event>, s: nat, cb: Callback, post: seq<Event>)
    requires s != 0 && Uncontrolled(post, s) && WellRouted(pre + [Added(s, cb)] + post)
    ensures var h := pre + [Added(s, cb)] + post;
            && Sent(h, s) == Sent(pre, s) + Deliver(Relevant(post, s), s, cb)
            && OnStream(pre, 0) + OnlyStream(Relevant(post, s), 0) == OnStream(h, 0)
            && (LastControl(pre, s).None? ==> Owed(pre, s) + OnlyStream(Relevant(post, s), s) == OnStream(h, s))
  {
    var h := pre + [Added(s, cb)] + post;
    DeliveriesAfterAdd(pre, s, cb, post);
    assert WellRouted(post) by {
      forall i | 0 <= i < |post| ensures post[i] == h[|pre| + 1 + i] {}
    }
    RelevantByStream(post, s, 0);
    RelevantByStream(post, s, s);
    AddIsNoFrame(pre, s, cb, 0);
    AddIsNoFrame(pre, s, cb, s);
    OnStreamAppend(pre + [Added(s, cb)], post, 0);
    OnStreamAppend(pre + [Added(s, cb)], post, s);
    if LastControl(pre, s).None? {
      OwedUntouched(pre, s);
    }
  }

  lemma AddIsNoFrame(pre: seq<Event>, s: nat, cb: Callback, t: nat)
    ensures OnStream(pre + [Added(s, cb)], t) == OnStream(pre, t)
  {
    assert (pre + [Added(s, cb)])[..|pre|] == pre;
  }
}
