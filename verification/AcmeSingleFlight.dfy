/** Exactly when a server keeps to one renewal of a key at a time. */
module AcmeSingleFlight {
  import opened Common
  import opened AcmeServer
  import opened AcmeFlight
  import AcmeFleet

  /** The already-expired branch is about to start a renewal of k beside the pending one. */
  predicate Overlaps(s: Server, e: Event, k: Key) {
    && e.EvResume? && Enabled(s, e) && k in s.pending
    && s.calls[e.call].request.key == k && !s.calls[e.call].request.expired
    && s.calls[e.call].stage.found.Some? && s.calls[e.call].stage.found.value.expiry <= e.now
  }

  /** No step of the run overlaps. */
  predicate NeverOverlaps(s: Server, events: seq<Event>, k: Key)
    decreases |events|
  {
    events == [] || (!Overlaps(s, events[0], k) && NeverOverlaps(Next(s, events[0]), events[1..], k))
  }

  /** In every state of the run at most one renewal of k is in flight. */
  predicate AlwaysSingle(s: Server, events: seq<Event>, k: Key)
    decreases |events|
  {
    && Count(InFlight, s.attempts, k) <= 1
    && (events == [] || AlwaysSingle(Next(s, events[0]), events[1..], k))
  }

  /** What is in flight for k is exactly the pending renewal. */
  predicate JustPending(s: Server, k: Key) {
    forall a :: 0 <= a < |s.attempts| ==> (Counted(InFlight, s.attempts[a], k) <==> k in s.pending && s.pending[k] == a)
  }

  predicate AlwaysJustPending(s: Server, events: seq<Event>, k: Key)
    decreases |events|
  {
    JustPending(s, k) && (events == [] || AlwaysJustPending(Next(s, events[0]), events[1..], k))
  }

  // --- The invariant ---

  /** As many in flight as are pending: one or none. */
  predicate Exact(s: Server, k: Key) {
    Count(InFlight, s.attempts, k) == One(k in s.pending)
  }

  lemma ExactIsPending(s: Server, k: Key)
    requires Orderly(s) && Exact(s, k)
    ensures JustPending(s, k)
  {
    forall a | 0 <= a < |s.attempts|
      ensures Counted(InFlight, s.attempts[a], k) <==> k in s.pending && s.pending[k] == a
    {
      OnlyPending(s, k, a);
    }
  }

  lemma StartExact(s: Server, r: Request, cause: Cause, k: Key)
    requires Exact(s, k)
    ensures Count(InFlight, Start(s, r, cause).attempts, k) == One(k in s.pending) + One(r.key == k)
  {
    CountStarted(InFlight, s.attempts, Attempt(r, cause, Issuing), k);
  }

  lemma FailedExact(s: Server, a: nat, k: Key)
    requires Orderly(s) && Exact(s, k) && a < |s.attempts| && s.attempts[a].Running()
    ensures Exact(Failed(s, a), k)
  {
    var r := s.attempts[a].request;
    StartExact(s, r, Retry, k);
    StatusCounts(Start(s, r, Retry), a, Waiting(|s.attempts|), k);
    OnlyPending(s, k, a);
  }

  lemma PublishExact(s: Server, a: nat, cert: Cert, k: Key)
    requires Orderly(s) && Exact(s, k) && a < |s.attempts| && s.attempts[a].Running()
    ensures Exact(Publish(s, a, cert), k)
  {
    StatusCounts(s, a, Done(cert), k);
    OnlyPending(s, k, a);
  }

  lemma IssuedExact(s: Server, a: nat, cert: Cert, k: Key)
    requires Orderly(s) && Exact(s, k) && a < |s.attempts| && s.attempts[a].status.Issuing?
    ensures Exact(Issued(s, a, cert), k)
    ensures s.attempts[a].request.key == k ==> !Issued(s, a, cert).attempts[a].status.Waiting?
  {
    var r := s.attempts[a].request;
    OnlyPending(s, k, a);
    if r.key in s.pending && s.pending[r.key] != a {
      StatusCounts(s, a, Waiting(s.pending[r.key]), k);
    } else if r.revoked {
      StatusCounts(s, a, Revoking(cert), k);
    } else {
      PublishExact(s, a, cert, k);
    }
  }

  /** What a resumed call starts, if anything. */
  function Started(s: Server, c: nat, now: int): Option<Cause>
    requires c < |s.calls| && s.calls[c].stage.Ready?
  {
    var r := s.calls[c].request;
    match s.calls[c].stage.found
    case Some(cert) =>
      if cert.expiry <= now then (if r.expired then None else Some(Expired))
      else if !r.expired && cert.expiry - now < PROACTIVE_REFRESH_TIME && r.key !in s.pending then Some(NearExpiry)
      else None
    case None => if r.key in s.pending then None else Some(Missing)
  }

  lemma ResumeStarts(s: Server, c: nat, now: int)
    requires c < |s.calls| && s.calls[c].stage.Ready?
    ensures var t, cause := Resume(s, c, now), Started(s, c, now);
      if cause.None? then t.attempts == s.attempts && t.pending == s.pending
      else var u := Start(s, s.calls[c].request, cause.value); t.attempts == u.attempts && t.pending == u.pending
  {
  }

  /** A call that resumes keeps the invariant unless it overlaps; then two renewals are in flight. */
  lemma ResumeExact(s: Server, c: nat, now: int, k: Key)
    requires Exact(s, k) && c < |s.calls| && s.calls[c].stage.Ready?
    ensures !Overlaps(s, EvResume(c, now), k) ==> Exact(Resume(s, c, now), k)
    ensures Overlaps(s, EvResume(c, now), k) ==> Count(InFlight, Resume(s, c, now).attempts, k) == 2
  {
    ResumeStarts(s, c, now);
    var cause := Started(s, c, now);
    if cause.Some? {
      StartExact(s, s.calls[c].request, cause.value, k);
    }
  }

  lemma ExactStep(s: Server, e: Event, k: Key)
    requires Orderly(s) && Exact(s, k)
    ensures !Overlaps(s, e, k) ==> Exact(Next(s, e), k)
    ensures Overlaps(s, e, k) ==> Count(InFlight, Next(s, e).attempts, k) == 2
  {
    if Enabled(s, e) {
      match e
      case EvResume(c, now) => ResumeExact(s, c, now, k);
      case EvIssued(a, cert) => IssuedExact(s, a, cert, k);
      case EvRevoked(a) => PublishExact(s, a, s.attempts[a].status.cert, k);
      case EvFailed(a) => FailedExact(s, a, k);
      case EvSettle(a) => StatusCounts(s, a, Done(s.attempts[s.attempts[a].status.on].status.cert), k);
      case _ =>
    }
  }

  // --- Exactly when ---

  lemma {:induction false} SingleFrom(s: Server, events: seq<Event>, k: Key)
    requires Orderly(s) && Exact(s, k)
    ensures AlwaysSingle(s, events, k) <==> NeverOverlaps(s, events, k)
    ensures NeverOverlaps(s, events, k) ==> AlwaysJustPending(s, events, k)
    decreases |events|
  {
    ExactIsPending(s, k);
    if events != [] {
      var t := Next(s, events[0]);
      OrderlyStep(s, events[0]);
      ExactStep(s, events[0], k);
      if !Overlaps(s, events[0], k) {
        SingleFrom(t, events[1..], k);
      }
    }
  }

  /**
   * In every run from an empty server: at most one renewal of a key is in flight in every state, if and only if no
   * step of the run takes the already-expired branch while a renewal of that key is pending. Then the one in
   * flight is the pending one, in every state.
   */
  lemma SingleFlightExactly(events: seq<Event>, k: Key)
    ensures AlwaysSingle(EMPTY, events, k) <==> NeverOverlaps(EMPTY, events, k)
    ensures NeverOverlaps(EMPTY, events, k) ==> AlwaysJustPending(EMPTY, events, k)
  {
    SingleFrom(EMPTY, events, k);
  }

  // --- Being superseded ---

  /** Two renewals of k overlap: the earlier one, once issued, waits for the later one. */
  lemma OverlapSupersedes(s: Server, e: Event, k: Key, cert: Cert)
    requires Orderly(s) && Overlaps(s, e, k) && s.attempts[s.pending[k]].status.Issuing?
    ensures var p, t := s.pending[k], Next(s, e);
      && p < |s.attempts| && t.pending[k] == |s.attempts|
      && Next(t, EvIssued(p, cert)).attempts[p].status == Waiting(|s.attempts|)
  {
    assert LastFor(s.attempts, k, s.pending[k]);
  }

  lemma {:induction false} ExactRun(s: Server, events: seq<Event>, k: Key)
    requires Orderly(s) && Exact(s, k) && NeverOverlaps(s, events, k)
    ensures Orderly(Run(s, events)) && Exact(Run(s, events), k)
    decreases |events|
  {
    if events != [] {
      OrderlyStep(s, events[0]);
      ExactStep(s, events[0], k);
      ExactRun(Next(s, events[0]), events[1..], k);
    }
  }

  /** And only then: without an overlap no attempt is ever superseded. */
  lemma NoOverlapNoSuperseding(events: seq<Event>, k: Key, a: nat, cert: Cert)
    requires NeverOverlaps(EMPTY, events, k) && Enabled(Run(EMPTY, events), EvIssued(a, cert))
    requires Run(EMPTY, events).attempts[a].request.key == k
    ensures !Next(Run(EMPTY, events), EvIssued(a, cert)).attempts[a].status.Waiting?
  {
    ExactRun(EMPTY, events, k);
    IssuedExact(Run(EMPTY, events), a, cert, k);
  }

  // --- Each server of a fleet ---

  predicate FleetOverlaps(f: AcmeFleet.Fleet, step: AcmeFleet.Step, i: nat, k: Key)
    requires i < |f.servers|
  {
    step.Resume? && step.server == i && Overlaps(f.servers[i], EvResume(step.call, f.now), k)
  }

  predicate FleetNeverOverlaps(f: AcmeFleet.Fleet, steps: seq<AcmeFleet.Step>, i: nat, k: Key)
    requires f.Valid() && i < |f.servers|
    decreases |steps|
  {
    steps == [] ||
      (!FleetOverlaps(f, steps[0], i, k) && FleetNeverOverlaps(AcmeFleet.FleetNext(f, steps[0]), steps[1..], i, k))
  }

  predicate FleetAlwaysSingle(f: AcmeFleet.Fleet, steps: seq<AcmeFleet.Step>, i: nat, k: Key)
    requires f.Valid() && i < |f.servers|
    decreases |steps|
  {
    && Count(InFlight, f.servers[i].attempts, k) <= 1
    && (steps == [] || FleetAlwaysSingle(AcmeFleet.FleetNext(f, steps[0]), steps[1..], i, k))
  }

  predicate FleetAlwaysJustPending(f: AcmeFleet.Fleet, steps: seq<AcmeFleet.Step>, i: nat, k: Key)
    requires f.Valid() && i < |f.servers|
    decreases |steps|
  {
    && JustPending(f.servers[i], k)
    && (steps == [] || FleetAlwaysJustPending(AcmeFleet.FleetNext(f, steps[0]), steps[1..], i, k))
  }

  lemma FleetExactStep(f: AcmeFleet.Fleet, step: AcmeFleet.Step, i: nat, k: Key)
    requires f.Valid() && i < |f.servers| && Orderly(f.servers[i]) && Exact(f.servers[i], k)
    ensures var t := AcmeFleet.FleetNext(f, step).servers[i];
      && Orderly(t)
      && (!FleetOverlaps(f, step, i, k) ==> Exact(t, k))
      && (FleetOverlaps(f, step, i, k) ==> Count(InFlight, t.attempts, k) == 2)
  {
    var s := f.servers[i];
    if step.Resume? && step.server == i {
      OrderlyStep(s, EvResume(step.call, f.now));
      ExactStep(s, EvResume(step.call, f.now), k);
    } else if AcmeFleet.FleetNext(f, step).servers[i] != s && !step.Restart? {
      var e := AcmeFleet.OwnEvent(f, step, i);
      OrderlyStep(s, e);
      ExactStep(s, e, k);
    }
  }

  lemma {:induction false} FleetSingleFrom(f: AcmeFleet.Fleet, steps: seq<AcmeFleet.Step>, i: nat, k: Key)
    requires f.Valid() && i < |f.servers| && Orderly(f.servers[i]) && Exact(f.servers[i], k)
    ensures FleetAlwaysSingle(f, steps, i, k) <==> FleetNeverOverlaps(f, steps, i, k)
    ensures FleetNeverOverlaps(f, steps, i, k) ==> FleetAlwaysJustPending(f, steps, i, k)
    decreases |steps|
  {
    ExactIsPending(f.servers[i], k);
    if steps != [] {
      FleetExactStep(f, steps[0], i, k);
      if !FleetOverlaps(f, steps[0], i, k) {
        FleetSingleFrom(AcmeFleet.FleetNext(f, steps[0]), steps[1..], i, k);
      }
    }
  }

  /** The same of each server of a fleet, with restarts, whatever the others and the store do. */
  lemma FleetSingleFlightExactly(f: AcmeFleet.Fleet, steps: seq<AcmeFleet.Step>, i: nat, k: Key)
    requires AcmeFleet.Cold(f) && i < |f.servers|
    ensures FleetAlwaysSingle(f, steps, i, k) <==> FleetNeverOverlaps(f, steps, i, k)
    ensures FleetNeverOverlaps(f, steps, i, k) ==> FleetAlwaysJustPending(f, steps, i, k)
  {
    FleetSingleFrom(f, steps, i, k);
  }
}
