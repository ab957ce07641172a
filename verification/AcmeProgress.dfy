/** Waits between renewals never form a cycle, so that every caller can still be answered. */
module AcmeProgress {
  import opened Common
  import opened AcmeServer

  /** Where the chain of waits from an attempt ends. */
  function ChainEnd(attempts: seq<Attempt>, a: nat): (end: nat)
    requires WaitsForLater(attempts) && a < |attempts|
    ensures a <= end < |attempts| && !attempts[end].status.Waiting?
    ensures attempts[end].request.key == attempts[a].request.key
    decreases |attempts| - a
  {
    if attempts[a].status.Waiting? then
      assert WaitsWell(attempts, attempts[a].status.on, attempts[a].request.key);
      ChainEnd(attempts, attempts[a].status.on)
    else a
  }

  /** Pending renewals, waits and joined calls are sound in every run, and every chain of waits ends. */
  lemma NoDeadlock(events: seq<Event>)
    ensures var s := Run(EMPTY, events);
      && PendingIsLast(s.pending, s.attempts) && WaitsForLater(s.attempts) && CallsJoin(s.calls, s.attempts)
      && forall c :: 0 <= c < |s.calls| && s.calls[c].stage.Joined? ==>
           var end := ChainEnd(s.attempts, s.calls[c].stage.attempt);
           && (s.attempts[end].Running() || s.attempts[end].status.Done?)
           && s.attempts[end].request.key == s.calls[c].request.key
  {
    OrderlyRun(EMPTY, events);
    var s := Run(EMPTY, events);
    forall c | 0 <= c < |s.calls| && s.calls[c].stage.Joined?
      ensures var end := ChainEnd(s.attempts, s.calls[c].stage.attempt);
              && (s.attempts[end].Running() || s.attempts[end].status.Done?)
              && s.attempts[end].request.key == s.calls[c].request.key
    {
      assert CallWell(s.calls[c], s.attempts);
    }
  }

  // --- Every caller can be answered ---

  lemma {:induction false} RunThen(s: Server, events: seq<Event>, e: Event)
    ensures Run(s, events + [e]) == Next(Run(s, events), e)
    decreases |events|
  {
    if events == [] {
      assert [e][1..] == [];
    } else {
      assert (events + [e])[1..] == events[1..] + [e];
      RunThen(Next(s, events[0]), events[1..], e);
    }
  }

  lemma {:induction false} RunBoth(s: Server, first: seq<Event>, second: seq<Event>)
    ensures Run(s, first + second) == Run(Run(s, first), second)
    decreases |first|
  {
    if first == [] {
      assert first + second == second;
    } else {
      assert (first + second)[1..] == first[1..] + second;
      RunBoth(Next(s, first[0]), first[1..], second);
    }
  }

  /** Success steps of renewals: nothing is started and nothing fails. */
  predicate Succeeds(e: Event) {
    e.EvIssued? || e.EvRevoked? || e.EvSettle?
  }

  predicate AllSucceed(events: seq<Event>) {
    forall i :: 0 <= i < |events| ==> Succeeds(events[i])
  }

  /** t comes from s by steps of attempts from `a` on. */
  predicate OnlyFrom(s: Server, t: Server, a: nat) {
    && t.calls == s.calls && |t.attempts| == |s.attempts|
    && (forall j :: 0 <= j < a && j < |s.attempts| ==> t.attempts[j] == s.attempts[j])
  }

  function Rank(status: Status): nat {
    if status.Issuing? then 2 else if status.Done? then 0 else 1
  }

  /** As long as issuance and revocation succeed, an attempt is done after finitely many steps. */
  lemma {:induction false} Finish(s: Server, a: nat, cert: Cert) returns (events: seq<Event>)
    requires Orderly(s) && a < |s.attempts|
    ensures AllSucceed(events) && OnlyFrom(s, Run(s, events), a)
    ensures Run(s, events).attempts[a].status.Done?
    decreases |s.attempts| - a, Rank(s.attempts[a].status), 1
  {
    match s.attempts[a].status {
      case Done(_) =>
        events := [];
      case Waiting(on) =>
        events := Finish(s, on, cert);
        RunThen(s, events, EvSettle(a));
        events := events + [EvSettle(a)];
      case _ =>
        events := FinishAfter(s, a, cert);
    }
  }

  /** The step by which a running attempt succeeds. */
  function Success(s: Server, a: nat, cert: Cert): Event
    requires a < |s.attempts|
  {
    if s.attempts[a].status.Issuing? then EvIssued(a, cert) else EvRevoked(a)
  }

  lemma SuccessStep(s: Server, a: nat, cert: Cert)
    requires Orderly(s) && a < |s.attempts| && s.attempts[a].Running()
    ensures var t := Next(s, Success(s, a, cert));
      && Orderly(t) && OnlyFrom(s, t, a)
      && (t.attempts[a].status.Waiting? || Rank(t.attempts[a].status) < Rank(s.attempts[a].status))
  {
    OrderlyStep(s, Success(s, a, cert));
  }

  lemma {:induction false} FinishAfter(s: Server, a: nat, cert: Cert) returns (events: seq<Event>)
    requires Orderly(s) && a < |s.attempts| && s.attempts[a].Running()
    ensures AllSucceed(events) && OnlyFrom(s, Run(s, events), a)
    ensures Run(s, events).attempts[a].status.Done?
    decreases |s.attempts| - a, Rank(s.attempts[a].status), 0
  {
    var e := Success(s, a, cert);
    var t := Next(s, e);
    SuccessStep(s, a, cert);
    var rest;
    if t.attempts[a].status.Waiting? {
      var more := Finish(t, t.attempts[a].status.on, cert);
      RunThen(t, more, EvSettle(a));
      rest := more + [EvSettle(a)];
    } else {
      rest := Finish(t, a, cert);
    }
    events := [e] + rest;
    assert events[1..] == rest;
  }

  /** Whatever has happened so far, a call that was not rejected can still be answered, with no failure on the way. */
  lemma CallerCanBeAnswered(events: seq<Event>, c: nat, cert: Cert, now: int) returns (more: seq<Event>)
    requires c < |Run(EMPTY, events).calls| && !Run(EMPTY, events).calls[c].stage.Rejected?
    ensures c < |Run(EMPTY, events + more).calls| && Run(EMPTY, events + more).calls[c].stage.Returned?
    ensures forall e :: e in more ==> !e.EvFailed? && !e.EvReadFails?
  {
    OrderlyRun(EMPTY, events);
    more := Answer(Run(EMPTY, events), c, cert, now);
    RunBoth(EMPTY, events, more);
  }

  function StageRank(stage: Stage): nat {
    match stage
    case Reading => 4
    case Read(_) => 3
    case Ready(_) => 2
    case Joined(_) => 1
    case _ => 0
  }

  function Onward(s: Server, c: nat, now: int): Event
    requires c < |s.calls|
  {
    var stage := s.calls[c].stage;
    if stage.Reading? then EvAnswer(c, None) else if stage.Read? then EvFill(c) else EvResume(c, now)
  }

  lemma OnwardStep(s: Server, c: nat, now: int)
    requires Orderly(s) && c < |s.calls| && StageRank(s.calls[c].stage) >= 2
    ensures var t := Next(s, Onward(s, c, now));
      && Orderly(t) && c < |t.calls| && !t.calls[c].stage.Rejected?
      && StageRank(t.calls[c].stage) < StageRank(s.calls[c].stage)
  {
    OrderlyStep(s, Onward(s, c, now));
  }

  lemma {:induction false} Answer(s: Server, c: nat, cert: Cert, now: int) returns (more: seq<Event>)
    requires Orderly(s) && c < |s.calls| && !s.calls[c].stage.Rejected?
    ensures c < |Run(s, more).calls| && Run(s, more).calls[c].stage.Returned?
    ensures forall e :: e in more ==> !e.EvFailed? && !e.EvReadFails?
    decreases StageRank(s.calls[c].stage)
  {
    var stage := s.calls[c].stage;
    if stage.Returned? {
      more := [];
    } else if stage.Joined? {
      assert CallWell(s.calls[c], s.attempts);
      var finish := Finish(s, stage.attempt, cert);
      RunThen(s, finish, EvReturn(c));
      more := finish + [EvReturn(c)];
    } else {
      OnwardStep(s, c, now);
      var e := Onward(s, c, now);
      var rest := Answer(Next(s, e), c, cert, now);
      more := [e] + rest;
      assert more[1..] == rest;
    }
  }
}
