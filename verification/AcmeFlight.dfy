/** How many renewals of a key run at once. */
module AcmeFlight {
  import opened Common
  import opened AcmeServer
  import opened AcmeProgress
  import AcmeFleet

  datatype Tally = InFlight | ExpiredStarts

  predicate Counted(t: Tally, a: Attempt, k: Key) {
    a.request.key == k && if t.InFlight? then a.Running() else a.cause.Expired?
  }

  function One(b: bool): nat {
    if b then 1 else 0
  }

  function Count(t: Tally, attempts: seq<Attempt>, k: Key): nat {
    if attempts == [] then 0
    else Count(t, attempts[..|attempts| - 1], k) + One(Counted(t, attempts[|attempts| - 1], k))
  }

  lemma CountStarted(t: Tally, attempts: seq<Attempt>, x: Attempt, k: Key)
    ensures Count(t, attempts + [x], k) == Count(t, attempts, k) + One(Counted(t, x, k))
  {
    assert (attempts + [x])[..|attempts|] == attempts;
  }

  lemma {:induction false} CountChanged(t: Tally, attempts: seq<Attempt>, a: nat, x: Attempt, k: Key)
    requires a < |attempts|
    ensures Count(t, attempts[a := x], k) + One(Counted(t, attempts[a], k)) ==
      Count(t, attempts, k) + One(Counted(t, x, k))
  {
    var n := |attempts| - 1;
    if a == n {
      assert attempts[a := x][..n] == attempts[..n];
    } else {
      CountChanged(t, attempts[..n], a, x, k);
      assert attempts[a := x][..n] == attempts[..n][a := x];
    }
  }

  lemma {:induction false} CountAtLeastOne(t: Tally, attempts: seq<Attempt>, a: nat, k: Key)
    requires a < |attempts| && Counted(t, attempts[a], k)
    ensures Count(t, attempts, k) >= 1
  {
    if a < |attempts| - 1 {
      CountAtLeastOne(t, attempts[..|attempts| - 1], a, k);
    }
  }

  lemma {:induction false} CountAtLeastTwo(t: Tally, attempts: seq<Attempt>, a: nat, b: nat, k: Key)
    requires a < b < |attempts| && Counted(t, attempts[a], k) && Counted(t, attempts[b], k)
    ensures Count(t, attempts, k) >= 2
  {
    var shorter := attempts[..|attempts| - 1];
    if b < |attempts| - 1 {
      CountAtLeastTwo(t, shorter, a, b, k);
    } else {
      CountAtLeastOne(t, shorter, a, k);
    }
  }

  /** At most the pending renewal, and one more for every start of the already-expired branch. */
  predicate Bounded(s: Server, k: Key) {
    Count(InFlight, s.attempts, k) <= Count(ExpiredStarts, s.attempts, k) + One(k in s.pending)
  }

  lemma StartBounded(s: Server, r: Request, cause: Cause, k: Key)
    requires Bounded(s, k) && (cause.Expired? || r.key !in s.pending)
    ensures Bounded(Start(s, r, cause), k)
  {
    CountStarted(InFlight, s.attempts, Attempt(r, cause, Issuing), k);
    CountStarted(ExpiredStarts, s.attempts, Attempt(r, cause, Issuing), k);
  }

  /** The change in both counts when one attempt changes status. */
  lemma StatusCounts(s: Server, a: nat, status: Status, k: Key)
    requires a < |s.attempts|
    ensures var n, x := SetStatus(s, a, status).attempts, s.attempts[a].(status := status);
      && Count(InFlight, n, k) + One(Counted(InFlight, s.attempts[a], k)) ==
         Count(InFlight, s.attempts, k) + One(Counted(InFlight, x, k))
      && Count(ExpiredStarts, n, k) == Count(ExpiredStarts, s.attempts, k)
  {
    CountChanged(InFlight, s.attempts, a, s.attempts[a].(status := status), k);
    CountChanged(ExpiredStarts, s.attempts, a, s.attempts[a].(status := status), k);
  }

  lemma FailedBounded(s: Server, a: nat, k: Key)
    requires Bounded(s, k) && a < |s.attempts| && s.attempts[a].Running()
    ensures Bounded(Failed(s, a), k)
  {
    var r := s.attempts[a].request;
    CountStarted(InFlight, s.attempts, Attempt(r, Retry, Issuing), k);
    CountStarted(ExpiredStarts, s.attempts, Attempt(r, Retry, Issuing), k);
    StatusCounts(Start(s, r, Retry), a, Waiting(|s.attempts|), k);
  }

  lemma PublishBounded(s: Server, a: nat, cert: Cert, k: Key)
    requires Bounded(s, k) && a < |s.attempts| && s.attempts[a].Running()
    ensures Bounded(Publish(s, a, cert), k)
  {
    StatusCounts(s, a, Done(cert), k);
  }

  lemma ResumeBounded(s: Server, c: nat, now: int, k: Key)
    requires Bounded(s, k) && c < |s.calls| && s.calls[c].stage.Ready?
    ensures Bounded(Resume(s, c, now), k)
  {
    var r := s.calls[c].request;
    var found := s.calls[c].stage.found;
    if found.Some? && found.value.expiry <= now && !r.expired {
      StartBounded(ClearCache(s, r.key), r, Expired, k);
    } else if r.key !in s.pending {
      StartBounded(s, r, if found.Some? then NearExpiry else Missing, k);
    }
  }

  lemma IssuedBounded(s: Server, a: nat, cert: Cert, k: Key)
    requires Bounded(s, k) && a < |s.attempts| && s.attempts[a].status.Issuing?
    ensures Bounded(Issued(s, a, cert), k)
  {
    var r := s.attempts[a].request;
    if r.key in s.pending && s.pending[r.key] != a {
      StatusCounts(s, a, Waiting(s.pending[r.key]), k);
    } else if r.revoked {
      StatusCounts(s, a, Revoking(cert), k);
    } else {
      PublishBounded(s, a, cert, k);
    }
  }

  lemma BoundedStep(s: Server, e: Event, k: Key)
    requires Bounded(s, k)
    ensures Bounded(Next(s, e), k)
  {
    if Enabled(s, e) {
      match e
      case EvResume(c, now) => ResumeBounded(s, c, now, k);
      case EvIssued(a, cert) => IssuedBounded(s, a, cert, k);
      case EvRevoked(a) => PublishBounded(s, a, s.attempts[a].status.cert, k);
      case EvFailed(a) => FailedBounded(s, a, k);
      case EvSettle(a) => StatusCounts(s, a, Done(s.attempts[s.attempts[a].status.on].status.cert), k);
      case _ =>
    }
  }

  lemma {:induction false} BoundedRun(s: Server, events: seq<Event>, k: Key)
    requires Bounded(s, k)
    ensures Bounded(Run(s, events), k)
    decreases |events|
  {
    if events != [] {
      BoundedStep(s, events[0], k);
      BoundedRun(Next(s, events[0]), events[1..], k);
    }
  }

  /**
   * In every run the renewals in flight for a key number at most one more than the starts of the
   * already-expired branch; and as long as that branch was never taken for the key, what is in flight is
   * exactly the pending renewal.
   */
  lemma SingleFlight(events: seq<Event>, k: Key)
    ensures var s := Run(EMPTY, events);
      && Count(InFlight, s.attempts, k) <= Count(ExpiredStarts, s.attempts, k) + One(k in s.pending)
      && (Count(ExpiredStarts, s.attempts, k) == 0 ==>
           forall a :: 0 <= a < |s.attempts| ==>
             (Counted(InFlight, s.attempts[a], k) <==> k in s.pending && s.pending[k] == a))
  {
    var s := Run(EMPTY, events);
    BoundedRun(EMPTY, events, k);
    OrderlyRun(EMPTY, events);
    if Count(ExpiredStarts, s.attempts, k) == 0 {
      forall a | 0 <= a < |s.attempts|
        ensures Counted(InFlight, s.attempts[a], k) <==> k in s.pending && s.pending[k] == a
      {
        OnlyPending(s, k, a);
      }
    }
  }

  /** The same of every server of a fleet, whatever the others and the store do. */
  lemma FleetSingleFlight(f: AcmeFleet.Fleet, steps: seq<AcmeFleet.Step>, i: nat, k: Key)
    requires AcmeFleet.Cold(f) && i < |f.servers|
    ensures i < |AcmeFleet.FleetRun(f, steps).servers|
    ensures var s := AcmeFleet.FleetRun(f, steps).servers[i];
      && Orderly(s)
      && Count(InFlight, s.attempts, k) <= Count(ExpiredStarts, s.attempts, k) + One(k in s.pending)
      && (Count(ExpiredStarts, s.attempts, k) == 0 ==>
           forall a :: 0 <= a < |s.attempts| ==>
             (Counted(InFlight, s.attempts[a], k) <==> k in s.pending && s.pending[k] == a))
  {
    var events := AcmeFleet.ServerRun(f, steps, i, []);
    SingleFlight(events, k);
    OrderlyRun(EMPTY, events);
  }

  lemma OnlyPending(s: Server, k: Key, a: nat)
    requires Orderly(s) && a < |s.attempts| && Count(InFlight, s.attempts, k) <= One(k in s.pending)
    ensures Counted(InFlight, s.attempts[a], k) <==> k in s.pending && s.pending[k] == a
  {
    if k in s.pending {
      var p := s.pending[k];
      assert LastFor(s.attempts, k, p);
      if Counted(InFlight, s.attempts[a], k) && a < p {
        CountAtLeastTwo(InFlight, s.attempts, a, p, k);
      }
    } else if Counted(InFlight, s.attempts[a], k) {
      CountAtLeastOne(InFlight, s.attempts, a, k);
    }
  }

  // --- The bound is reached ---

  /** One call that finds nothing in the cache and `found` in the store. */
  function Round(s: Server, r: Request, found: Option<Cert>, now: int): seq<Event> {
    var c := |s.calls|;
    [EvBegin(r), EvAnswer(c, found), EvFill(c), EvResume(c, now)]
  }

  function AfterRound(s: Server, r: Request, found: Option<Cert>, now: int): Server {
    Next(Next(Next(Next(s, EvBegin(r)), EvAnswer(|s.calls|, found)), EvFill(|s.calls|)), EvResume(|s.calls|, now))
  }

  lemma RunRound(s: Server, r: Request, found: Option<Cert>, now: int)
    ensures Run(s, Round(s, r, found, now)) == AfterRound(s, r, found, now)
  {
    var e := Round(s, r, found, now);
    assert e[1..] == [e[1], e[2], e[3]] && [e[1], e[2], e[3]][1..] == [e[2], e[3]];
    assert [e[2], e[3]][1..] == [e[3]] && [e[3]][1..] == [];
    var s2 := Next(Next(s, e[0]), e[1]);
    assert Run(s2, [e[2], e[3]]) == Run(Next(s2, e[2]), [e[3]]);
    assert Run(Next(s2, e[2]), [e[3]]) == Next(Next(s2, e[2]), e[3]);
  }

  lemma ExpiredRound(s: Server, r: Request, cert: Cert, now: int)
    requires r.key !in s.cache && !r.expired && cert.expiry <= now
    ensures var t := AfterRound(s, r, Some(cert), now);
      && r.key !in t.cache
      && Count(InFlight, t.attempts, r.key) == Count(InFlight, s.attempts, r.key) + 1
      && Count(ExpiredStarts, t.attempts, r.key) == Count(ExpiredStarts, s.attempts, r.key) + 1
  {
    CountStarted(InFlight, s.attempts, Attempt(r, Expired, Issuing), r.key);
    CountStarted(ExpiredStarts, s.attempts, Attempt(r, Expired, Issuing), r.key);
    assert AfterRound(s, r, Some(cert), now).attempts == s.attempts + [Attempt(r, Expired, Issuing)];
  }

  /** For every n there is a run with n starts of the already-expired branch and n + 1 renewals in flight. */
  lemma {:induction false} BoundIsReached(n: nat, r: Request, cert: Cert) returns (events: seq<Event>)
    requires !r.expired
    ensures var s := Run(EMPTY, events);
      && r.key !in s.cache
      && Count(ExpiredStarts, s.attempts, r.key) == n
      && Count(InFlight, s.attempts, r.key) == n + 1
  {
    if n == 0 {
      events := Round(EMPTY, r, None, cert.expiry);
      RunRound(EMPTY, r, None, cert.expiry);
      var t := AfterRound(EMPTY, r, None, cert.expiry);
      assert t.attempts == [] + [Attempt(r, Missing, Issuing)];
      CountStarted(InFlight, [], Attempt(r, Missing, Issuing), r.key);
      CountStarted(ExpiredStarts, [], Attempt(r, Missing, Issuing), r.key);
    } else {
      var before := BoundIsReached(n - 1, r, cert);
      var s := Run(EMPTY, before);
      var round := Round(s, r, Some(cert), cert.expiry);
      ExpiredRound(s, r, cert, cert.expiry);
      RunRound(s, r, Some(cert), cert.expiry);
      RunBoth(EMPTY, before, round);
      events := before + round;
    }
  }
}
