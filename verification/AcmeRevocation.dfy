/** Exactly when revocation before publication is kept in every run, whatever the store holds at the start. */
module AcmeRevocation {
  import opened Common
  import opened AcmeServer
  import opened AcmeFleet
  import CertCacheKey

  type Requests = iset<(string, CertCacheKey.CertOptions)>

  /** Every admitted request with key k wants a certificate that has expired. */
  ghost predicate AllExpired(admitted: Requests, k: Key) {
    forall r :: r in admitted && RequestFor(r.0, r.1).key == k ==> r.1.expired
  }

  // --- In expired mode a stored certificate is kept and served, and nothing is issued ---

  predicate KeptCall(call: Call, revoked: set<nat>, k: Key) {
    call.request.key == k ==>
      && call.request.expired
      && match call.stage
         case Read(found) => found.Some? && found.value.id in revoked
         case Ready(found) => found.Some? && found.value.id in revoked
         case Returned(cert) => cert.id in revoked
         case Joined(_) => false
         case _ => true
  }

  predicate KeptServer(s: Server, revoked: set<nat>, k: Key) {
    && SafeMap(s.cache, revoked, k)
    && (forall c :: c in s.calls ==> KeptCall(c, revoked, k))
    && (forall a :: a in s.attempts ==> a.request.key != k)
    && (forall op :: op in s.ops ==> op.key != k)
  }

  predicate KeptFleet(f: Fleet, k: Key) {
    && k in f.store && f.store[k].id in f.revoked
    && (forall i :: 0 <= i < |f.servers| ==> KeptServer(f.servers[i], f.revoked, k))
    && (forall i :: 0 <= i < |f.loading| ==> SafeMap(f.loading[i], f.revoked, k))
  }

  predicate KeptEvent(s: Server, e: Event, revoked: set<nat>, k: Key) {
    match e
    case EvBegin(r) => r.key == k ==> r.expired
    case EvAnswer(c, found) =>
      c < |s.calls| && s.calls[c].request.key == k ==> found.Some? && found.value.id in revoked
    case EvLoad(certs) => SafeMap(certs, revoked, k)
    case _ => true
  }

  lemma StageKept(s: Server, c: nat, stage: Stage, revoked: set<nat>, k: Key)
    requires KeptServer(s, revoked, k) && c < |s.calls| && KeptCall(s.calls[c].(stage := stage), revoked, k)
    ensures KeptServer(SetStage(s, c, stage), revoked, k)
  {
  }

  lemma StatusKept(s: Server, a: nat, status: Status, revoked: set<nat>, k: Key)
    requires KeptServer(s, revoked, k) && a < |s.attempts|
    ensures KeptServer(SetStatus(s, a, status), revoked, k) && s.attempts[a].request.key != k
  {
    assert s.attempts[a] in s.attempts;
  }

  lemma StartKept(s: Server, r: Request, cause: Cause, revoked: set<nat>, k: Key)
    requires KeptServer(s, revoked, k) && r.key != k
    ensures KeptServer(Start(s, r, cause), revoked, k)
  {
  }

  lemma PublishKept(s: Server, a: nat, cert: Cert, revoked: set<nat>, k: Key)
    requires KeptServer(s, revoked, k) && a < |s.attempts|
    ensures KeptServer(Publish(s, a, cert), revoked, k)
  {
    StatusKept(s, a, Done(cert), revoked, k);
  }

  lemma IssuedKept(s: Server, a: nat, cert: Cert, revoked: set<nat>, k: Key)
    requires KeptServer(s, revoked, k) && a < |s.attempts|
    ensures KeptServer(Issued(s, a, cert), revoked, k)
  {
    var r := s.attempts[a].request;
    if r.key in s.pending && s.pending[r.key] != a {
      StatusKept(s, a, Waiting(s.pending[r.key]), revoked, k);
    } else if r.revoked {
      StatusKept(s, a, Revoking(cert), revoked, k);
    } else {
      PublishKept(s, a, cert, revoked, k);
    }
  }

  lemma FailedKept(s: Server, a: nat, revoked: set<nat>, k: Key)
    requires KeptServer(s, revoked, k) && a < |s.attempts|
    ensures KeptServer(Failed(s, a), revoked, k)
  {
    StatusKept(s, a, Revoking(Cert(0, 0)), revoked, k);
    StartKept(s, s.attempts[a].request, Retry, revoked, k);
    StatusKept(Start(s, s.attempts[a].request, Retry), a, Waiting(|s.attempts|), revoked, k);
  }

  lemma ResumeKept(s: Server, c: nat, now: int, revoked: set<nat>, k: Key)
    requires KeptServer(s, revoked, k) && c < |s.calls| && s.calls[c].stage.Ready?
    ensures KeptServer(AcmeServer.Resume(s, c, now), revoked, k)
  {
    var r := s.calls[c].request;
    var found := s.calls[c].stage.found;
    assert KeptCall(s.calls[c], revoked, k);
    if found.Some? && (r.expired || r.key == k) {
      StageKept(s, c, Returned(found.value), revoked, k);
    } else if found.Some? && found.value.expiry <= now {
      var cleared := ClearCache(s, r.key);
      assert KeptServer(cleared, revoked, k);
      StartKept(cleared, r, Expired, revoked, k);
      StageKept(Start(cleared, r, Expired), c, Joined(|s.attempts|), revoked, k);
    } else if found.Some? {
      StartKept(s, r, NearExpiry, revoked, k);
      StageKept(s, c, Returned(found.value), revoked, k);
      StageKept(Start(s, r, NearExpiry), c, Returned(found.value), revoked, k);
    } else if r.key in s.pending {
      StageKept(s, c, Joined(s.pending[r.key]), revoked, k);
    } else {
      StartKept(s, r, Missing, revoked, k);
      StageKept(Start(s, r, Missing), c, Joined(|s.attempts|), revoked, k);
    }
  }

  lemma CallStepKept(s: Server, e: Event, revoked: set<nat>, k: Key)
    requires KeptServer(s, revoked, k) && KeptEvent(s, e, revoked, k) && Enabled(s, e)
    requires e.EvAnswer? || e.EvReadFails? || e.EvFill? || e.EvReturn?
    ensures KeptServer(Next(s, e), revoked, k)
  {
    assert KeptCall(s.calls[e.call], revoked, k);
    match e
    case EvAnswer(c, found) => StageKept(s, c, Read(found), revoked, k);
    case EvReadFails(c) => StageKept(s, c, Rejected, revoked, k);
    case EvFill(c) => StageKept(s, c, Ready(s.calls[c].stage.found), revoked, k);
    case EvReturn(c) => StageKept(s, c, Returned(s.attempts[s.calls[c].stage.attempt].status.cert), revoked, k);
  }

  lemma ServerStepKept(s: Server, e: Event, revoked: set<nat>, k: Key)
    requires KeptServer(s, revoked, k) && KeptEvent(s, e, revoked, k)
    ensures KeptServer(Next(s, e), revoked, k)
  {
    if Enabled(s, e) {
      match e
      case EvBegin(r) => BeginKept(s, r, revoked, k);
      case EvResume(c, now) => ResumeKept(s, c, now, revoked, k);
      case EvIssued(a, cert) => IssuedKept(s, a, cert, revoked, k);
      case EvRevoked(a) => PublishKept(s, a, s.attempts[a].status.cert, revoked, k);
      case EvFailed(a) => FailedKept(s, a, revoked, k);
      case EvSettle(a) => StatusKept(s, a, Done(s.attempts[s.attempts[a].status.on].status.cert), revoked, k);
      case EvOpDone(n) => OpDoneKept(s, n, revoked, k);
      case EvLoad(_) =>
      case _ => CallStepKept(s, e, revoked, k);
    }
  }

  lemma BeginKept(s: Server, r: Request, revoked: set<nat>, k: Key)
    requires KeptServer(s, revoked, k) && (r.key == k ==> r.expired)
    ensures KeptServer(Begin(s, r), revoked, k)
  {
  }

  lemma OpDoneKept(s: Server, n: nat, revoked: set<nat>, k: Key)
    requires KeptServer(s, revoked, k) && n < |s.ops|
    ensures KeptServer(Next(s, EvOpDone(n)), revoked, k) && s.ops[n].key != k
  {
    assert forall op :: op in s.ops[..n] + s.ops[n + 1..] ==> op in s.ops;
    assert s.ops[n] in s.ops;
  }

  lemma MoreRevokedKept(s: Server, before: set<nat>, after: set<nat>, k: Key)
    requires KeptServer(s, before, k) && before <= after
    ensures KeptServer(s, after, k)
  {
    forall c | c in s.calls
      ensures KeptCall(c, after, k)
    {
      assert KeptCall(c, before, k);
    }
  }

  /** A request under key k is in expired mode. */
  predicate ExpiredMode(step: Step, k: Key) {
    step.Ask? && RequestFor(step.domain, step.options).key == k ==> step.options.expired
  }

  lemma HappensKept(f: Fleet, i: nat, e: Event, k: Key)
    requires f.Valid() && KeptFleet(f, k) && i < |f.servers| && KeptEvent(f.servers[i], e, f.revoked, k)
    ensures KeptFleet(Happens(f, i, e), k)
  {
    ServerStepKept(f.servers[i], e, f.revoked, k);
  }

  lemma RevokeKept(f: Fleet, id: nat, k: Key)
    requires KeptFleet(f, k)
    ensures KeptFleet(f.(revoked := f.revoked + {id}), k)
  {
    forall i | 0 <= i < |f.servers|
      ensures KeptServer(f.servers[i], f.revoked + {id}, k)
    {
      MoreRevokedKept(f.servers[i], f.revoked, f.revoked + {id}, k);
    }
  }

  lemma StoreStepKept(f: Fleet, step: Step, k: Key)
    requires f.Valid() && KeptFleet(f, k)
    requires (step.StoreReads? || step.OpApplied? || step.LoadReads? || step.LoadFills?) && step.server < |f.servers|
    ensures KeptFleet(FleetNext(f, step), k)
  {
    var i, s := step.server, f.servers[step.server];
    match step
    case StoreReads(_, c) =>
      if c < |s.calls| {
        HappensKept(f, i, EvAnswer(c, Lookup(f.store, s.calls[c].request.key)), k);
      }
    case OpApplied(_, n) =>
      if n < |s.ops| {
        OpDoneKept(s, n, f.revoked, k);
        HappensKept(f, i, EvOpDone(n), k);
      }
    case LoadReads(_, _) =>
    case LoadFills(_) => HappensKept(f, i, EvLoad(f.loading[i]), k);
  }

  lemma FleetStepKept(f: Fleet, step: Step, k: Key)
    requires f.Valid() && KeptFleet(f, k) && ExpiredMode(step, k)
    ensures KeptFleet(FleetNext(f, step), k)
  {
    if !step.Tick? && step.server < |f.servers| {
      match step
      case Ask(i, domain, o) => HappensKept(f, i, EvBegin(RequestFor(domain, o)), k);
      case Local(i, e) =>
        if Internal(e) {
          HappensKept(f, i, e, k);
        }
      case Resume(i, c) => HappensKept(f, i, EvResume(c, f.now), k);
      case Revoke(i, a) =>
        if FleetNext(f, step) != f {
          RevokeKept(f, f.servers[i].attempts[a].status.cert.id, k);
        }
      case RevokeReturns(i, a) =>
        if FleetNext(f, step) != f {
          HappensKept(f, i, EvRevoked(a), k);
        }
      case Restart(_) =>
      case _ => StoreStepKept(f, step, k);
    }
  }

  lemma {:induction false} FleetRunKept(f: Fleet, steps: seq<Step>, k: Key)
    requires f.Valid() && KeptFleet(f, k) && forall i :: 0 <= i < |steps| ==> ExpiredMode(steps[i], k)
    ensures KeptFleet(FleetRun(f, steps), k)
    decreases |steps|
  {
    if steps != [] {
      FleetStepKept(f, steps[0], k);
      forall i | 0 <= i < |steps[1..]|
        ensures ExpiredMode(steps[1..][i], k)
      {
        assert steps[1..][i] == steps[i + 1];
      }
      FleetRunKept(FleetNext(f, steps[0]), steps[1..], k);
    }
  }

  lemma KeptMeansOnlyRevoked(f: Fleet, k: Key)
    requires KeptFleet(f, k)
    ensures OnlyRevoked(f, k)
  {
    forall i | 0 <= i < |f.servers|
      ensures var s := f.servers[i];
              && (k in s.cache ==> s.cache[k].id in f.revoked)
              && (forall c :: c in s.calls && c.request.key == k && c.stage.Returned? ==> c.stage.cert.id in f.revoked)
              && (forall op :: op in s.ops && op.Write? && op.key == k ==> op.cert.id in f.revoked)
    {
      var s := f.servers[i];
      assert KeptServer(s, f.revoked, k);
      forall c | c in s.calls && c.request.key == k && c.stage.Returned?
        ensures c.stage.cert.id in f.revoked
      {
        assert KeptCall(c, f.revoked, k);
      }
    }
  }

  lemma ExpiredModeKeeps(f: Fleet, admitted: Requests, k: Key)
    requires Cold(f) && k in f.store && f.store[k].id in f.revoked && AllExpired(admitted, k)
    ensures AlwaysOnlyRevoked(f, admitted, k)
  {
    forall steps: seq<Step> | Admits(admitted, steps)
      ensures OnlyRevoked(FleetRun(f, steps), k)
    {
      forall i | 0 <= i < |steps|
        ensures ExpiredMode(steps[i], k)
      {
        if steps[i].Ask? {
          var r := (steps[i].domain, steps[i].options);
          assert r in admitted;
        }
      }
      FleetRunKept(f, steps, k);
      KeptMeansOnlyRevoked(FleetRun(f, steps), k);
    }
  }

  // --- Otherwise the stored certificate can be cleared away, and a plain one issued ---

  lemma {:induction false} FleetRunThen(f: Fleet, first: seq<Step>, second: seq<Step>)
    requires f.Valid()
    ensures FleetRun(f, first + second) == FleetRun(FleetRun(f, first), second)
    decreases |first|
  {
    if first == [] {
      assert first + second == second;
    } else {
      assert (first + second)[0] == first[0] && (first + second)[1..] == first[1..] + second;
      FleetRunThen(FleetNext(f, first[0]), first[1..], second);
    }
  }

  lemma OneStep(f: Fleet, step: Step)
    requires f.Valid()
    ensures FleetRun(f, [step]) == FleetNext(f, step)
  {
    assert [step][1..] == [];
  }

  /** What a call that finds an expired certificate in the store does to it. */
  const CLEAR: seq<Step> := [StoreReads(0, 0), Local(0, EvFill(0)), Step.Resume(0, 0), OpApplied(0, 0)]

  /** The fleet with another state of its first server. */
  function With(f: Fleet, s: Server): Fleet
    requires |f.servers| > 0
  {
    f.(servers := f.servers[0 := s])
  }

  lemma ReadsExpired(f: Fleet, r: Request)
    requires f.Valid() && |f.servers| > 0 && f.servers[0] == EMPTY.(calls := [Call(r, Reading)]) && r.key in f.store
    ensures FleetNext(f, CLEAR[0]) == With(f, EMPTY.(calls := [Call(r, Read(Some(f.store[r.key])))]))
  {
    assert [Call(r, Reading)][0 := Call(r, Read(Some(f.store[r.key])))] == [Call(r, Read(Some(f.store[r.key])))];
  }

  lemma FillsExpired(f: Fleet, r: Request, cert: Cert)
    requires f.Valid() && |f.servers| > 0 && f.servers[0] == EMPTY.(calls := [Call(r, Read(Some(cert)))])
    ensures FleetNext(f, CLEAR[1]) ==
      With(f, EMPTY.(cache := map[r.key := cert], calls := [Call(r, Ready(Some(cert)))]))
  {
    assert [Call(r, Read(Some(cert)))][0 := Call(r, Ready(Some(cert)))] == [Call(r, Ready(Some(cert)))];
    assert map[][r.key := cert] == map[r.key := cert];
  }

  lemma ResumesExpired(f: Fleet, r: Request, cert: Cert)
    requires f.Valid() && |f.servers| > 0 && !r.expired && cert.expiry <= f.now
    requires f.servers[0] == EMPTY.(cache := map[r.key := cert], calls := [Call(r, Ready(Some(cert)))])
    ensures var s := AcmeServer.Resume(f.servers[0], 0, f.now);
      FleetNext(f, CLEAR[2]) == With(f, s) && s.ops == [Delete(r.key)]
  {
    assert [] + [Delete(r.key)] == [Delete(r.key)];
  }

  lemma DeletesExpired(f: Fleet, k: Key)
    requires f.Valid() && |f.servers| > 0 && f.servers[0].ops == [Delete(k)]
    ensures var g := FleetNext(f, CLEAR[3]);
      |g.servers| == |f.servers| && g.store == f.store - {k} && g.revoked == f.revoked
  {
  }

  lemma Clears(f: Fleet, r: Request)
    requires f.Valid() && |f.servers| > 0 && f.servers[0] == EMPTY.(calls := [Call(r, Reading)])
    requires r.key in f.store && !r.expired && f.store[r.key].expiry <= f.now
    ensures var g := FleetRun(f, CLEAR);
      |g.servers| == |f.servers| && g.store == f.store - {r.key} && g.revoked == f.revoked
  {
    var cert := f.store[r.key];
    ReadsExpired(f, r);
    var f2 := FleetNext(f, CLEAR[0]);
    FillsExpired(f2, r, cert);
    var f3 := FleetNext(f2, CLEAR[1]);
    ResumesExpired(f3, r, cert);
    DeletesExpired(FleetNext(f3, CLEAR[2]), r.key);
    FourSteps(f, CLEAR);
  }

  lemma Asks(f: Fleet, r: (string, CertCacheKey.CertOptions))
    requires f.Valid() && |f.servers| > 0 && f.servers[0] == EMPTY
    ensures FleetRun(f, [Ask(0, r.0, r.1)]) == With(f, EMPTY.(calls := [Call(RequestFor(r.0, r.1), Reading)]))
  {
    OneStep(f, Ask(0, r.0, r.1));
    var q := RequestFor(r.0, r.1);
    assert Begin(EMPTY, q) == EMPTY.(calls := [Call(q, Reading)]);
  }

  lemma Restarts(f: Fleet)
    requires f.Valid() && |f.servers| > 0
    ensures var g := FleetRun(f, [Restart(0)]);
      |g.servers| == |f.servers| && g.servers[0] == EMPTY && g.store == f.store && g.revoked == f.revoked
  {
    OneStep(f, Restart(0));
  }

  function ClearAway(wait: nat, r: (string, CertCacheKey.CertOptions)): seq<Step> {
    [Tick(wait)] + ([Ask(0, r.0, r.1)] + (CLEAR + [Restart(0)]))
  }

  lemma ClearsAndRestarts(f: Fleet, q: Request)
    requires f.Valid() && |f.servers| > 0 && f.servers[0] == EMPTY.(calls := [Call(q, Reading)])
    requires q.key in f.store && !q.expired && f.store[q.key].expiry <= f.now
    ensures var g := FleetRun(f, CLEAR + [Restart(0)]);
      |g.servers| > 0 && g.servers[0] == EMPTY && g.store == f.store - {q.key} && g.revoked == f.revoked
  {
    Clears(f, q);
    Restarts(FleetRun(f, CLEAR));
    FleetRunThen(f, CLEAR, [Restart(0)]);
  }

  /** By waiting until it has expired, a request in normal mode clears the certificate out of the store. */
  lemma ClearedAway(f: Fleet, r: (string, CertCacheKey.CertOptions), wait: nat)
    requires Cold(f) && |f.servers| > 0 && !r.1.expired
    requires RequestFor(r.0, r.1).key in f.store && f.store[RequestFor(r.0, r.1).key].expiry <= f.now + wait
    ensures var g := FleetRun(f, ClearAway(wait, r));
      && g.Valid() && |g.servers| > 0 && g.servers[0] == EMPTY
      && g.store == f.store - {RequestFor(r.0, r.1).key} && g.revoked == f.revoked
  {
    var ask, rest := [Ask(0, r.0, r.1)], CLEAR + [Restart(0)];
    var f0 := f.(now := f.now + wait);
    OneStep(f, Tick(wait));
    assert FleetRun(f, [Tick(wait)]) == f0;
    Asks(f0, r);
    ClearsAndRestarts(FleetRun(f0, ask), RequestFor(r.0, r.1));
    FleetRunThen(f0, ask, rest);
    FleetRunThen(f, [Tick(wait)], ask + rest);
  }

  lemma FreshAfter(g: Fleet, r: (string, CertCacheKey.CertOptions), cert: Cert)
    requires g.Valid() && |g.servers| > 0 && g.servers[0] == EMPTY && !r.1.revoked
    requires RequestFor(r.0, r.1).key !in g.store && cert.id !in g.revoked
    ensures !OnlyRevoked(FleetRun(g, [Ask(0, r.0, r.1)] + FreshIssue(cert)), RequestFor(r.0, r.1).key)
  {
    Asks(g, r);
    FleetRunThen(g, [Ask(0, r.0, r.1)], FreshIssue(cert));
    FreshIssueCaches(FleetRun(g, [Ask(0, r.0, r.1)]), RequestFor(r.0, r.1), cert);
  }

  lemma AdmitsBoth(admitted: Requests, a: (string, CertCacheKey.CertOptions), b: (string, CertCacheKey.CertOptions),
                   wait: nat, cert: Cert)
    requires a in admitted && b in admitted
    ensures Admits(admitted, ClearAway(wait, a) + ([Ask(0, b.0, b.1)] + FreshIssue(cert)))
  {
    AdmitsThen(admitted, [Ask(0, a.0, a.1)], CLEAR + [Restart(0)]);
    AdmitsThen(admitted, [Tick(wait)], [Ask(0, a.0, a.1)] + (CLEAR + [Restart(0)]));
    AdmitsThen(admitted, [Ask(0, b.0, b.1)], FreshIssue(cert));
    AdmitsThen(admitted, ClearAway(wait, a), [Ask(0, b.0, b.1)] + FreshIssue(cert));
  }

  lemma AdmitsThen(admitted: Requests, first: seq<Step>, second: seq<Step>)
    requires Admits(admitted, first) && Admits(admitted, second)
    ensures Admits(admitted, first + second)
  {
  }

  lemma ClearedBreaks(f: Fleet, admitted: Requests, clearing: (string, CertCacheKey.CertOptions),
                      plain: (string, CertCacheKey.CertOptions), k: Key)
    requires Cold(f) && |f.servers| > 0 && k in f.store && clearing in admitted && plain in admitted
    requires RequestFor(clearing.0, clearing.1).key == k && !clearing.1.expired
    requires RequestFor(plain.0, plain.1).key == k && !plain.1.revoked
    ensures !AlwaysOnlyRevoked(f, admitted, k)
  {
    var wait := if f.store[k].expiry <= f.now then 0 else f.store[k].expiry - f.now;
    var id := Bound(f.revoked);
    var cert := Cert(id, 0);
    var first, second := ClearAway(wait, clearing), [Ask(0, plain.0, plain.1)] + FreshIssue(cert);
    ClearedAway(f, clearing, wait);
    FreshAfter(FleetRun(f, first), plain, cert);
    FleetRunThen(f, first, second);
    AdmitsBoth(admitted, clearing, plain, wait, cert);
  }

  /**
   * For every store: every run of the admitted requests keeps the guarantee for k, if and only if what the store
   * holds under k, if anything, is revoked, and every admitted request under k asks for revocation, or else the
   * store does hold a certificate under k and every such request is in expired mode, which serves what is stored.
   */
  lemma RevokeExactlyFrom(f: Fleet, admitted: Requests, k: Key)
    requires Cold(f) && |f.servers| > 0
    ensures AlwaysOnlyRevoked(f, admitted, k) <==>
      && (k in f.store ==> f.store[k].id in f.revoked)
      && (AllRevoked(admitted, k) || (k in f.store && AllExpired(admitted, k)))
  {
    if k !in f.store {
      RevokeExactly(f, admitted, k);
    } else if f.store[k].id !in f.revoked {
      assert Admits(admitted, []) && !OnlyRevoked(FleetRun(f, []), k);
    } else if AllRevoked(admitted, k) {
      forall steps | Admits(admitted, steps)
        ensures OnlyRevoked(FleetRun(f, steps), k)
      {
        AdmittedIsHonest(admitted, steps, k);
        RevokeBeforePublish(f, steps, k);
      }
    } else if AllExpired(admitted, k) {
      ExpiredModeKeeps(f, admitted, k);
    } else {
      var plain :| plain in admitted && RequestFor(plain.0, plain.1).key == k && !plain.1.revoked;
      var clearing :| clearing in admitted && RequestFor(clearing.0, clearing.1).key == k && !clearing.1.expired;
      ClearedBreaks(f, admitted, clearing, plain, k);
    }
  }
}
