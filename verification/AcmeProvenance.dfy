/**
 * Where certificates come from: whatever a fleet holds, hands to the store or returns under a key was issued for that
 * very key, or was in the store under it from the start.
 */
module AcmeProvenance {
  import opened Common
  import opened AcmeServer
  import opened AcmeFleet

  /** Certificates by the key that they are good for. */
  type Records = set<(Key, Cert)>

  predicate KnownMap(m: map<Key, Cert>, good: Records) {
    forall k :: k in m ==> (k, m[k]) in good
  }

  predicate KnownCall(call: Call, good: Records) {
    match call.stage
    case Read(found) => found.Some? ==> (call.request.key, found.value) in good
    case Ready(found) => found.Some? ==> (call.request.key, found.value) in good
    case Returned(cert) => (call.request.key, cert) in good
    case _ => true
  }

  predicate KnownAttempt(a: Attempt, good: Records) {
    match a.status
    case Revoking(cert) => (a.request.key, cert) in good
    case Done(cert) => (a.request.key, cert) in good
    case _ => true
  }

  predicate KnownOp(op: StoreOp, good: Records) {
    op.Write? ==> (op.key, op.cert) in good
  }

  predicate KnownServer(s: Server, good: Records) {
    && KnownMap(s.cache, good)
    && (forall c :: 0 <= c < |s.calls| ==> KnownCall(s.calls[c], good))
    && (forall a :: 0 <= a < |s.attempts| ==> KnownAttempt(s.attempts[a], good))
    && (forall n :: 0 <= n < |s.ops| ==> KnownOp(s.ops[n], good))
  }

  predicate KnownFleet(f: Fleet, good: Records) {
    && KnownMap(f.store, good)
    && (forall i :: 0 <= i < |f.servers| ==> KnownServer(f.servers[i], good))
    && (forall i :: 0 <= i < |f.loading| ==> KnownMap(f.loading[i], good))
  }

  // --- One server ---

  /** What an event brings with it must be good for the key it is for. */
  predicate BringsKnown(s: Server, e: Event, good: Records) {
    match e
    case EvAnswer(c, found) =>
      c < |s.calls| && found.Some? ==> (s.calls[c].request.key, found.value) in good
    case EvIssued(a, cert) => Enabled(s, e) ==> (s.attempts[a].request.key, cert) in good
    case EvLoad(certs) => KnownMap(certs, good)
    case _ => true
  }

  lemma StageKnown(s: Server, c: nat, stage: Stage, good: Records)
    requires KnownServer(s, good) && c < |s.calls| && KnownCall(s.calls[c].(stage := stage), good)
    ensures KnownServer(SetStage(s, c, stage), good)
  {
  }

  lemma StatusKnown(s: Server, a: nat, status: Status, good: Records)
    requires KnownServer(s, good) && a < |s.attempts| && KnownAttempt(s.attempts[a].(status := status), good)
    ensures KnownServer(SetStatus(s, a, status), good)
  {
  }

  lemma StartKnown(s: Server, r: Request, cause: Cause, good: Records)
    requires KnownServer(s, good)
    ensures KnownServer(Start(s, r, cause), good)
  {
  }

  lemma CachedKnown(s: Server, k: Key, cert: Cert, good: Records)
    requires KnownServer(s, good) && (k, cert) in good
    ensures KnownServer(CacheCert(s, k, cert), good)
  {
  }

  lemma PublishKnown(s: Server, a: nat, cert: Cert, good: Records)
    requires KnownServer(s, good) && a < |s.attempts| && (s.attempts[a].request.key, cert) in good
    ensures KnownServer(Publish(s, a, cert), good)
  {
    var k := s.attempts[a].request.key;
    StatusKnown(s, a, Done(cert), good);
    CachedKnown(SetStatus(s.(pending := s.pending - {k}), a, Done(cert)), k, cert, good);
  }

  lemma IssuedKnown(s: Server, a: nat, cert: Cert, good: Records)
    requires KnownServer(s, good) && a < |s.attempts| && (s.attempts[a].request.key, cert) in good
    ensures KnownServer(Issued(s, a, cert), good)
  {
    var r := s.attempts[a].request;
    if r.key in s.pending && s.pending[r.key] != a {
      StatusKnown(s, a, Waiting(s.pending[r.key]), good);
    } else if r.revoked {
      StatusKnown(s, a, Revoking(cert), good);
    } else {
      PublishKnown(s, a, cert, good);
    }
  }

  lemma ClearedKnown(s: Server, k: Key, good: Records)
    requires KnownServer(s, good)
    ensures KnownServer(ClearCache(s, k), good)
  {
  }

  lemma ResumeKnown(s: Server, c: nat, now: int, good: Records)
    requires KnownServer(s, good) && c < |s.calls| && s.calls[c].stage.Ready?
    ensures KnownServer(AcmeServer.Resume(s, c, now), good)
  {
    var r, found := s.calls[c].request, s.calls[c].stage.found;
    assert KnownCall(s.calls[c], good);
    if found.Some? && found.value.expiry <= now && !r.expired {
      ClearedKnown(s, r.key, good);
      StartKnown(ClearCache(s, r.key), r, Expired, good);
      StageKnown(Start(ClearCache(s, r.key), r, Expired), c, Joined(|s.attempts|), good);
    } else if found.Some? {
      StartKnown(s, r, NearExpiry, good);
      StageKnown(s, c, Returned(found.value), good);
      StageKnown(Start(s, r, NearExpiry), c, Returned(found.value), good);
    } else if r.key in s.pending {
      StageKnown(s, c, Joined(s.pending[r.key]), good);
    } else {
      StartKnown(s, r, Missing, good);
      StageKnown(Start(s, r, Missing), c, Joined(|s.attempts|), good);
    }
  }

  lemma FillKnown(s: Server, c: nat, good: Records)
    requires KnownServer(s, good) && c < |s.calls| && s.calls[c].stage.Read?
    ensures KnownServer(Fill(s, c), good)
  {
    assert KnownCall(s.calls[c], good);
    StageKnown(s, c, Ready(s.calls[c].stage.found), good);
  }

  lemma SettleKnown(s: Server, a: nat, good: Records)
    requires Orderly(s) && KnownServer(s, good) && Enabled(s, EvSettle(a))
    ensures KnownServer(Next(s, EvSettle(a)), good)
  {
    var on := s.attempts[a].status.on;
    assert WaitsWell(s.attempts, on, s.attempts[a].request.key);
    assert KnownAttempt(s.attempts[on], good);
    StatusKnown(s, a, Done(s.attempts[on].status.cert), good);
  }

  lemma ReturnKnown(s: Server, c: nat, good: Records)
    requires Orderly(s) && KnownServer(s, good) && Enabled(s, EvReturn(c))
    ensures KnownServer(Next(s, EvReturn(c)), good)
  {
    var on := s.calls[c].stage.attempt;
    assert CallWell(s.calls[c], s.attempts);
    assert KnownAttempt(s.attempts[on], good);
    StageKnown(s, c, Returned(s.attempts[on].status.cert), good);
  }

  lemma BeginKnown(s: Server, r: Request, good: Records)
    requires KnownServer(s, good)
    ensures KnownServer(Begin(s, r), good)
  {
  }

  lemma OpDoneKnown(s: Server, n: nat, good: Records)
    requires KnownServer(s, good) && n < |s.ops|
    ensures KnownServer(Next(s, EvOpDone(n)), good)
  {
  }

  lemma LoadKnown(s: Server, certs: map<Key, Cert>, good: Records)
    requires KnownServer(s, good) && KnownMap(certs, good)
    ensures KnownServer(Next(s, EvLoad(certs)), good)
  {
  }

  lemma StepKnown(s: Server, e: Event, good: Records)
    requires Orderly(s) && KnownServer(s, good) && BringsKnown(s, e, good)
    ensures KnownServer(Next(s, e), good)
  {
    if Enabled(s, e) {
      match e
      case EvBegin(r) => BeginKnown(s, r, good);
      case EvAnswer(c, found) => StageKnown(s, c, Read(found), good);
      case EvReadFails(c) => StageKnown(s, c, Rejected, good);
      case EvFill(c) => FillKnown(s, c, good);
      case EvResume(c, now) => ResumeKnown(s, c, now, good);
      case EvIssued(a, cert) => IssuedKnown(s, a, cert, good);
      case EvRevoked(a) =>
        assert KnownAttempt(s.attempts[a], good);
        PublishKnown(s, a, s.attempts[a].status.cert, good);
      case EvFailed(a) =>
        StartKnown(s, s.attempts[a].request, Retry, good);
        StatusKnown(Start(s, s.attempts[a].request, Retry), a, Waiting(|s.attempts|), good);
      case EvSettle(a) => SettleKnown(s, a, good);
      case EvReturn(c) => ReturnKnown(s, c, good);
      case EvOpDone(n) => OpDoneKnown(s, n, good);
      case EvLoad(certs) => LoadKnown(s, certs, good);
    }
  }

  // --- A fleet ---

  /** What the authority issues in this step, under the key it was asked for. */
  function IssuedBy(f: Fleet, step: Step): Records {
    match step
    case Local(i, e) =>
      if i < |f.servers| && e.EvIssued? && Enabled(f.servers[i], e)
      then {(f.servers[i].attempts[e.attempt].request.key, e.cert)} else {}
    case _ => {}
  }

  function AllIssued(f: Fleet, steps: seq<Step>): Records
    requires f.Valid()
    decreases |steps|
  {
    if steps == [] then {} else IssuedBy(f, steps[0]) + AllIssued(FleetNext(f, steps[0]), steps[1..])
  }

  lemma MoreKnown(s: Server, before: Records, after: Records)
    requires KnownServer(s, before) && before <= after
    ensures KnownServer(s, after)
  {
    forall c | 0 <= c < |s.calls|
      ensures KnownCall(s.calls[c], after)
    {
      assert KnownCall(s.calls[c], before);
    }
    forall a | 0 <= a < |s.attempts|
      ensures KnownAttempt(s.attempts[a], after)
    {
      assert KnownAttempt(s.attempts[a], before);
    }
  }

  lemma MoreKnownFleet(f: Fleet, before: Records, after: Records)
    requires KnownFleet(f, before) && before <= after
    ensures KnownFleet(f, after)
  {
    forall i | 0 <= i < |f.servers|
      ensures KnownServer(f.servers[i], after)
    {
      MoreKnown(f.servers[i], before, after);
    }
  }

  lemma HappensKnown(f: Fleet, i: nat, e: Event, good: Records)
    requires f.Valid() && AllOrderly(f) && KnownFleet(f, good)
    requires i < |f.servers| && BringsKnown(f.servers[i], e, good)
    ensures AllOrderly(Happens(f, i, e)) && KnownFleet(Happens(f, i, e), good)
  {
    OrderlyStep(f.servers[i], e);
    StepKnown(f.servers[i], e, good);
  }

  lemma StoreStepKnown(f: Fleet, step: Step, good: Records)
    requires step.StoreReads? || step.OpApplied? || step.LoadReads? || step.LoadFills?
    requires f.Valid() && AllOrderly(f) && KnownFleet(f, good) && step.server < |f.servers|
    ensures AllOrderly(FleetNext(f, step)) && KnownFleet(FleetNext(f, step), good)
  {
    var i, s := step.server, f.servers[step.server];
    match step
    case StoreReads(_, c) =>
      if c < |s.calls| {
        HappensKnown(f, i, EvAnswer(c, Lookup(f.store, s.calls[c].request.key)), good);
      }
    case OpApplied(_, n) =>
      if n < |s.ops| {
        assert KnownOp(s.ops[n], good);
        HappensKnown(f, i, EvOpDone(n), good);
      }
    case LoadReads(_, _) =>
    case LoadFills(_) => HappensKnown(f, i, EvLoad(f.loading[i]), good);
  }

  lemma FleetStepKnown(f: Fleet, step: Step, good: Records)
    requires f.Valid() && AllOrderly(f) && KnownFleet(f, good) && IssuedBy(f, step) <= good
    ensures AllOrderly(FleetNext(f, step)) && KnownFleet(FleetNext(f, step), good)
  {
    if !step.Tick? && step.server < |f.servers| {
      match step
      case Ask(i, domain, o) => HappensKnown(f, i, EvBegin(RequestFor(domain, o)), good);
      case Local(i, e) =>
        if Internal(e) {
          HappensKnown(f, i, e, good);
        }
      case Resume(i, c) => HappensKnown(f, i, EvResume(c, f.now), good);
      case RevokeReturns(i, a) =>
        if FleetNext(f, step) != f {
          HappensKnown(f, i, EvRevoked(a), good);
        }
      case Revoke(_, _) =>
      case Restart(_) =>
      case _ => StoreStepKnown(f, step, good);
    }
  }

  lemma {:induction false} FleetRunKnown(f: Fleet, steps: seq<Step>, good: Records)
    requires f.Valid() && AllOrderly(f) && KnownFleet(f, good)
    ensures KnownFleet(FleetRun(f, steps), good + AllIssued(f, steps))
    decreases |steps|
  {
    if steps == [] {
      assert good + {} == good;
    } else {
      var now, later := IssuedBy(f, steps[0]), AllIssued(FleetNext(f, steps[0]), steps[1..]);
      MoreKnownFleet(f, good, good + now);
      FleetStepKnown(f, steps[0], good + now);
      FleetRunKnown(FleetNext(f, steps[0]), steps[1..], good + now);
      assert good + now + later == good + (now + later);
    }
  }

  function Stored(store: map<Key, Cert>): Records {
    set k | k in store :: (k, store[k])
  }

  /**
   * Main theorem. In every run of a fleet, with any failures, restarts and lost writes: a certificate that a server
   * caches, writes or returns under a key, or that the store holds under it, was issued for that key in the run, or
   * was in the store under that key at the start. No certificate is made up, and none changes its key.
   */
  lemma Provenance(f: Fleet, steps: seq<Step>)
    requires Cold(f)
    ensures KnownFleet(FleetRun(f, steps), Stored(f.store) + AllIssued(f, steps))
  {
    FleetRunKnown(f, steps, Stored(f.store));
  }
}
