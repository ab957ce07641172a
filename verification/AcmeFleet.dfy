/** Any number of servers renewing certificates over one shared store, and what the `revoked` flag guarantees. */
module AcmeFleet {
  import opened Common
  import opened AcmeServer
  import AcmeProgress
  import CertCacheKey

  /** `loading` is what each server's loadCache has read so far; `revoked` holds the ids of revoked certificates. */
  datatype Fleet = Fleet(
    servers: seq<Server>,
    loading: seq<map<Key, Cert>>,
    store: map<Key, Cert>,
    revoked: set<nat>,
    now: int)
  {
    predicate Valid() {
      |loading| == |servers|
    }
  }

  datatype Step =
    | Ask(server: nat, domain: string, options: CertCacheKey.CertOptions)
    | StoreReads(server: nat, call: nat)
    | Local(server: nat, event: Event)
    | Resume(server: nat, call: nat)
    | Revoke(server: nat, attempt: nat)
    | RevokeReturns(server: nat, attempt: nat)
    | OpApplied(server: nat, op: nat)
    | LoadReads(server: nat, key: Key)
    | LoadFills(server: nat)
    | Restart(server: nat)
    | Tick(time: nat)

  function RequestFor(domain: string, o: CertCacheKey.CertOptions): Request {
    Request(CertCacheKey.CalculateCertCacheKey(domain, o), o.expired, o.revoked)
  }

  /** Events whose content does not come from the store, the revocation service or the clock. */
  predicate Internal(e: Event) {
    e.EvReadFails? || e.EvFill? || e.EvIssued? || e.EvFailed? || e.EvSettle? || e.EvReturn? || e.EvOpDone?
  }

  function Happens(f: Fleet, i: nat, e: Event): Fleet
    requires i < |f.servers|
  {
    f.(servers := f.servers[i := Next(f.servers[i], e)])
  }

  function ApplyOp(store: map<Key, Cert>, op: StoreOp): map<Key, Cert> {
    match op
    case Write(k, c) => store[k := c]
    case Delete(k) => store - {k}
  }

  function Act(f: Fleet, step: Step): Fleet
    requires f.Valid() && !step.Tick? && step.server < |f.servers|
  {
    var i, s := step.server, f.servers[step.server];
    match step
    case Ask(_, domain, o) => Happens(f, i, EvBegin(RequestFor(domain, o)))
    case StoreReads(_, c) =>
      if c < |s.calls| then Happens(f, i, EvAnswer(c, Lookup(f.store, s.calls[c].request.key))) else f
    case Local(_, e) => if Internal(e) then Happens(f, i, e) else f
    case Resume(_, c) => Happens(f, i, EvResume(c, f.now))
    case Revoke(_, a) =>
      if a < |s.attempts| && s.attempts[a].status.Revoking?
      then f.(revoked := f.revoked + {s.attempts[a].status.cert.id}) else f
    case RevokeReturns(_, a) =>
      if a < |s.attempts| && s.attempts[a].status.Revoking? && s.attempts[a].status.cert.id in f.revoked
      then Happens(f, i, EvRevoked(a)) else f
    case OpApplied(_, n) => if n < |s.ops| then Happens(f, i, EvOpDone(n)).(store := ApplyOp(f.store, s.ops[n])) else f
    case LoadReads(_, k) =>
      if k in f.store then f.(loading := f.loading[i := f.loading[i][k := f.store[k]]]) else f
    case LoadFills(_) => Happens(f, i, EvLoad(f.loading[i])).(loading := f.loading[i := map[]])
    case Restart(_) => f.(servers := f.servers[i := EMPTY], loading := f.loading[i := map[]])
  }

  function FleetNext(f: Fleet, step: Step): (g: Fleet)
    requires f.Valid()
    ensures g.Valid() && |g.servers| == |f.servers|
  {
    if step.Tick? then f.(now := f.now + step.time)
    else if step.server < |f.servers| then Act(f, step)
    else f
  }

  function FleetRun(f: Fleet, steps: seq<Step>): (g: Fleet)
    requires f.Valid()
    ensures g.Valid()
    decreases |steps|
  {
    if steps == [] then f else FleetRun(FleetNext(f, steps[0]), steps[1..])
  }

  // --- Revoked before published: under key k, only revoked certificates are held or handed on ---

  predicate SafeMap(m: map<Key, Cert>, revoked: set<nat>, k: Key) {
    k in m ==> m[k].id in revoked
  }

  predicate SafeFound(found: Option<Cert>, revoked: set<nat>) {
    found.Some? ==> found.value.id in revoked
  }

  predicate SafeCall(call: Call, revoked: set<nat>, k: Key) {
    call.request.key == k ==>
      && call.request.revoked
      && match call.stage
         case Read(found) => SafeFound(found, revoked)
         case Ready(found) => SafeFound(found, revoked)
         case Returned(cert) => cert.id in revoked
         case _ => true
  }

  predicate SafeAttempt(a: Attempt, revoked: set<nat>, k: Key) {
    a.request.key == k ==> a.request.revoked && (a.status.Done? ==> a.status.cert.id in revoked)
  }

  predicate SafeOp(op: StoreOp, revoked: set<nat>, k: Key) {
    op.Write? && op.key == k ==> op.cert.id in revoked
  }

  predicate SafeServer(s: Server, revoked: set<nat>, k: Key) {
    && SafeMap(s.cache, revoked, k)
    && (forall c :: c in s.calls ==> SafeCall(c, revoked, k))
    && (forall a :: a in s.attempts ==> SafeAttempt(a, revoked, k))
    && (forall op :: op in s.ops ==> SafeOp(op, revoked, k))
  }

  predicate SafeFleet(f: Fleet, k: Key) {
    && SafeMap(f.store, f.revoked, k)
    && (forall i :: 0 <= i < |f.servers| ==> SafeServer(f.servers[i], f.revoked, k))
    && (forall i :: 0 <= i < |f.loading| ==> SafeMap(f.loading[i], f.revoked, k))
  }

  /** What an event must bring with it to keep a server safe. */
  predicate SafeEvent(s: Server, e: Event, revoked: set<nat>, k: Key) {
    match e
    case EvBegin(r) => r.key == k ==> r.revoked
    case EvAnswer(c, found) => c < |s.calls| && s.calls[c].request.key == k ==> SafeFound(found, revoked)
    case EvRevoked(a) => Enabled(s, e) ==> s.attempts[a].status.cert.id in revoked
    case EvLoad(certs) => SafeMap(certs, revoked, k)
    case _ => true
  }

  lemma StageSafe(s: Server, c: nat, stage: Stage, revoked: set<nat>, k: Key)
    requires SafeServer(s, revoked, k) && c < |s.calls| && SafeCall(s.calls[c].(stage := stage), revoked, k)
    ensures SafeServer(SetStage(s, c, stage), revoked, k)
  {
  }

  lemma StatusSafe(s: Server, a: nat, status: Status, revoked: set<nat>, k: Key)
    requires SafeServer(s, revoked, k) && a < |s.attempts| && SafeAttempt(s.attempts[a].(status := status), revoked, k)
    ensures SafeServer(SetStatus(s, a, status), revoked, k)
  {
  }

  lemma StartSafe(s: Server, r: Request, cause: Cause, revoked: set<nat>, k: Key)
    requires SafeServer(s, revoked, k) && (r.key == k ==> r.revoked)
    ensures SafeServer(Start(s, r, cause), revoked, k)
  {
  }

  lemma ClearSafe(s: Server, key: Key, revoked: set<nat>, k: Key)
    requires SafeServer(s, revoked, k)
    ensures SafeServer(ClearCache(s, key), revoked, k)
  {
  }

  lemma CacheSafe(s: Server, key: Key, cert: Cert, revoked: set<nat>, k: Key)
    requires SafeServer(s, revoked, k) && (key == k ==> cert.id in revoked)
    ensures SafeServer(CacheCert(s, key, cert), revoked, k)
  {
  }

  lemma PublishSafe(s: Server, a: nat, cert: Cert, revoked: set<nat>, k: Key)
    requires SafeServer(s, revoked, k) && a < |s.attempts| && (s.attempts[a].request.key == k ==> cert.id in revoked)
    ensures SafeServer(Publish(s, a, cert), revoked, k)
  {
    var key := s.attempts[a].request.key;
    assert SafeAttempt(s.attempts[a], revoked, k);
    StatusSafe(s, a, Done(cert), revoked, k);
    CacheSafe(SetStatus(s.(pending := s.pending - {key}), a, Done(cert)), key, cert, revoked, k);
  }

  lemma IssuedSafe(s: Server, a: nat, cert: Cert, revoked: set<nat>, k: Key)
    requires SafeServer(s, revoked, k) && a < |s.attempts|
    ensures SafeServer(Issued(s, a, cert), revoked, k)
  {
    var r := s.attempts[a].request;
    assert SafeAttempt(s.attempts[a], revoked, k);
    if r.key in s.pending && s.pending[r.key] != a {
      StatusSafe(s, a, Waiting(s.pending[r.key]), revoked, k);
    } else if r.revoked {
      StatusSafe(s, a, Revoking(cert), revoked, k);
    } else {
      PublishSafe(s, a, cert, revoked, k);
    }
  }

  lemma FailedSafe(s: Server, a: nat, revoked: set<nat>, k: Key)
    requires SafeServer(s, revoked, k) && a < |s.attempts|
    ensures SafeServer(Failed(s, a), revoked, k)
  {
    assert SafeAttempt(s.attempts[a], revoked, k);
    StartSafe(s, s.attempts[a].request, Retry, revoked, k);
    StatusSafe(Start(s, s.attempts[a].request, Retry), a, Waiting(|s.attempts|), revoked, k);
  }

  lemma ResumeSafe(s: Server, c: nat, now: int, revoked: set<nat>, k: Key)
    requires SafeServer(s, revoked, k) && c < |s.calls| && s.calls[c].stage.Ready?
    ensures SafeServer(AcmeServer.Resume(s, c, now), revoked, k)
  {
    var r := s.calls[c].request;
    var found := s.calls[c].stage.found;
    assert SafeCall(s.calls[c], revoked, k);
    if found.Some? && found.value.expiry <= now && !r.expired {
      ClearSafe(s, r.key, revoked, k);
      StartSafe(ClearCache(s, r.key), r, Expired, revoked, k);
      StageSafe(Start(ClearCache(s, r.key), r, Expired), c, Joined(|s.attempts|), revoked, k);
    } else if found.Some? {
      StartSafe(s, r, NearExpiry, revoked, k);
      StageSafe(s, c, Returned(found.value), revoked, k);
      StageSafe(Start(s, r, NearExpiry), c, Returned(found.value), revoked, k);
    } else if r.key in s.pending {
      StageSafe(s, c, Joined(s.pending[r.key]), revoked, k);
    } else {
      StartSafe(s, r, Missing, revoked, k);
      StageSafe(Start(s, r, Missing), c, Joined(|s.attempts|), revoked, k);
    }
  }

  lemma FillSafe(s: Server, c: nat, revoked: set<nat>, k: Key)
    requires SafeServer(s, revoked, k) && c < |s.calls| && s.calls[c].stage.Read?
    ensures SafeServer(Fill(s, c), revoked, k)
  {
    var found := s.calls[c].stage.found;
    assert SafeCall(s.calls[c], revoked, k);
    StageSafe(s, c, Ready(found), revoked, k);
  }

  lemma ServerStepSafe(s: Server, e: Event, revoked: set<nat>, k: Key)
    requires Orderly(s) && SafeServer(s, revoked, k) && SafeEvent(s, e, revoked, k)
    ensures SafeServer(Next(s, e), revoked, k)
  {
    if Enabled(s, e) {
      match e
      case EvBegin(r) => BeginSafe(s, r, revoked, k);
      case EvAnswer(c, found) => AnswerSafe(s, c, Read(found), revoked, k);
      case EvReadFails(c) => AnswerSafe(s, c, Rejected, revoked, k);
      case EvFill(c) => FillSafe(s, c, revoked, k);
      case EvResume(c, now) => ResumeSafe(s, c, now, revoked, k);
      case EvIssued(a, cert) => IssuedSafe(s, a, cert, revoked, k);
      case EvRevoked(a) => PublishSafe(s, a, s.attempts[a].status.cert, revoked, k);
      case EvFailed(a) => FailedSafe(s, a, revoked, k);
      case EvSettle(a) => SettleSafe(s, a, revoked, k);
      case EvReturn(c) => ReturnSafe(s, c, revoked, k);
      case EvOpDone(n) => OpDoneSafe(s, n, revoked, k);
      case EvLoad(_) =>
    }
  }

  lemma BeginSafe(s: Server, r: Request, revoked: set<nat>, k: Key)
    requires SafeServer(s, revoked, k) && (r.key == k ==> r.revoked)
    ensures SafeServer(Begin(s, r), revoked, k)
  {
  }

  lemma AnswerSafe(s: Server, c: nat, stage: Stage, revoked: set<nat>, k: Key)
    requires SafeServer(s, revoked, k) && c < |s.calls| && (stage.Read? || stage.Rejected?)
    requires stage.Read? && s.calls[c].request.key == k ==> SafeFound(stage.found, revoked)
    ensures SafeServer(SetStage(s, c, stage), revoked, k)
  {
    assert SafeCall(s.calls[c], revoked, k);
    StageSafe(s, c, stage, revoked, k);
  }

  lemma SettleSafe(s: Server, a: nat, revoked: set<nat>, k: Key)
    requires Orderly(s) && SafeServer(s, revoked, k) && Enabled(s, EvSettle(a))
    ensures SafeServer(Next(s, EvSettle(a)), revoked, k)
  {
    var on := s.attempts[a].status.on;
    assert WaitsWell(s.attempts, on, s.attempts[a].request.key);
    assert SafeAttempt(s.attempts[on], revoked, k) && SafeAttempt(s.attempts[a], revoked, k);
    StatusSafe(s, a, Done(s.attempts[on].status.cert), revoked, k);
  }

  lemma ReturnSafe(s: Server, c: nat, revoked: set<nat>, k: Key)
    requires Orderly(s) && SafeServer(s, revoked, k) && Enabled(s, EvReturn(c))
    ensures SafeServer(Next(s, EvReturn(c)), revoked, k)
  {
    var on := s.calls[c].stage.attempt;
    assert CallWell(s.calls[c], s.attempts);
    assert SafeAttempt(s.attempts[on], revoked, k) && SafeCall(s.calls[c], revoked, k);
    StageSafe(s, c, Returned(s.attempts[on].status.cert), revoked, k);
  }

  lemma OpDoneSafe(s: Server, n: nat, revoked: set<nat>, k: Key)
    requires SafeServer(s, revoked, k) && n < |s.ops|
    ensures SafeServer(Next(s, EvOpDone(n)), revoked, k)
  {
    assert forall op :: op in s.ops[..n] + s.ops[n + 1..] ==> op in s.ops;
  }

  lemma MoreRevoked(s: Server, before: set<nat>, after: set<nat>, k: Key)
    requires SafeServer(s, before, k) && before <= after
    ensures SafeServer(s, after, k)
  {
    forall c | c in s.calls
      ensures SafeCall(c, after, k)
    {
      assert SafeCall(c, before, k);
    }
  }

  predicate AllOrderly(f: Fleet) {
    forall i :: 0 <= i < |f.servers| ==> Orderly(f.servers[i])
  }

  /** A request under key k carries the flag. */
  predicate Honest(step: Step, k: Key) {
    step.Ask? && RequestFor(step.domain, step.options).key == k ==> step.options.revoked
  }

  lemma HappensSafe(f: Fleet, i: nat, e: Event, k: Key)
    requires f.Valid() && AllOrderly(f) && SafeFleet(f, k)
    requires i < |f.servers| && SafeEvent(f.servers[i], e, f.revoked, k)
    ensures AllOrderly(Happens(f, i, e)) && SafeFleet(Happens(f, i, e), k)
  {
    OrderlyStep(f.servers[i], e);
    ServerStepSafe(f.servers[i], e, f.revoked, k);
  }

  lemma RevokeSafe(f: Fleet, id: nat, k: Key)
    requires SafeFleet(f, k)
    ensures SafeFleet(f.(revoked := f.revoked + {id}), k)
  {
    forall i | 0 <= i < |f.servers|
      ensures SafeServer(f.servers[i], f.revoked + {id}, k)
    {
      MoreRevoked(f.servers[i], f.revoked, f.revoked + {id}, k);
    }
  }

  lemma RevocationSafe(f: Fleet, step: Step, k: Key)
    requires f.Valid() && AllOrderly(f) && SafeFleet(f, k)
    requires (step.Revoke? || step.RevokeReturns?) && step.server < |f.servers|
    ensures AllOrderly(FleetNext(f, step)) && SafeFleet(FleetNext(f, step), k)
  {
    var s, a := f.servers[step.server], step.attempt;
    if FleetNext(f, step) != f {
      if step.Revoke? {
        RevokeSafe(f, s.attempts[a].status.cert.id, k);
      } else {
        HappensSafe(f, step.server, EvRevoked(a), k);
      }
    }
  }

  lemma StoreStepSafe(f: Fleet, step: Step, k: Key)
    requires f.Valid() && AllOrderly(f) && SafeFleet(f, k)
    requires (step.StoreReads? || step.OpApplied? || step.LoadReads? || step.LoadFills?) && step.server < |f.servers|
    ensures AllOrderly(FleetNext(f, step)) && SafeFleet(FleetNext(f, step), k)
  {
    var i, s := step.server, f.servers[step.server];
    assert SafeServer(s, f.revoked, k);
    match step
    case StoreReads(_, c) =>
      if c < |s.calls| {
        HappensSafe(f, i, EvAnswer(c, Lookup(f.store, s.calls[c].request.key)), k);
      }
    case OpApplied(_, n) =>
      if n < |s.ops| {
        assert SafeOp(s.ops[n], f.revoked, k);
        HappensSafe(f, i, EvOpDone(n), k);
      }
    case LoadReads(_, _) =>
    case LoadFills(_) => HappensSafe(f, i, EvLoad(f.loading[i]), k);
  }

  lemma FleetStepSafe(f: Fleet, step: Step, k: Key)
    requires f.Valid() && AllOrderly(f) && SafeFleet(f, k) && Honest(step, k)
    ensures AllOrderly(FleetNext(f, step)) && SafeFleet(FleetNext(f, step), k)
  {
    if !step.Tick? && step.server < |f.servers| {
      match step
      case Ask(i, domain, o) => HappensSafe(f, i, EvBegin(RequestFor(domain, o)), k);
      case Local(i, e) =>
        if Internal(e) {
          HappensSafe(f, i, e, k);
        }
      case Resume(i, c) => HappensSafe(f, i, EvResume(c, f.now), k);
      case Revoke(_, _) => RevocationSafe(f, step, k);
      case RevokeReturns(_, _) => RevocationSafe(f, step, k);
      case Restart(_) =>
      case _ => StoreStepSafe(f, step, k);
    }
  }

  lemma {:induction false} FleetRunSafe(f: Fleet, steps: seq<Step>, k: Key)
    requires f.Valid() && AllOrderly(f) && SafeFleet(f, k) && forall i :: 0 <= i < |steps| ==> Honest(steps[i], k)
    ensures SafeFleet(FleetRun(f, steps), k)
    decreases |steps|
  {
    if steps != [] {
      FleetStepSafe(f, steps[0], k);
      forall i | 0 <= i < |steps[1..]|
        ensures Honest(steps[1..][i], k)
      {
        assert steps[1..][i] == steps[i + 1];
      }
      FleetRunSafe(FleetNext(f, steps[0]), steps[1..], k);
    }
  }

  // --- The guarantee, from a cold start ---

  predicate Cold(f: Fleet) {
    && f.Valid()
    && (forall i :: 0 <= i < |f.servers| ==> f.servers[i] == EMPTY)
    && (forall i :: 0 <= i < |f.loading| ==> f.loading[i] == map[])
  }

  /** All requests of the run have a domain and an override prefix without '+'. */
  predicate AllSeparable(steps: seq<Step>) {
    forall i :: 0 <= i < |steps| ==> steps[i].Ask? ==> CertCacheKey.Separable(steps[i].domain, steps[i].options)
  }

  /** Every certificate the store or a server holds for k, returned to a caller, or is about to write. */
  predicate OnlyRevoked(f: Fleet, k: Key) {
    && (k in f.store ==> f.store[k].id in f.revoked)
    && forall i :: 0 <= i < |f.servers| ==>
         var s := f.servers[i];
         && (k in s.cache ==> s.cache[k].id in f.revoked)
         && (forall c :: c in s.calls && c.request.key == k && c.stage.Returned? ==> c.stage.cert.id in f.revoked)
         && (forall op :: op in s.ops && op.Write? && op.key == k ==> op.cert.id in f.revoked)
  }

  lemma {:induction false} SafeMeansOnlyRevoked(f: Fleet, k: Key)
    requires SafeFleet(f, k)
    ensures OnlyRevoked(f, k)
  {
    forall i | 0 <= i < |f.servers|
      ensures var s := f.servers[i];
              && (k in s.cache ==> s.cache[k].id in f.revoked)
              && (forall c :: c in s.calls && c.request.key == k && c.stage.Returned? ==> c.stage.cert.id in f.revoked)
              && (forall op :: op in s.ops && op.Write? && op.key == k ==> op.cert.id in f.revoked)
    {
      var s := f.servers[i];
      assert SafeServer(s, f.revoked, k);
      forall c | c in s.calls && c.request.key == k && c.stage.Returned?
        ensures c.stage.cert.id in f.revoked
      {
        assert SafeCall(c, f.revoked, k);
      }
      forall op | op in s.ops && op.Write? && op.key == k
        ensures op.cert.id in f.revoked
      {
        assert SafeOp(op, f.revoked, k);
      }
    }
  }

  /**
   * Revoke before publish. Whatever the servers, the store and the clock do: as long as every request under the
   * key asks for a revoked certificate, none is ever stored, cached or returned before it is revoked.
   */
  lemma RevokeBeforePublish(f: Fleet, steps: seq<Step>, k: Key)
    requires Cold(f) && (k in f.store ==> f.store[k].id in f.revoked)
    requires forall i :: 0 <= i < |steps| ==> Honest(steps[i], k)
    ensures OnlyRevoked(FleetRun(f, steps), k)
  {
    FleetRunSafe(f, steps, k);
    SafeMeansOnlyRevoked(FleetRun(f, steps), k);
  }

  /** In particular under the key of any request for a revoked certificate, if all requests are free of '+'. */
  lemma SeparableRequestsAreHonest(f: Fleet, steps: seq<Step>, domain: string, o: CertCacheKey.CertOptions)
    requires Cold(f) && AllSeparable(steps)
    requires CertCacheKey.Separable(domain, o) && o.revoked
    requires RequestFor(domain, o).key in f.store ==> f.store[RequestFor(domain, o).key].id in f.revoked
    ensures OnlyRevoked(FleetRun(f, steps), RequestFor(domain, o).key)
  {
    var k := RequestFor(domain, o).key;
    forall i | 0 <= i < |steps|
      ensures Honest(steps[i], k)
    {
      if steps[i].Ask? {
        CertCacheKey.KeyDeterminesRequest(steps[i].domain, steps[i].options, domain, o);
      }
    }
    RevokeBeforePublish(f, steps, k);
  }

  /** The steps by which the first call of the first server, having missed its cache, gets a fresh certificate. */
  function FreshIssue(cert: Cert): seq<Step> {
    [StoreReads(0, 0), Local(0, EvFill(0)), Resume(0, 0), Local(0, EvIssued(0, cert))]
  }

  lemma FreshIssueCaches(f: Fleet, r: Request, cert: Cert)
    requires f.Valid() && |f.servers| > 0 && f.servers[0] == EMPTY.(calls := [Call(r, Reading)])
    requires r.key !in f.store && !r.revoked
    ensures var g := FleetRun(f, FreshIssue(cert));
      && |g.servers| > 0 && r.key in g.servers[0].cache && g.servers[0].cache[r.key] == cert && g.revoked == f.revoked
  {
    var steps := FreshIssue(cert);
    var f2 := FleetNext(f, steps[0]);
    assert f2.servers[0] == EMPTY.(calls := [Call(r, Read(None))]);
    var f3 := FleetNext(f2, steps[1]);
    assert f3.servers[0] == EMPTY.(calls := [Call(r, Ready(None))]);
    var f4 := FleetNext(f3, steps[2]);
    assert f4.servers[0].attempts == [Attempt(r, Missing, Issuing)] && f4.servers[0].pending == map[r.key := 0];
    FourSteps(f, steps);
  }

  lemma FourSteps(f: Fleet, steps: seq<Step>)
    requires f.Valid() && |steps| == 4
    ensures FleetRun(f, steps) == FleetNext(FleetNext(FleetNext(FleetNext(f, steps[0]), steps[1]), steps[2]), steps[3])
  {
    var g := FleetNext(FleetNext(f, steps[0]), steps[1]);
    DropDrop(steps, 1);
    DropDrop(steps, 2);
    DropDrop(steps, 3);
    assert FleetRun(f, steps) == FleetRun(g, steps[2..]);
    assert FleetRun(g, steps[2..]) == FleetRun(FleetNext(FleetNext(g, steps[2]), steps[3]), steps[4..]);
  }

  /** One request that shares the key without asking for revocation is enough to break the guarantee. */
  lemma SharedKeyBreaks(f: Fleet, domain: string, o: CertCacheKey.CertOptions, cert: Cert)
    requires Cold(f) && |f.servers| > 0 && !o.revoked && RequestFor(domain, o).key !in f.store && cert.id !in f.revoked
    ensures !OnlyRevoked(FleetRun(f, [Ask(0, domain, o)] + FreshIssue(cert)), RequestFor(domain, o).key)
  {
    var r := RequestFor(domain, o);
    var steps := [Ask(0, domain, o)] + FreshIssue(cert);
    assert steps[1..] == FreshIssue(cert);
    var f1 := FleetNext(f, steps[0]);
    assert f1.servers[0] == EMPTY.(calls := [Call(r, Reading)]);
    FreshIssueCaches(f1, r, cert);
  }

  /** All requests of the run are among those admitted. */
  ghost predicate Admits(admitted: iset<(string, CertCacheKey.CertOptions)>, steps: seq<Step>) {
    forall i :: 0 <= i < |steps| && steps[i].Ask? ==> (steps[i].domain, steps[i].options) in admitted
  }

  lemma {:induction false} Bound(ids: set<nat>) returns (n: nat)
    ensures forall id :: id in ids ==> id < n
  {
    if ids == {} {
      n := 0;
    } else {
      var id :| id in ids;
      var m := Bound(ids - {id});
      n := if id < m then m else id + 1;
      assert forall x :: x in ids ==> x == id || x in ids - {id};
    }
  }

  ghost predicate AllRevoked(admitted: iset<(string, CertCacheKey.CertOptions)>, k: Key) {
    forall r :: r in admitted && RequestFor(r.0, r.1).key == k ==> r.1.revoked
  }

  ghost predicate AlwaysOnlyRevoked(f: Fleet, admitted: iset<(string, CertCacheKey.CertOptions)>, k: Key)
    requires f.Valid()
  {
    forall steps :: Admits(admitted, steps) ==> OnlyRevoked(FleetRun(f, steps), k)
  }

  lemma AdmittedIsHonest(admitted: iset<(string, CertCacheKey.CertOptions)>, steps: seq<Step>, k: Key)
    requires AllRevoked(admitted, k) && Admits(admitted, steps)
    ensures forall i :: 0 <= i < |steps| ==> Honest(steps[i], k)
  {
    forall i | 0 <= i < |steps|
      ensures Honest(steps[i], k)
    {
      if steps[i].Ask? {
        var r := (steps[i].domain, steps[i].options);
        assert r in admitted;
      }
    }
  }

  lemma AdmittedPlainBreaks(f: Fleet, admitted: iset<(string, CertCacheKey.CertOptions)>,
                            r: (string, CertCacheKey.CertOptions))
    requires Cold(f) && |f.servers| > 0 && r in admitted && !r.1.revoked && RequestFor(r.0, r.1).key !in f.store
    ensures !AlwaysOnlyRevoked(f, admitted, RequestFor(r.0, r.1).key)
  {
    var id := Bound(f.revoked);
    var steps := [Ask(0, r.0, r.1)] + FreshIssue(Cert(id, 0));
    SharedKeyBreaks(f, r.0, r.1, Cert(id, 0));
    assert Admits(admitted, steps);
  }

  /**
   * From a store without the key: every run of the admitted requests keeps the guarantee, if and only if every
   * admitted request with that key asks for revocation.
   */
  lemma RevokeExactly(f: Fleet, admitted: iset<(string, CertCacheKey.CertOptions)>, k: Key)
    requires Cold(f) && |f.servers| > 0 && k !in f.store
    ensures AlwaysOnlyRevoked(f, admitted, k) <==> AllRevoked(admitted, k)
  {
    if AllRevoked(admitted, k) {
      forall steps | Admits(admitted, steps)
        ensures OnlyRevoked(FleetRun(f, steps), k)
      {
        AdmittedIsHonest(admitted, steps, k);
        RevokeBeforePublish(f, steps, k);
      }
    } else {
      var r :| r in admitted && RequestFor(r.0, r.1).key == k && !r.1.revoked;
      AdmittedPlainBreaks(f, admitted, r);
    }
  }

  // --- Each server of a fleet makes a run of its own, from its start or last restart ---

  lemma {:induction false} ServerRun(f: Fleet, steps: seq<Step>, i: nat, before: seq<Event>)
    returns (events: seq<Event>)
    requires f.Valid() && i < |f.servers| && f.servers[i] == Run(EMPTY, before)
    ensures i < |FleetRun(f, steps).servers| && FleetRun(f, steps).servers[i] == Run(EMPTY, events)
    decreases |steps|
  {
    if steps == [] {
      events := before;
    } else {
      var after := OwnStep(f, steps[0], i, before);
      events := ServerRun(FleetNext(f, steps[0]), steps[1..], i, after);
    }
  }

  /** A fleet step is at most one event of server i, or its restart. */
  lemma OwnStep(f: Fleet, step: Step, i: nat, before: seq<Event>) returns (events: seq<Event>)
    requires f.Valid() && i < |f.servers| && f.servers[i] == Run(EMPTY, before)
    ensures i < |FleetNext(f, step).servers| && FleetNext(f, step).servers[i] == Run(EMPTY, events)
  {
    if FleetNext(f, step).servers[i] == f.servers[i] {
      events := before;
    } else if step.Restart? {
      events := [];
    } else {
      var e := OwnEvent(f, step, i);
      AcmeProgress.RunThen(EMPTY, before, e);
      events := before + [e];
    }
  }

  lemma OwnEvent(f: Fleet, step: Step, i: nat) returns (e: Event)
    requires f.Valid() && i < |f.servers| && FleetNext(f, step).servers[i] != f.servers[i] && !step.Restart?
    ensures FleetNext(f, step).servers[i] == Next(f.servers[i], e)
    ensures e.EvResume? ==> step.Resume? && step.server == i
  {
    var s := f.servers[i];
    match step
    case Ask(_, domain, o) => e := EvBegin(RequestFor(domain, o));
    case StoreReads(_, c) => e := EvAnswer(c, Lookup(f.store, s.calls[c].request.key));
    case Local(_, event) => e := event;
    case Resume(_, c) => e := EvResume(c, f.now);
    case RevokeReturns(_, a) => e := EvRevoked(a);
    case OpApplied(_, n) => e := EvOpDone(n);
    case LoadFills(_) => e := EvLoad(f.loading[i]);
    case _ => assert false;
  }
}
