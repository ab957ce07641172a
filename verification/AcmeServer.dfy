/**
 * Certificate renewal on one server, as the atomic steps between two awaits. `Calls` are the invocations of
 * getCertificate that wait on the store or on a renewal; `attempts` are the renewals, in the order they started.
 */
module AcmeServer {
  import opened Common

  type Key = string

  /** A request, with the parts of its options that steer a renewal. */
  datatype Request = Request(key: Key, expired: bool, revoked: bool)

  datatype Cert = Cert(id: nat, expiry: int)

  /** Why a renewal was started. */
  datatype Cause = Missing | NearExpiry | Expired | Retry

  datatype Status = Issuing | Revoking(cert: Cert) | Waiting(on: nat) | Done(cert: Cert)

  datatype Attempt = Attempt(request: Request, cause: Cause, status: Status)
  {
    /** Between its start and its publication, its delegation or its failure. */
    predicate Running() {
      status.Issuing? || status.Revoking?
    }
  }

  datatype Stage =
    | Reading
    | Read(found: Option<Cert>)
    | Ready(found: Option<Cert>)
    | Joined(attempt: nat)
    | Returned(cert: Cert)
    | Rejected

  datatype Call = Call(request: Request, stage: Stage)

  datatype StoreOp = Write(key: Key, cert: Cert) | Delete(key: Key)

  datatype Server = Server(
    cache: map<Key, Cert>,
    ops: seq<StoreOp>,
    pending: map<Key, nat>,
    attempts: seq<Attempt>,
    calls: seq<Call>)

  const EMPTY := Server(map[], [], map[], [], [])

  const ONE_DAY := 24 * 60 * 60 * 1000
  const PROACTIVE_REFRESH_TIME := 14 * ONE_DAY

  function Lookup(m: map<Key, Cert>, k: Key): Option<Cert> {
    if k in m then Some(m[k]) else None
  }

  // --- The cert cache ---

  function CacheCert(s: Server, k: Key, c: Cert): Server {
    s.(cache := s.cache[k := c], ops := s.ops + [Write(k, c)])
  }

  function ClearCache(s: Server, k: Key): Server {
    s.(cache := s.cache - {k}, ops := s.ops + [Delete(k)])
  }

  // --- getCertificate ---

  function SetStage(s: Server, c: nat, stage: Stage): Server
    requires c < |s.calls|
  {
    s.(calls := s.calls[c := s.calls[c].(stage := stage)])
  }

  function SetStatus(s: Server, a: nat, status: Status): Server
    requires a < |s.attempts|
  {
    s.(attempts := s.attempts[a := s.attempts[a].(status := status)])
  }

  /** Forced regeneration: a new renewal, which becomes the pending one whatever was pending before. */
  function Start(s: Server, r: Request, cause: Cause): Server {
    s.(attempts := s.attempts + [Attempt(r, cause, Issuing)], pending := s.pending[r.key := |s.attempts|])
  }

  /** A call begins: fetchCert answers from the cache or turns to the store. */
  function Begin(s: Server, r: Request): Server {
    s.(calls := s.calls + [Call(r, if r.key in s.cache then Ready(Some(s.cache[r.key])) else Reading)])
  }

  /** The store's answer reaches fetchCert, which keeps what it found. */
  function Fill(s: Server, c: nat): Server
    requires c < |s.calls| && s.calls[c].stage.Read?
  {
    var found := s.calls[c].stage.found;
    var s1 := if found.Some? then s.(cache := s.cache[s.calls[c].request.key := found.value]) else s;
    SetStage(s1, c, Ready(found))
  }

  /** getCertificate goes on from its await of fetchCert. */
  function Resume(s: Server, c: nat, now: int): Server
    requires c < |s.calls| && s.calls[c].stage.Ready?
  {
    var r := s.calls[c].request;
    match s.calls[c].stage.found
    case Some(cert) =>
      if cert.expiry <= now then
        if r.expired then SetStage(s, c, Returned(cert))
        else SetStage(Start(ClearCache(s, r.key), r, Expired), c, Joined(|s.attempts|))
      else if !r.expired && cert.expiry - now < PROACTIVE_REFRESH_TIME && r.key !in s.pending then
        SetStage(Start(s, r, NearExpiry), c, Returned(cert))
      else SetStage(s, c, Returned(cert))
    case None =>
      if r.key in s.pending then SetStage(s, c, Joined(s.pending[r.key]))
      else SetStage(Start(s, r, Missing), c, Joined(|s.attempts|))
  }

  /**
   * What the branches of Resume amount to. In normal mode an expired certificate is never returned, a live one
   * always is, and afterwards a renewal is pending if it expires within two weeks; with more time left nothing
   * is started. In expired mode whatever was found is returned and nothing is started. With nothing found the
   * call waits for the pending renewal.
   */
  lemma ResumeMeans(s: Server, c: nat, now: int)
    requires c < |s.calls| && s.calls[c].stage.Ready?
    ensures var t, r, found := Resume(s, c, now), s.calls[c].request, s.calls[c].stage.found;
      && (found.None? ==> r.key in t.pending && t.calls[c].stage == Joined(t.pending[r.key]))
      && (found.Some? && r.expired ==> t == SetStage(s, c, Returned(found.value)))
      && (found.Some? && !r.expired ==>
           && (t.calls[c].stage == Returned(found.value) <==> now < found.value.expiry)
           && (found.value.expiry - now < 1_209_600_000 ==> r.key in t.pending)
           && (found.value.expiry - now >= 1_209_600_000 ==> t.attempts == s.attempts && t.pending == s.pending)
           && (found.value.expiry <= now ==> r.key !in t.cache && t.calls[c].stage == Joined(t.pending[r.key])))
      && |t.attempts| <= |s.attempts| + 1
      && (forall j :: 0 <= j < |s.attempts| ==> t.attempts[j] == s.attempts[j])
      && (forall j :: 0 <= j < |s.calls| && j != c ==> t.calls[j] == s.calls[j])
  {
  }

  function Publish(s: Server, a: nat, cert: Cert): Server
    requires a < |s.attempts|
  {
    var k := s.attempts[a].request.key;
    CacheCert(SetStatus(s.(pending := s.pending - {k}), a, Done(cert)), k, cert)
  }

  /** The certificate authority has issued: delegate to the pending attempt, revoke first, or publish. */
  function Issued(s: Server, a: nat, cert: Cert): Server
    requires a < |s.attempts|
  {
    var r := s.attempts[a].request;
    if r.key in s.pending && s.pending[r.key] != a then SetStatus(s, a, Waiting(s.pending[r.key]))
    else if r.revoked then SetStatus(s, a, Revoking(cert))
    else Publish(s, a, cert)
  }

  /** Issuing or revoking failed: the attempt waits for a new one. */
  function Failed(s: Server, a: nat): Server
    requires a < |s.attempts|
  {
    SetStatus(Start(s, s.attempts[a].request, Retry), a, Waiting(|s.attempts|))
  }

  /** What can happen next. An event that is not enabled changes nothing. */
  datatype Event =
    | EvBegin(request: Request)
    | EvAnswer(call: nat, found: Option<Cert>)
    | EvReadFails(call: nat)
    | EvFill(call: nat)
    | EvResume(call: nat, now: int)
    | EvIssued(attempt: nat, cert: Cert)
    | EvRevoked(attempt: nat)
    | EvFailed(attempt: nat)
    | EvSettle(attempt: nat)
    | EvReturn(call: nat)
    | EvOpDone(op: nat)
    | EvLoad(certs: map<Key, Cert>)

  predicate Enabled(s: Server, e: Event) {
    match e
    case EvBegin(_) => true
    case EvAnswer(c, _) => c < |s.calls| && s.calls[c].stage.Reading?
    case EvReadFails(c) => c < |s.calls| && s.calls[c].stage.Reading?
    case EvFill(c) => c < |s.calls| && s.calls[c].stage.Read?
    case EvResume(c, _) => c < |s.calls| && s.calls[c].stage.Ready?
    case EvIssued(a, _) => a < |s.attempts| && s.attempts[a].status.Issuing?
    case EvRevoked(a) => a < |s.attempts| && s.attempts[a].status.Revoking?
    case EvFailed(a) => a < |s.attempts| && s.attempts[a].Running()
    case EvSettle(a) =>
      && a < |s.attempts| && s.attempts[a].status.Waiting?
      && s.attempts[a].status.on < |s.attempts| && s.attempts[s.attempts[a].status.on].status.Done?
    case EvReturn(c) =>
      && c < |s.calls| && s.calls[c].stage.Joined?
      && s.calls[c].stage.attempt < |s.attempts| && s.attempts[s.calls[c].stage.attempt].status.Done?
    case EvOpDone(n) => n < |s.ops|
    case EvLoad(_) => true
  }

  function Apply(s: Server, e: Event): Server
    requires Enabled(s, e)
  {
    match e
    case EvBegin(r) => Begin(s, r)
    case EvAnswer(c, found) => SetStage(s, c, Read(found))
    case EvReadFails(c) => SetStage(s, c, Rejected)
    case EvFill(c) => Fill(s, c)
    case EvResume(c, now) => Resume(s, c, now)
    case EvIssued(a, cert) => Issued(s, a, cert)
    case EvRevoked(a) => Publish(s, a, s.attempts[a].status.cert)
    case EvFailed(a) => Failed(s, a)
    case EvSettle(a) => SetStatus(s, a, Done(s.attempts[s.attempts[a].status.on].status.cert))
    case EvReturn(c) => SetStage(s, c, Returned(s.attempts[s.calls[c].stage.attempt].status.cert))
    case EvOpDone(n) => s.(ops := s.ops[..n] + s.ops[n + 1..])
    case EvLoad(certs) => s.(cache := s.cache + certs)
  }

  function Next(s: Server, e: Event): Server {
    if Enabled(s, e) then Apply(s, e) else s
  }

  function Run(s: Server, events: seq<Event>): Server
    decreases |events|
  {
    if events == [] then s else Run(Next(s, events[0]), events[1..])
  }

  // --- No renewal deadlock ---

  /** p runs for key k and is the last attempt started for it. */
  predicate LastFor(attempts: seq<Attempt>, k: Key, p: nat) {
    && p < |attempts| && attempts[p].Running() && attempts[p].request.key == k
    && (forall j :: p < j < |attempts| ==> attempts[j].request.key != k)
  }

  predicate PendingIsLast(pending: map<Key, nat>, attempts: seq<Attempt>) {
    forall k :: k in pending ==> LastFor(attempts, k, pending[k])
  }

  /** A wait of a call or an attempt for the attempt `on`, for key k. */
  predicate WaitsWell(attempts: seq<Attempt>, on: nat, k: Key) {
    on < |attempts| && attempts[on].request.key == k
  }

  /** An attempt only waits for one that started later, for the same key. */
  predicate WaitsForLater(attempts: seq<Attempt>) {
    forall a :: 0 <= a < |attempts| && attempts[a].status.Waiting? ==>
      a < attempts[a].status.on && WaitsWell(attempts, attempts[a].status.on, attempts[a].request.key)
  }

  predicate CallWell(call: Call, attempts: seq<Attempt>) {
    call.stage.Joined? ==> WaitsWell(attempts, call.stage.attempt, call.request.key)
  }

  predicate CallsJoin(calls: seq<Call>, attempts: seq<Attempt>) {
    forall c :: 0 <= c < |calls| ==> CallWell(calls[c], attempts)
  }

  predicate Orderly(s: Server) {
    PendingIsLast(s.pending, s.attempts) && WaitsForLater(s.attempts) && CallsJoin(s.calls, s.attempts)
  }

  lemma StartKeeps(s: Server, r: Request, cause: Cause)
    requires Orderly(s)
    ensures Orderly(Start(s, r, cause))
    ensures LastFor(Start(s, r, cause).attempts, r.key, |s.attempts|)
  {
    var n := Start(s, r, cause).attempts;
    forall k | k in s.pending && k != r.key
      ensures LastFor(n, k, s.pending[k])
    {
      assert LastFor(s.attempts, k, s.pending[k]);
    }
    StillWell(s.attempts, n, s.calls);
  }

  /** Waits stay well-formed as long as attempts keep their places and keys. */
  lemma StillWell(before: seq<Attempt>, after: seq<Attempt>, calls: seq<Call>)
    requires |before| <= |after| && forall a :: 0 <= a < |before| ==> after[a].request == before[a].request
    ensures CallsJoin(calls, before) ==> CallsJoin(calls, after)
    ensures forall on, k :: WaitsWell(before, on, k) ==> WaitsWell(after, on, k)
  {
    if CallsJoin(calls, before) {
      forall c | 0 <= c < |calls|
        ensures CallWell(calls[c], after)
      {
        assert CallWell(calls[c], before);
      }
    }
  }

  lemma StatusKeeps(s: Server, a: nat, status: Status)
    requires Orderly(s) && a < |s.attempts|
    requires status.Waiting? ==> a < status.on && WaitsWell(s.attempts, status.on, s.attempts[a].request.key)
    requires !status.Issuing? && !status.Revoking? ==> forall k :: k in s.pending ==> s.pending[k] != a
    ensures Orderly(SetStatus(s, a, status))
  {
    var n := SetStatus(s, a, status).attempts;
    forall k | k in s.pending
      ensures LastFor(n, k, s.pending[k])
    {
      assert LastFor(s.attempts, k, s.pending[k]);
    }
    StillWell(s.attempts, n, s.calls);
  }

  lemma StageKeeps(s: Server, c: nat, stage: Stage)
    requires Orderly(s) && c < |s.calls|
    requires stage.Joined? ==> WaitsWell(s.attempts, stage.attempt, s.calls[c].request.key)
    ensures Orderly(SetStage(s, c, stage))
  {
  }

  lemma PendingOnlyFor(s: Server, a: nat)
    requires Orderly(s) && a < |s.attempts|
    ensures forall k :: k in s.pending && s.pending[k] == a ==> k == s.attempts[a].request.key
  {
    forall k | k in s.pending && s.pending[k] == a
      ensures k == s.attempts[a].request.key
    {
      assert LastFor(s.attempts, k, a);
    }
  }

  lemma PublishKeeps(s: Server, a: nat, cert: Cert)
    requires Orderly(s) && a < |s.attempts|
    ensures Orderly(Publish(s, a, cert))
  {
    PendingOnlyFor(s, a);
    StatusKeeps(s.(pending := s.pending - {s.attempts[a].request.key}), a, Done(cert));
  }

  lemma IssuedKeeps(s: Server, a: nat, cert: Cert)
    requires Orderly(s) && a < |s.attempts| && s.attempts[a].status.Issuing?
    ensures Orderly(Issued(s, a, cert))
  {
    var r := s.attempts[a].request;
    if r.key in s.pending && s.pending[r.key] != a {
      PendingOnlyFor(s, a);
      assert LastFor(s.attempts, r.key, s.pending[r.key]);
      StatusKeeps(s, a, Waiting(s.pending[r.key]));
    } else if r.revoked {
      StatusKeeps(s, a, Revoking(cert));
    } else {
      PublishKeeps(s, a, cert);
    }
  }

  lemma FailedKeeps(s: Server, a: nat)
    requires Orderly(s) && a < |s.attempts|
    ensures Orderly(Failed(s, a))
  {
    var r := s.attempts[a].request;
    PendingOnlyFor(s, a);
    StartKeeps(s, r, Retry);
    StatusKeeps(Start(s, r, Retry), a, Waiting(|s.attempts|));
  }

  lemma ResumeKeeps(s: Server, c: nat, now: int)
    requires Orderly(s) && c < |s.calls| && s.calls[c].stage.Ready?
    ensures Orderly(Resume(s, c, now))
  {
    var r := s.calls[c].request;
    var found := s.calls[c].stage.found;
    if found.Some? && found.value.expiry <= now && !r.expired {
      var cleared := ClearCache(s, r.key);
      StartKeeps(cleared, r, Expired);
      StageKeeps(Start(cleared, r, Expired), c, Joined(|s.attempts|));
    } else if found.Some? && Resume(s, c, now).attempts != s.attempts {
      StartKeeps(s, r, NearExpiry);
      StageKeeps(Start(s, r, NearExpiry), c, Returned(found.value));
    } else if found.Some? {
      StageKeeps(s, c, Returned(found.value));
    } else if r.key in s.pending {
      assert LastFor(s.attempts, r.key, s.pending[r.key]);
      StageKeeps(s, c, Joined(s.pending[r.key]));
    } else {
      StartKeeps(s, r, Missing);
      StageKeeps(Start(s, r, Missing), c, Joined(|s.attempts|));
    }
  }

  lemma NotPending(s: Server, a: nat)
    requires Orderly(s) && a < |s.attempts| && !s.attempts[a].Running()
    ensures forall k :: k in s.pending ==> s.pending[k] != a
  {
    forall k | k in s.pending
      ensures s.pending[k] != a
    {
      assert LastFor(s.attempts, k, s.pending[k]);
    }
  }

  lemma OrderlyStep(s: Server, e: Event)
    requires Orderly(s)
    ensures Orderly(Next(s, e))
  {
    if Enabled(s, e) {
      match e
      case EvBegin(_) => BeginKeeps(s, e.request);
      case EvAnswer(c, found) => StageKeeps(s, c, Read(found));
      case EvReadFails(c) => StageKeeps(s, c, Rejected);
      case EvFill(c) => StageKeeps(s, c, Ready(s.calls[c].stage.found));
      case EvResume(c, now) => ResumeKeeps(s, c, now);
      case EvIssued(a, cert) => IssuedKeeps(s, a, cert);
      case EvRevoked(a) => PublishKeeps(s, a, s.attempts[a].status.cert);
      case EvFailed(a) => FailedKeeps(s, a);
      case EvSettle(a) =>
        NotPending(s, a);
        StatusKeeps(s, a, Done(s.attempts[s.attempts[a].status.on].status.cert));
      case EvReturn(c) => StageKeeps(s, c, Returned(s.attempts[s.calls[c].stage.attempt].status.cert));
      case _ =>
    }
  }

  lemma BeginKeeps(s: Server, r: Request)
    requires Orderly(s)
    ensures Orderly(Begin(s, r))
  {
  }

  /** Every server reachable from an orderly one is orderly. */
  lemma {:induction false} OrderlyRun(s: Server, events: seq<Event>)
    requires Orderly(s)
    ensures Orderly(Run(s, events))
    decreases |events|
  {
    if events != [] {
      OrderlyStep(s, events[0]);
      OrderlyRun(Next(s, events[0]), events[1..]);
    }
  }
}
