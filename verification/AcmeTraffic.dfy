/**
 * What a server hands to the store and what it keeps, over every run; and how an issued certificate reaches the
 * other servers of a fleet.
 */
module AcmeTraffic {
  import opened Common
  import opened AcmeServer
  import opened AcmeFleet
  import AcmeCa
  import CertCacheKey

  // --- Read off the state before a step ---

  /** The attempt that issued is not superseded by another pending one. */
  predicate Current(s: Server, a: nat)
    requires a < |s.attempts|
  {
    s.attempts[a].request.key in s.pending ==> s.pending[s.attempts[a].request.key] == a
  }

  /** The certificate that a step publishes, under its key: what was issued, or issued and revoked. */
  function Published(s: Server, e: Event): Option<(Key, Cert)> {
    match e
    case EvIssued(a, cert) =>
      if a < |s.attempts| && s.attempts[a].status.Issuing? && Current(s, a) && !s.attempts[a].request.revoked
      then Some((s.attempts[a].request.key, cert)) else None
    case EvRevoked(a) =>
      if a < |s.attempts| && s.attempts[a].status.Revoking?
      then Some((s.attempts[a].request.key, s.attempts[a].status.cert)) else None
    case _ => None
  }

  /** The key whose certificate a step throws away: a normal call has found it expired. */
  function Discarded(s: Server, e: Event): Option<Key> {
    match e
    case EvResume(c, now) =>
      if c < |s.calls| && s.calls[c].stage.Ready? && s.calls[c].stage.found.Some?
         && s.calls[c].stage.found.value.expiry <= now && !s.calls[c].request.expired
      then Some(s.calls[c].request.key) else None
    case _ => None
  }

  function HandedOn(s: Server, e: Event): seq<StoreOp> {
    if Published(s, e).Some? then [Write(Published(s, e).value.0, Published(s, e).value.1)]
    else if Discarded(s, e).Some? then [Delete(Discarded(s, e).value)]
    else []
  }

  function Settled(s: Server, e: Event): seq<StoreOp> {
    if e.EvOpDone? && e.op < |s.ops| then [s.ops[e.op]] else []
  }

  // --- Every step ---

  lemma OpsAfter(s: Server, e: Event)
    requires Settled(s, e) == []
    ensures Next(s, e).ops == s.ops + HandedOn(s, e)
  {
    match e
    case EvResume(c, now) =>
    case EvIssued(a, cert) =>
    case EvRevoked(a) =>
    case _ => assert s.ops + [] == s.ops;
  }

  lemma OneLess<T>(ops: seq<T>, n: nat)
    requires n < |ops|
    ensures multiset(ops[..n] + ops[n + 1..]) + multiset([ops[n]]) == multiset(ops)
  {
    assert ops == ops[..n] + [ops[n]] + ops[n + 1..];
  }

  /** One write for a publication, one deletion for a certificate found expired, and nothing else, ever. */
  lemma StepTraffic(s: Server, e: Event)
    ensures Settled(s, e) == [] ==> Next(s, e).ops == s.ops + HandedOn(s, e)
    ensures multiset(Next(s, e).ops) + multiset(Settled(s, e)) == multiset(s.ops) + multiset(HandedOn(s, e))
  {
    if Settled(s, e) == [] {
      OpsAfter(s, e);
    } else {
      OneLess(s.ops, e.op);
    }
  }

  /** A published certificate is cached, no renewal of its key is pending any more, and the attempt has it. */
  lemma PublishedIsKept(s: Server, e: Event)
    requires Published(s, e).Some?
    ensures var (k, cert) := Published(s, e).value;
      && Lookup(Next(s, e).cache, k) == Some(cert) && k !in Next(s, e).pending
      && e.attempt < |Next(s, e).attempts| && Next(s, e).attempts[e.attempt].status == Done(cert)
  {
  }

  /** What the cache holds for a key after a step, from what it held before. */
  lemma CacheExactly(s: Server, e: Event, k: Key)
    ensures Lookup(Next(s, e).cache, k) ==
      if Published(s, e).Some? && Published(s, e).value.0 == k then Some(Published(s, e).value.1)
      else if Discarded(s, e) == Some(k) then None
      else if e.EvFill? && e.call < |s.calls| && s.calls[e.call].request.key == k
              && s.calls[e.call].stage.Read? && s.calls[e.call].stage.found.Some?
           then s.calls[e.call].stage.found
      else if e.EvLoad? && k in e.certs then Some(e.certs[k])
      else Lookup(s.cache, k)
  {
  }

  // What each step does to the renewals and the calls, component by component.

  /** The request for which a step starts a renewal. */
  function Starts(s: Server, e: Event): Option<Request> {
    match e
    case EvResume(c, now) =>
      if c < |s.calls| && s.calls[c].stage.Ready? then
        var (r, found) := (s.calls[c].request, s.calls[c].stage.found);
        if || (found.None? && r.key !in s.pending)
           || (found.Some? && !r.expired && found.value.expiry <= now)
           || (found.Some? && !r.expired && found.value.expiry - now < 1_209_600_000 && r.key !in s.pending)
        then Some(r) else None
      else None
    case EvFailed(a) => if a < |s.attempts| && s.attempts[a].Running() then Some(s.attempts[a].request) else None
    case _ => None
  }

  /** A new renewal is for the request that caused it, is being issued, and is the pending one of its key. */
  lemma StartedExactly(s: Server, e: Event)
    ensures var (t, n, r) := (Next(s, e), |s.attempts|, Starts(s, e));
      && |t.attempts| == n + (if r.Some? then 1 else 0)
      && (r.Some? ==> t.attempts[n].request == r.value && t.attempts[n].status == Issuing)
  {
  }

  /** The pending renewal of a key: the last started, until one of the key is published. */
  lemma PendingExactly(s: Server, e: Event, k: Key)
    ensures var (t, r, p) := (Next(s, e), Starts(s, e), Published(s, e));
      if r.Some? && r.value.key == k then k in t.pending && t.pending[k] == |s.attempts|
      else if p.Some? && p.value.0 == k then k !in t.pending
      else (k in t.pending <==> k in s.pending) && (k in s.pending ==> t.pending[k] == s.pending[k])
  {
  }

  /**
   * An earlier renewal: published it is done; issued but superseded it waits for the pending one; issued for a revoked
   * request it is to be revoked first; failed it waits for the one just started; and one that waits for a finished one
   * takes its certificate.
   */
  lemma AttemptExactly(s: Server, e: Event, a: nat)
    requires a < |s.attempts|
    ensures a < |Next(s, e).attempts| && Next(s, e).attempts[a].request == s.attempts[a].request
    ensures Next(s, e).attempts[a].status ==
      if !Enabled(s, e) then s.attempts[a].status
      else match e
           case EvIssued(b, cert) =>
             if b != a then s.attempts[a].status
             else if !Current(s, a) then Waiting(s.pending[s.attempts[a].request.key])
             else if s.attempts[a].request.revoked then Revoking(cert)
             else Done(cert)
           case EvRevoked(b) => if b != a then s.attempts[a].status else Done(s.attempts[a].status.cert)
           case EvFailed(b) => if b != a then s.attempts[a].status else Waiting(|s.attempts|)
           case EvSettle(b) =>
             if b != a then s.attempts[a].status else Done(s.attempts[s.attempts[a].status.on].status.cert)
           case _ => s.attempts[a].status
  {
  }

  /** A call for a cached key has its answer at once, and the store is not asked. */
  lemma CachedSparesTheStore(s: Server, r: Request, found: Option<Cert>)
    ensures var t, c := Next(s, EvBegin(r)), |s.calls|;
      && |t.calls| == c + 1 && t.calls[c].request == r
      && (r.key in s.cache ==> t.calls[c].stage == Ready(Some(s.cache[r.key])))
      && (Enabled(t, EvAnswer(c, found)) <==> r.key !in s.cache)
  {
  }

  /** What the store had is kept, so that the next call for the key does not ask again. */
  lemma FetchedIsKept(s: Server, c: nat, r: Request)
    requires Enabled(s, EvFill(c)) && s.calls[c].stage.found.Some? && r.key == s.calls[c].request.key
    ensures var t := Next(Next(s, EvFill(c)), EvBegin(r));
      |t.calls| == |s.calls| + 1 && t.calls[|s.calls|].stage == Ready(s.calls[c].stage.found)
  {
  }

  // --- Every run ---

  function AllHandedOn(s: Server, events: seq<Event>): seq<StoreOp>
    decreases |events|
  {
    if events == [] then [] else HandedOn(s, events[0]) + AllHandedOn(Next(s, events[0]), events[1..])
  }

  function AllSettled(s: Server, events: seq<Event>): seq<StoreOp>
    decreases |events|
  {
    if events == [] then [] else Settled(s, events[0]) + AllSettled(Next(s, events[0]), events[1..])
  }

  /**
   * Conservation: over every run, what waits for the store and what the store has settled are together what waited at
   * the start and one write for each publication and one deletion for each certificate found expired.
   */
  lemma {:induction false} RunTraffic(s: Server, events: seq<Event>)
    ensures multiset(Run(s, events).ops) + multiset(AllSettled(s, events)) ==
      multiset(s.ops) + multiset(AllHandedOn(s, events))
    decreases |events|
  {
    if events != [] {
      var t, rest := Next(s, events[0]), events[1..];
      StepTraffic(s, events[0]);
      RunTraffic(t, rest);
      Balance(s.ops, t.ops, Run(t, rest).ops, HandedOn(s, events[0]), AllHandedOn(t, rest),
              Settled(s, events[0]), AllSettled(t, rest));
    }
  }

  lemma Balance<T>(start: seq<T>, middle: seq<T>, end: seq<T>, in1: seq<T>, in2: seq<T>, out1: seq<T>, out2: seq<T>)
    requires multiset(middle) + multiset(out1) == multiset(start) + multiset(in1)
    requires multiset(end) + multiset(out2) == multiset(middle) + multiset(in2)
    ensures multiset(end) + multiset(out1 + out2) == multiset(start) + multiset(in1 + in2)
  {
    forall x
      ensures (multiset(end) + multiset(out1 + out2))[x] == (multiset(start) + multiset(in1 + in2))[x]
    {
      assert (multiset(middle) + multiset(out1))[x] == (multiset(start) + multiset(in1))[x];
      assert (multiset(end) + multiset(out2))[x] == (multiset(middle) + multiset(in2))[x];
    }
  }

  /** And so of every object at all times. */
  lemma TrafficOfObject(ca: AcmeCa.AcmeCA)
    requires ca.Valid()
    ensures multiset(ca.certCache.backendCalls) + multiset(AllSettled(EMPTY, ca.history)) ==
      multiset(AllHandedOn(EMPTY, ca.history))
  {
    RunTraffic(EMPTY, ca.history);
    assert EMPTY.ops == [];
    assert ca.State().ops == ca.certCache.backendCalls;
  }

  // --- Across a fleet ---

  lemma TwoSteps(f: Fleet, steps: seq<Step>)
    requires f.Valid() && |steps| == 2
    ensures FleetRun(f, steps) == FleetNext(FleetNext(f, steps[0]), steps[1])
  {
    var rest := steps[1..];
    assert rest[0] == steps[1] && rest[1..] == [];
    assert FleetRun(f, steps) == FleetRun(FleetNext(f, steps[0]), rest);
  }

  /** The step of the fleet that makes the publishing event happen: the revocation must have been made. */
  function Publishing(i: nat, e: Event): Step {
    if e.EvRevoked? then RevokeReturns(i, e.attempt) else Local(i, e)
  }

  predicate MayPublish(f: Fleet, i: nat, e: Event) {
    && f.Valid() && i < |f.servers| && Published(f.servers[i], e).Some?
    && (e.EvRevoked? ==> Published(f.servers[i], e).value.1.id in f.revoked)
  }

  lemma PublishingHappens(f: Fleet, i: nat, e: Event)
    requires MayPublish(f, i, e)
    ensures FleetNext(f, Publishing(i, e)) == Happens(f, i, e)
  {
  }

  /** What a publication hands on reaches the store when it is applied. */
  lemma PublishedReachesStore(f: Fleet, i: nat, e: Event)
    requires MayPublish(f, i, e)
    ensures var g := FleetRun(f, [Publishing(i, e), OpApplied(i, |f.servers[i].ops|)]);
      && g.store == f.store[Published(f.servers[i], e).value.0 := Published(f.servers[i], e).value.1]
      && |g.servers| == |f.servers| && g.now == f.now
      && forall j :: 0 <= j < |f.servers| && j != i ==> g.servers[j] == f.servers[j]
  {
    var s := f.servers[i];
    TwoSteps(f, [Publishing(i, e), OpApplied(i, |s.ops|)]);
    PublishingHappens(f, i, e);
    StepTraffic(s, e);
    assert FleetNext(f, Publishing(i, e)).servers[i].ops == s.ops + HandedOn(s, e);
  }

  /** The steps by which a new call, the n-th of its server, is answered from the store. */
  function AnswerFromStore(j: nat, n: nat): seq<Step> {
    [StoreReads(j, n), Local(j, EvFill(n)), Resume(j, n)]
  }

  lemma ThreeSteps(f: Fleet, steps: seq<Step>)
    requires f.Valid() && |steps| == 3
    ensures FleetRun(f, steps) == FleetNext(FleetNext(FleetNext(f, steps[0]), steps[1]), steps[2])
  {
    var rest := steps[1..];
    TwoSteps(FleetNext(f, steps[0]), rest);
    assert FleetRun(f, steps) == FleetRun(FleetNext(f, steps[0]), rest);
  }

  /** The call may be given the certificate: it asks for an expired one, or the certificate is still live. */
  predicate Usable(r: Request, cert: Cert, now: int) {
    r.expired || now < cert.expiry
  }

  /** No renewal follows: the call asks for an expired certificate, or two weeks are left. */
  predicate LeavesAlone(r: Request, cert: Cert, now: int) {
    r.expired || cert.expiry - now >= 1_209_600_000
  }

  lemma ReadFromStore(f: Fleet, j: nat, n: nat)
    requires f.Valid() && j < |f.servers| && n < |f.servers[j].calls| && f.servers[j].calls[n].stage.Reading?
    ensures var s := f.servers[j];
      FleetNext(f, StoreReads(j, n)) ==
        f.(servers := f.servers[j := SetStage(s, n, Read(Lookup(f.store, s.calls[n].request.key)))])
  {
  }

  lemma FillHappens(f: Fleet, j: nat, n: nat)
    requires f.Valid() && j < |f.servers| && Enabled(f.servers[j], EvFill(n))
    ensures FleetNext(f, Local(j, EvFill(n))) == f.(servers := f.servers[j := Fill(f.servers[j], n)])
  {
  }

  lemma ResumeHappens(f: Fleet, j: nat, n: nat)
    requires f.Valid() && j < |f.servers| && Enabled(f.servers[j], EvResume(n, f.now))
    ensures FleetNext(f, Resume(j, n)) ==
      f.(servers := f.servers[j := AcmeServer.Resume(f.servers[j], n, f.now)])
  {
  }

  /** A call of one server from the store's answer to its own. */
  lemma Answered(s: Server, n: nat, cert: Cert, now: int)
    requires n < |s.calls| && Usable(s.calls[n].request, cert, now)
    ensures var read := SetStage(s, n, Read(Some(cert)));
      var filled := Fill(read, n);
      var t := AcmeServer.Resume(filled, n, now);
      && |t.calls| == |s.calls| && t.calls[n].stage == Returned(cert)
      && Lookup(t.cache, s.calls[n].request.key) == Some(cert)
      && (LeavesAlone(s.calls[n].request, cert, now) ==> t.attempts == s.attempts)
  {
    var filled := Fill(SetStage(s, n, Read(Some(cert))), n);
    ResumeMeans(filled, n, now);
  }

  /**
   * On any server of any fleet, whatever else is going on: a call that has turned to the store for a key that is there
   * is given what is stored if it may have it, and starts no renewal unless the certificate is close to its expiry.
   */
  lemma StoredIsServed(f: Fleet, j: nat, n: nat)
    requires f.Valid() && j < |f.servers| && n < |f.servers[j].calls| && f.servers[j].calls[n].stage.Reading?
    requires var r := f.servers[j].calls[n].request; r.key in f.store && Usable(r, f.store[r.key], f.now)
    ensures var (g, s, r) := (FleetRun(f, AnswerFromStore(j, n)), f.servers[j], f.servers[j].calls[n].request);
      && j < |g.servers| && n < |g.servers[j].calls|
      && g.servers[j].calls[n].stage == Returned(f.store[r.key])
      && Lookup(g.servers[j].cache, r.key) == Some(f.store[r.key])
      && (LeavesAlone(r, f.store[r.key], f.now) ==> g.servers[j].attempts == s.attempts)
  {
    var s, cert := f.servers[j], f.store[f.servers[j].calls[n].request.key];
    var steps := AnswerFromStore(j, n);
    ThreeSteps(f, steps);
    ReadFromStore(f, j, n);
    var f1 := FleetNext(f, steps[0]);
    FillHappens(f1, j, n);
    ResumeHappens(FleetNext(f1, steps[1]), j, n);
    Answered(s, n, cert, f.now);
  }

  lemma Asked(f: Fleet, j: nat, domain: string, o: CertCacheKey.CertOptions)
    requires f.Valid() && j < |f.servers| && RequestFor(domain, o).key !in f.servers[j].cache
    ensures var (g, r) := (FleetNext(f, Ask(j, domain, o)), RequestFor(domain, o));
      g == f.(servers := f.servers[j := f.servers[j].(calls := f.servers[j].calls + [Call(r, Reading)])])
  {
  }

  /** A server that does not have the certificate asks the store for it, and serves it. */
  lemma AskingServes(f: Fleet, j: nat, domain: string, o: CertCacheKey.CertOptions, cert: Cert)
    requires f.Valid() && j < |f.servers|
    requires var r := RequestFor(domain, o);
      r.key !in f.servers[j].cache && Lookup(f.store, r.key) == Some(cert) && Usable(r, cert, f.now)
    ensures Serves(f, FleetRun(f, [Ask(j, domain, o)] + AnswerFromStore(j, |f.servers[j].calls|)), j, domain, o, cert)
  {
    var n := |f.servers[j].calls|;
    var steps := [Ask(j, domain, o)] + AnswerFromStore(j, n);
    assert steps[1..] == AnswerFromStore(j, n);
    Asked(f, j, domain, o);
    StoredIsServed(FleetNext(f, steps[0]), j, n);
  }

  /** From f to g a new call of server j for this request was given the certificate, and no renewal was started. */
  predicate Serves(f: Fleet, g: Fleet, j: nat, domain: string, o: CertCacheKey.CertOptions, cert: Cert) {
    && j < |f.servers| && j < |g.servers|
    && |f.servers[j].calls| < |g.servers[j].calls|
    && g.servers[j].calls[|f.servers[j].calls|].stage == Returned(cert)
    && (LeavesAlone(RequestFor(domain, o), cert, f.now) ==> g.servers[j].attempts == f.servers[j].attempts)
  }

  /**
   * Main theorem: an issued certificate reaches the other servers. Wherever in a fleet a certificate is published, once
   * its write has been applied any other server that does not have the key yet gets it from the store for a request
   * with that key, and issues none itself.
   */
  lemma IssuedIsShared(f: Fleet, i: nat, e: Event, j: nat, domain: string, o: CertCacheKey.CertOptions)
    requires MayPublish(f, i, e) && j < |f.servers| && j != i
    requires var (r, cert) := (RequestFor(domain, o), Published(f.servers[i], e).value.1);
      && r.key == Published(f.servers[i], e).value.0
      && r.key !in f.servers[j].cache && Usable(r, cert, f.now)
    ensures var g := FleetRun(f, [Publishing(i, e), OpApplied(i, |f.servers[i].ops|)]);
      var h := FleetRun(g, [Ask(j, domain, o)] + AnswerFromStore(j, |f.servers[j].calls|));
      Serves(f, h, j, domain, o, Published(f.servers[i], e).value.1)
  {
    PublishedReachesStore(f, i, e);
    var g := FleetRun(f, [Publishing(i, e), OpApplied(i, |f.servers[i].ops|)]);
    AskingServes(g, j, domain, o, Published(f.servers[i], e).value.1);
  }

  lemma Restarted(f: Fleet, i: nat)
    requires f.Valid() && i < |f.servers|
    ensures FleetNext(f, Restart(i)) == f.(servers := f.servers[i := EMPTY], loading := f.loading[i := map[]])
  {
  }

  /** And it outlives a restart of the server that published it. */
  lemma IssuedOutlivesRestart(f: Fleet, i: nat, e: Event, domain: string, o: CertCacheKey.CertOptions)
    requires MayPublish(f, i, e)
    requires var (r, cert) := (RequestFor(domain, o), Published(f.servers[i], e).value.1);
      r.key == Published(f.servers[i], e).value.0 && Usable(r, cert, f.now)
    ensures var g := FleetRun(f, [Publishing(i, e), OpApplied(i, |f.servers[i].ops|)]);
      var restarted := FleetNext(g, Restart(i));
      Serves(restarted, FleetRun(restarted, [Ask(i, domain, o)] + AnswerFromStore(i, 0)), i, domain, o,
             Published(f.servers[i], e).value.1)
  {
    PublishedReachesStore(f, i, e);
    var g := FleetRun(f, [Publishing(i, e), OpApplied(i, |f.servers[i].ops|)]);
    var restarted := FleetNext(g, Restart(i));
    Restarted(g, i);
    AskingServes(restarted, i, domain, o, Published(f.servers[i], e).value.1);
  }

  /** A record read at startup is served without the store. */
  lemma WarmStart(f: Fleet, i: nat, k: Key, r: Request)
    requires f.Valid() && i < |f.servers| && k in f.store && r.key == k
    ensures var g := FleetRun(f, [LoadReads(i, k), LoadFills(i)]);
      && i < |g.servers| && Lookup(g.servers[i].cache, k) == Some(f.store[k])
      && |Next(g.servers[i], EvBegin(r)).calls| == |f.servers[i].calls| + 1
      && Next(g.servers[i], EvBegin(r)).calls[|f.servers[i].calls|].stage == Ready(Some(f.store[k]))
  {
    TwoSteps(f, [LoadReads(i, k), LoadFills(i)]);
    var read := FleetNext(f, LoadReads(i, k));
    assert read.loading[i][k] == f.store[k];
    CacheExactly(read.servers[i], EvLoad(read.loading[i]), k);
  }

  /** A certificate to be revoked is published, and so handed to the store, once its revocation is answered. */
  lemma RevocationCompletes(f: Fleet, i: nat, a: nat)
    requires f.Valid() && i < |f.servers| && a < |f.servers[i].attempts| && f.servers[i].attempts[a].status.Revoking?
    ensures var (g, s) := (FleetRun(f, [Revoke(i, a), RevokeReturns(i, a)]), f.servers[i]);
      var (k, cert) := (s.attempts[a].request.key, s.attempts[a].status.cert);
      && i < |g.servers| && cert.id in g.revoked && g.servers[i].ops == s.ops + [Write(k, cert)]
      && Lookup(g.servers[i].cache, k) == Some(cert)
  {
    TwoSteps(f, [Revoke(i, a), RevokeReturns(i, a)]);
    var revoked := FleetNext(f, Revoke(i, a));
    assert MayPublish(revoked, i, EvRevoked(a));
    PublishingHappens(revoked, i, EvRevoked(a));
    StepTraffic(f.servers[i], EvRevoked(a));
    PublishedIsKept(f.servers[i], EvRevoked(a));
  }
}
