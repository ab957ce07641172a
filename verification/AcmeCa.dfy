/** The certificate cache and the ACME client as objects updated in place, each method up to its next await. */
module AcmeCa {
  import opened Common
  import opened AcmeServer
  import AcmeFlight
  import AcmeProgress
  import AcmeSingleFlight

  datatype CachedCertificate = CachedCertificate(cacheKey: Key, cert: Cert)

  /** The records by key; of two with the same key the later one stays. */
  function ByKey(records: seq<CachedCertificate>): map<Key, Cert> {
    if records == [] then map[]
    else ByKey(records[..|records| - 1])[records[|records| - 1].cacheKey := records[|records| - 1].cert]
  }

  /** For each key the last record with it, if there is one. */
  lemma {:induction false} LastRecordStays(records: seq<CachedCertificate>, k: Key)
    ensures match Lookup(ByKey(records), k)
            case None => forall i :: 0 <= i < |records| ==> records[i].cacheKey != k
            case Some(cert) => exists i: nat :: LastRecord(records, k, i) && records[i].cert == cert
  {
    if records != [] {
      var n := |records| - 1;
      LastRecordStays(records[..n], k);
      if records[n].cacheKey == k {
        assert LastRecord(records, k, n);
      } else if k in ByKey(records[..n]) {
        var i: nat :| LastRecord(records[..n], k, i) && records[..n][i].cert == ByKey(records[..n])[k];
        assert LastRecord(records, k, i);
      }
    }
  }

  predicate LastRecord(records: seq<CachedCertificate>, k: Key, i: nat) {
    && i < |records| && records[i].cacheKey == k
    && forall j :: i < j < |records| ==> records[j].cacheKey != k
  }

  class PersistentCertCache {
    var cache: map<Key, Cert>
    /** Writes and deletions handed to the backend whose outcome is not known yet. */
    var backendCalls: seq<StoreOp>

    constructor ()
      ensures cache == map[] && backendCalls == []
    {
      cache := map[];
      backendCalls := [];
    }

    /** What readAll gave, if it did not fail: an outage leaves the cache as it is. */
    method LoadCache(stored: Option<seq<CachedCertificate>>)
      modifies this
      ensures cache == if stored.Some? then old(cache) + ByKey(stored.value) else old(cache)
      ensures backendCalls == old(backendCalls)
    {
      if stored.None? {
        return;
      }
      var certs := stored.value;
      for i := 0 to |certs|
        invariant cache == old(cache) + ByKey(certs[..i])
        invariant backendCalls == old(backendCalls)
      {
        assert certs[..i + 1][..i] == certs[..i];
        cache := cache[certs[i].cacheKey := certs[i].cert];
      }
      assert certs[..|certs|] == certs;
    }

    method CacheCert(k: Key, cert: Cert)
      modifies this
      ensures cache == old(cache)[k := cert]
      ensures backendCalls == old(backendCalls) + [Write(k, cert)]
    {
      cache := cache[k := cert];
      backendCalls := backendCalls + [Write(k, cert)];
    }

    method ClearCache(k: Key)
      modifies this
      ensures cache == old(cache) - {k}
      ensures backendCalls == old(backendCalls) + [Delete(k)]
    {
      cache := cache - {k};
      backendCalls := backendCalls + [Delete(k)];
    }

    method GetCert(k: Key) returns (cert: Option<Cert>)
      ensures cert.Some? <==> k in cache
      ensures cert.Some? ==> cert.value == cache[k]
    {
      cert := if k in cache then Some(cache[k]) else None;
    }
  }

  /** One object is one run of the server model: each method is the event it records. */
  class AcmeCA {
    const certCache: PersistentCertCache
    var pendingCertRenewals: map<Key, nat>
    var attempts: seq<Attempt>
    var calls: seq<Call>
    ghost var history: seq<Event>

    /** From a cache as loaded at startup, before anything is handed to the backend. */
    constructor (certCache: PersistentCertCache)
      requires certCache.backendCalls == []
      ensures this.certCache == certCache && Valid()
      ensures State() == EMPTY.(cache := certCache.cache)
      ensures history == [EvLoad(certCache.cache)]
    {
      this.certCache := certCache;
      pendingCertRenewals := map[];
      attempts := [];
      calls := [];
      history := [EvLoad(certCache.cache)];
      new;
      LoadedRun(certCache.cache);
    }

    ghost function State(): Server
      reads this, certCache
    {
      Server(certCache.cache, certCache.backendCalls, pendingCertRenewals, attempts, calls)
    }

    /** The fields are where the recorded events lead. */
    ghost predicate Valid()
      reads this, certCache
    {
      State() == Run(EMPTY, history)
    }

    // --- What holds of every object at all times ---

    /** Pending renewals and waits are orderly, and every chain of waits of a caller ends at work or at a result. */
    lemma NoDeadlock()
      requires Valid()
      ensures Orderly(State())
      ensures forall c :: 0 <= c < |calls| && calls[c].stage.Joined? ==>
        var end := AcmeProgress.ChainEnd(attempts, calls[c].stage.attempt);
        && (attempts[end].Running() || attempts[end].status.Done?)
        && attempts[end].request.key == calls[c].request.key
    {
      OrderlyRun(EMPTY, history);
      AcmeProgress.NoDeadlock(history);
    }

    /** One renewal of a key at a time, ever, if and only if none was started beside a pending one. */
    lemma SingleFlight(k: Key)
      requires Valid()
      ensures AcmeSingleFlight.AlwaysSingle(EMPTY, history, k) <==> AcmeSingleFlight.NeverOverlaps(EMPTY, history, k)
      ensures AcmeSingleFlight.NeverOverlaps(EMPTY, history, k) ==>
        forall a :: 0 <= a < |attempts| ==>
          (AcmeFlight.Counted(AcmeFlight.InFlight, attempts[a], k) <==>
           k in pendingCertRenewals && pendingCertRenewals[k] == a)
    {
      AcmeSingleFlight.SingleFlightExactly(history, k);
      if AcmeSingleFlight.NeverOverlaps(EMPTY, history, k) {
        AcmeSingleFlight.ExactRun(EMPTY, history, k);
        AcmeSingleFlight.ExactIsPending(State(), k);
      }
    }

    // --- The steps ---

    /**
     * What is known without waiting. In expired mode a certificate is only returned once it has expired; in
     * normal mode whatever is cached is returned, and a call starts when that is nothing or close to expiry.
     */
    method TryGetCertificateSync(r: Request, now: int) returns (cert: Option<Cert>)
      requires Valid()
      modifies this
      ensures Valid()
      ensures cert.Some? ==> r.key in certCache.cache && cert.value == certCache.cache[r.key]
      ensures r.expired && cert.Some? ==> cert.value.expiry <= now
      ensures r.key in certCache.cache && cert.None? ==> r.expired && now < certCache.cache[r.key].expiry
      ensures var starts := r.key !in certCache.cache ||
          (cert.Some? && !r.expired && cert.value.expiry - now < PROACTIVE_REFRESH_TIME);
        && State() == (if starts then Begin(old(State()), r) else old(State()))
        && history == old(history) + if starts then [EvBegin(r)] else []
    {
      cert := certCache.GetCert(r.key);
      if cert.Some? && r.expired && now < cert.value.expiry {
        return None;
      }
      if cert.None? || (!r.expired && cert.value.expiry - now < PROACTIVE_REFRESH_TIME) {
        GetCertificate(r);
      }
    }

    /** Up to the store read of fetchCert, or past it when the cache already knows. */
    method GetCertificate(r: Request)
      requires Valid()
      modifies this
      ensures Valid() && history == old(history) + [EvBegin(r)]
      ensures State() == Begin(old(State()), r)
    {
      var cached := certCache.GetCert(r.key);
      calls := calls + [Call(r, if cached.Some? then Ready(cached) else Reading)];
      Record(history, EvBegin(r));
      history := history + [EvBegin(r)];
    }

    /** The backend's read answers, or fails and rejects the call. */
    method StoreAnswers(c: nat, answer: Option<Option<Cert>>)
      requires Valid() && c < |calls| && calls[c].stage.Reading?
      modifies this
      ensures Valid()
      ensures history == old(history) + [if answer.Some? then EvAnswer(c, answer.value) else EvReadFails(c)]
      ensures State() == SetStage(old(State()), c, if answer.Some? then Read(answer.value) else Rejected)
    {
      ghost var e := if answer.Some? then EvAnswer(c, answer.value) else EvReadFails(c);
      calls := calls[c := calls[c].(stage := if answer.Some? then Read(answer.value) else Rejected)];
      Record(history, e);
      history := history + [e];
    }

    method FetchCertAnswered(c: nat)
      requires Valid() && c < |calls| && calls[c].stage.Read?
      modifies this, certCache
      ensures Valid() && history == old(history) + [EvFill(c)]
      ensures State() == Fill(old(State()), c)
    {
      var found := calls[c].stage.found;
      if found.Some? {
        certCache.cache := certCache.cache[calls[c].request.key := found.value];
      }
      calls := calls[c := calls[c].(stage := Ready(found))];
      Record(history, EvFill(c));
      history := history + [EvFill(c)];
    }

    /** From the answer of fetchCert to the promise or certificate returned. */
    method ResumeCall(c: nat, now: int)
      requires Valid() && c < |calls| && calls[c].stage.Ready?
      modifies this, certCache
      ensures Valid() && history == old(history) + [EvResume(c, now)]
      ensures State() == Resume(old(State()), c, now)
    {
      var r, cachedCert := calls[c].request, calls[c].stage.found;
      var answer;
      if cachedCert.Some? {
        answer := Returned(cachedCert.value);
        if cachedCert.value.expiry <= now {
          if !r.expired {
            certCache.ClearCache(r.key);
            answer := Joined(|attempts|);
            StartRenewal(r, Expired);
          }
        } else if !r.expired && cachedCert.value.expiry - now < PROACTIVE_REFRESH_TIME {
          if r.key !in pendingCertRenewals {
            StartRenewal(r, NearExpiry);
          }
        }
      } else if r.key in pendingCertRenewals {
        answer := Joined(pendingCertRenewals[r.key]);
      } else {
        answer := Joined(|attempts|);
        StartRenewal(r, Missing);
      }
      calls := calls[c := calls[c].(stage := answer)];
      Record(history, EvResume(c, now));
      history := history + [EvResume(c, now)];
    }

    /** The forced path: no await between the request to the authority and the pending entry. */
    method StartRenewal(r: Request, cause: Cause)
      modifies this`pendingCertRenewals, this`attempts
      ensures State() == Start(old(State()), r, cause)
    {
      pendingCertRenewals := pendingCertRenewals[r.key := |attempts|];
      attempts := attempts + [Attempt(r, cause, Issuing)];
    }

    method CertificateIssued(a: nat, cert: Cert)
      requires Valid() && a < |attempts| && attempts[a].status.Issuing?
      modifies this, certCache
      ensures Valid() && history == old(history) + [EvIssued(a, cert)]
      ensures State() == Issued(old(State()), a, cert)
    {
      var r := attempts[a].request;
      if r.key in pendingCertRenewals && pendingCertRenewals[r.key] != a {
        attempts := attempts[a := attempts[a].(status := Waiting(pendingCertRenewals[r.key]))];
      } else if r.revoked {
        attempts := attempts[a := attempts[a].(status := Revoking(cert))];
      } else {
        PublishCertificate(a, cert);
      }
      Record(history, EvIssued(a, cert));
      history := history + [EvIssued(a, cert)];
    }

    /** The revocation has been answered; what was issued may be published. */
    method CertificateRevoked(a: nat)
      requires Valid() && a < |attempts| && attempts[a].status.Revoking?
      modifies this, certCache
      ensures Valid() && history == old(history) + [EvRevoked(a)]
      ensures State() == Publish(old(State()), a, old(attempts[a].status.cert))
    {
      PublishCertificate(a, attempts[a].status.cert);
      Record(history, EvRevoked(a));
      history := history + [EvRevoked(a)];
    }

    /** Removes the pending entry whichever attempt it names, and caches the certificate. */
    method PublishCertificate(a: nat, cert: Cert)
      requires a < |attempts|
      modifies this`pendingCertRenewals, this`attempts, certCache
      ensures State() == Publish(old(State()), a, cert)
    {
      var k := attempts[a].request.key;
      pendingCertRenewals := pendingCertRenewals - {k};
      certCache.CacheCert(k, cert);
      attempts := attempts[a := attempts[a].(status := Done(cert))];
    }

    method RenewalFailed(a: nat)
      requires Valid() && a < |attempts| && attempts[a].Running()
      modifies this
      ensures Valid() && history == old(history) + [EvFailed(a)]
      ensures State() == Failed(old(State()), a)
    {
      var next := |attempts|;
      StartRenewal(attempts[a].request, Retry);
      attempts := attempts[a := attempts[a].(status := Waiting(next))];
      Record(history, EvFailed(a));
      history := history + [EvFailed(a)];
    }

    /** An attempt that waits takes the result of the one it waits for. */
    method AttemptSettles(a: nat)
      requires Valid() && Enabled(State(), EvSettle(a))
      modifies this
      ensures Valid() && history == old(history) + [EvSettle(a)]
      ensures State() == SetStatus(old(State()), a, Done(old(attempts[attempts[a].status.on].status.cert)))
    {
      attempts := attempts[a := attempts[a].(status := Done(attempts[attempts[a].status.on].status.cert))];
      Record(history, EvSettle(a));
      history := history + [EvSettle(a)];
    }

    /** A call returns the result of the attempt it joined. */
    method CallReturns(c: nat) returns (cert: Cert)
      requires Valid() && Enabled(State(), EvReturn(c))
      modifies this
      ensures Valid() && history == old(history) + [EvReturn(c)]
      ensures cert == old(attempts[calls[c].stage.attempt].status.cert)
      ensures State() == SetStage(old(State()), c, Returned(cert))
    {
      cert := attempts[calls[c].stage.attempt].status.cert;
      calls := calls[c := calls[c].(stage := Returned(cert))];
      Record(history, EvReturn(c));
      history := history + [EvReturn(c)];
    }

    /** A write or deletion has taken effect or failed. */
    method BackendDone(n: nat)
      requires Valid() && n < |certCache.backendCalls|
      modifies this, certCache
      ensures Valid() && history == old(history) + [EvOpDone(n)]
      ensures State() == old(State()).(ops := old(certCache.backendCalls[..n]) + old(certCache.backendCalls[n + 1..]))
    {
      certCache.backendCalls := certCache.backendCalls[..n] + certCache.backendCalls[n + 1..];
      Record(history, EvOpDone(n));
      history := history + [EvOpDone(n)];
    }
  }

  lemma Record(history: seq<Event>, e: Event)
    ensures Run(EMPTY, history + [e]) == Next(Run(EMPTY, history), e)
  {
    AcmeProgress.RunThen(EMPTY, history, e);
  }

  lemma LoadedRun(cache: map<Key, Cert>)
    ensures Run(EMPTY, [EvLoad(cache)]) == EMPTY.(cache := cache)
  {
    assert [EvLoad(cache)][1..] == [] && map[] + cache == cache;
  }
}
