/** What one start of a server does to the stored CA: it takes it, replaces it or stores the first one. */
module FleetRenewal {
  import opened Common
  import opened FleetCa

  /** A stored CA that a server takes: it can be loaded, and has more than thirty days left. */
  predicate Takes(stored: Option<Ca>, now: int) {
    stored.Some? && stored.value.parses && stored.value.expiry - now > 2_592_000_000
  }

  lemma TakesExactly(stored: Option<Ca>, now: int)
    ensures Usable(stored, now) == if Takes(stored, now) then stored else None
  {
  }

  /**
   * A write: over a CA that was found and not taken the new one always goes into the store; with none found, it does
   * if the store is still empty. Whoever stored its own CA has it; whoever did not looks again.
   */
  lemma WriteExactly(f: Fleet, i: nat, acknowledged: bool)
    requires i < |f.servers| && f.servers[i].Created?
    ensures var (g, own) := (Next(f, Write(i, acknowledged)), f.servers[i].generated);
      var wins := f.servers[i].stored.Some? || f.store.None?;
      && g.store == (if wins then Some(own) else f.store)
      && |g.servers| == |f.servers| && g.now == f.now
      && g.servers[i] == (if !acknowledged then Failed else if wins then Finished(own) else Beaten(own))
      && forall j :: 0 <= j < |f.servers| && j != i ==> g.servers[j] == f.servers[j]
  {
  }

  /**
   * How a server comes to have a CA, in any fleet: it took the one it read from the store, it has put its own into the
   * store, or it was beaten and took the winner it read, or kept its own if that winner is not to be taken.
   */
  lemma FinishedExactly(f: Fleet, step: Step, i: nat, ca: Ca)
    requires i < |f.servers| && !f.servers[i].Finished?
    ensures i < |Next(f, step).servers|
    ensures Next(f, step).servers[i] == Finished(ca) <==>
      || (step == Decide(i) && f.servers[i] == Loaded(Some(ca)) && Takes(Some(ca), f.now))
      || (step == Write(i, true) && f.servers[i].Created? && f.servers[i].generated == ca
          && (f.servers[i].stored.Some? || f.store.None?))
      || (step == Adopt(i) && f.servers[i].Reread?
          && ca == if Takes(f.servers[i].winner, f.now) then f.servers[i].winner.value else f.servers[i].generated)
  {
    if step == Decide(i) && f.servers[i].Loaded? {
      TakesExactly(f.servers[i].stored, f.now);
    }
    if step == Adopt(i) && f.servers[i].Reread? {
      TakesExactly(f.servers[i].winner, f.now);
    }
  }

  // --- One start, undisturbed ---

  /** The steps of a start that finds nothing to take. */
  function Renewing(i: nat, own: Ca): seq<Step> {
    [Read(i), Decide(i)] + [Create(i, own), Write(i, true)]
  }

  lemma TwoSteps(f: Fleet, a: Step, b: Step)
    ensures Run(f, [a, b]) == Next(Next(f, a), b)
  {
    var g := Next(f, a);
    var steps := [a, b];
    assert steps[1..] == [b];
    assert Run(f, steps) == Run(g, steps[1..]);
    var last := [b];
    assert last[1..] == [];
  }

  /** Reading and deciding: a CA to be taken is taken, and otherwise one is to be made. Nothing else changes. */
  lemma Decided(f: Fleet, i: nat)
    requires i < |f.servers| && f.servers[i].Starting?
    ensures Run(f, [Read(i), Decide(i)]) ==
      Goto(f, i, if Takes(f.store, f.now) then Finished(f.store.value) else Creating(f.store))
  {
    TwoSteps(f, Read(i), Decide(i));
    TakesExactly(f.store, f.now);
    assert f.servers[i := Loaded(f.store)][i := Next(Next(f, Read(i)), Decide(i)).servers[i]] ==
      f.servers[i := Next(Next(f, Read(i)), Decide(i)).servers[i]];
  }

  lemma Stored(f: Fleet, i: nat, own: Ca)
    requires i < |f.servers| && f.servers[i] == Creating(f.store)
    ensures Run(f, [Create(i, own), Write(i, true)]) == Goto(f, i, Finished(own)).(store := Some(own))
  {
    TwoSteps(f, Create(i, own), Write(i, true));
    var created := Next(f, Create(i, own));
    assert created == Goto(f, i, Created(f.store, own));
    assert created.servers[i := Finished(own)] == f.servers[i := Finished(own)];
  }

  /** A start that takes the stored CA leaves the store alone; any other ends with its own CA, in the store. */
  lemma StartExactly(f: Fleet, i: nat, own: Ca)
    requires i < |f.servers| && f.servers[i].Starting?
    ensures Takes(f.store, f.now) ==> Run(f, [Read(i), Decide(i)]) == Goto(f, i, Finished(f.store.value))
    ensures !Takes(f.store, f.now) ==> Run(f, Renewing(i, own)) == Goto(f, i, Finished(own)).(store := Some(own))
  {
    Decided(f, i);
    if !Takes(f.store, f.now) {
      var decided := Run(f, [Read(i), Decide(i)]);
      RunThen(f, [Read(i), Decide(i)], [Create(i, own), Write(i, true)]);
      Stored(decided, i, own);
      assert decided.servers[i := Finished(own)] == f.servers[i := Finished(own)];
    }
  }

  /** A later start of any server, the same or another, takes the renewed CA while it has time left. */
  lemma RenewedIsTaken(f: Fleet, i: nat, own: Ca, time: nat, j: nat)
    requires i < |f.servers| && j < |f.servers| && f.servers[i].Starting? && !Takes(f.store, f.now)
    requires Takes(Some(own), f.now + time)
    ensures var g := Run(f, Renewing(i, own));
      var later := Next(Next(g, Tick(time)), Restart(j));
      && j < |g.servers| && Run(later, [Read(j), Decide(j)]) == Goto(later, j, Finished(own))
      && Run(later, [Read(j), Decide(j)]).store == Some(own)
  {
    StartExactly(f, i, own);
    var later := Next(Next(Run(f, Renewing(i, own)), Tick(time)), Restart(j));
    StartExactly(later, j, own);
  }

  /**
   * A renewal that nobody disturbs is enough: from any store, if one server of a launching fleet is through before the
   * others start, the whole fleet agrees from then on, in every continuation, on the CA then in the store.
   */
  lemma LoneRenewalConverges(f: Fleet, i: nat, own: Ca, more: seq<Step>, horizon: int)
    requires Launch(f) && i < |f.servers| && Lasting(own, horizon)
    requires !Takes(f.store, f.now) && WithinHorizon(Run(f, Renewing(i, own)), more, horizon)
    ensures var end := Run(f, Renewing(i, own) + more);
      Agreement(end) && end.store == Some(own)
  {
    StartExactly(f, i, own);
    RunThen(f, Renewing(i, own), more);
    var g := Run(f, Renewing(i, own));
    RunSound(g, more, horizon);
    var end := Run(g, more);
    forall k | 0 <= k < |end.servers| && end.servers[k].Finished?
      ensures end.store == Some(end.servers[k].ca)
    {
      assert Sound(end.servers[k], end.store, horizon);
    }
  }
}
