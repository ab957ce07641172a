/** Any number of servers loading or creating the fleet's CA over one shared store, step by step between awaits. */
module FleetCa {
  import opened Common

  /** A persisted CA. `parses` says whether its certificate and key can be loaded. */
  datatype Ca = Ca(id: nat, expiry: int, parses: bool)

  /** Where one server stands in loadOrCreatePersistedCA. */
  datatype Pc =
    | Starting
    | Loaded(stored: Option<Ca>)
    | Creating(stored: Option<Ca>)
    | Created(stored: Option<Ca>, generated: Ca)
    | Beaten(generated: Ca)
    | Reread(winner: Option<Ca>, generated: Ca)
    | Finished(ca: Ca)
    | Failed

  datatype Fleet = Fleet(servers: seq<Pc>, store: Option<Ca>, now: int)

  datatype Step =
    | Read(server: nat)
    | Decide(server: nat)
    | Create(server: nat, generated: Ca)
    | Write(server: nat, acknowledged: bool)
    | ReadAgain(server: nat)
    | Adopt(server: nat)
    | Fail(server: nat)
    | Restart(server: nat)
    | Tick(time: nat)

  const RENEWAL_MARGIN_MS := 1000 * 60 * 60 * 24 * 30

  predicate IsCaUsable(ca: Ca, now: int) {
    ca.expiry - now > RENEWAL_MARGIN_MS
  }

  /** The CA to take from a store read, if there is one that is usable and can be loaded. */
  function Usable(found: Option<Ca>, now: int): Option<Ca> {
    if found.Some? && IsCaUsable(found.value, now) && found.value.parses then found else None
  }

  function Goto(f: Fleet, i: nat, pc: Pc): Fleet
    requires i < |f.servers|
  {
    f.(servers := f.servers[i := pc])
  }

  /** Over a CA that was found unusable it overwrites; otherwise only the first of all servers stores its own. */
  function WriteCa(f: Fleet, i: nat, acknowledged: bool): Fleet
    requires i < |f.servers| && f.servers[i].Created?
  {
    var Created(stored, generated) := f.servers[i];
    if stored.Some? || f.store.None? then
      Goto(f, i, if acknowledged then Finished(generated) else Failed).(store := Some(generated))
    else Goto(f, i, if acknowledged then Beaten(generated) else Failed)
  }

  /** A step that is not enabled changes nothing. */
  function Next(f: Fleet, step: Step): Fleet {
    if step.Tick? then f.(now := f.now + step.time)
    else if step.server >= |f.servers| then f
    else
      var i, pc := step.server, f.servers[step.server];
      match step
      case Read(_) => if pc.Starting? then Goto(f, i, Loaded(f.store)) else f
      case Decide(_) =>
        if pc.Loaded? then
          var usable := Usable(pc.stored, f.now);
          Goto(f, i, if usable.Some? then Finished(usable.value) else Creating(pc.stored))
        else f
      case Create(_, generated) => if pc.Creating? then Goto(f, i, Created(pc.stored, generated)) else f
      case Write(_, acknowledged) => if pc.Created? then WriteCa(f, i, acknowledged) else f
      case ReadAgain(_) => if pc.Beaten? then Goto(f, i, Reread(f.store, pc.generated)) else f
      case Adopt(_) =>
        if pc.Reread? then Goto(f, i, Finished(Usable(pc.winner, f.now).GetOr(pc.generated))) else f
      case Fail(_) => if pc.Finished? then f else Goto(f, i, Failed)
      case Restart(_) => Goto(f, i, Starting)
  }

  function Run(f: Fleet, steps: seq<Step>): Fleet
    decreases |steps|
  {
    if steps == [] then f else Run(Next(f, steps[0]), steps[1..])
  }

  // --- Agreement ---

  /** Loadable, and usable until the horizon. */
  predicate Lasting(ca: Ca, horizon: int) {
    ca.parses && IsCaUsable(ca, horizon)
  }

  predicate Launch(f: Fleet) {
    forall i :: 0 <= i < |f.servers| ==> f.servers[i].Starting?
  }

  /** The run ends by the horizon, and what it creates is loadable and usable until then. */
  predicate WithinHorizon(f: Fleet, steps: seq<Step>, horizon: int)
    decreases |steps|
  {
    f.now <= horizon &&
    (steps == [] ||
      ((steps[0].Create? ==> Lasting(steps[0].generated, horizon)) &&
       WithinHorizon(Next(f, steps[0]), steps[1..], horizon)))
  }

  /** Every server that has finished has the CA that is in the store. */
  predicate Agreement(f: Fleet) {
    forall i :: 0 <= i < |f.servers| && f.servers[i].Finished? ==> f.store == Some(f.servers[i].ca)
  }

  predicate LastingStore(store: Option<Ca>, horizon: int) {
    store.Some? ==> Lasting(store.value, horizon)
  }

  /** Nothing but absence leads a server to create, and a beaten server finds the winner. */
  predicate Sound(pc: Pc, store: Option<Ca>, horizon: int) {
    match pc
    case Loaded(stored) => stored.Some? ==> stored == store
    case Creating(stored) => stored.None?
    case Created(stored, generated) => stored.None? && Lasting(generated, horizon)
    case Beaten(_) => store.Some?
    case Reread(winner, _) => store.Some? && winner == store
    case Finished(ca) => store == Some(ca)
    case _ => true
  }

  predicate SoundFleet(f: Fleet, horizon: int) {
    && LastingStore(f.store, horizon)
    && forall i :: 0 <= i < |f.servers| ==> Sound(f.servers[i], f.store, horizon)
  }

  lemma GotoSound(f: Fleet, i: nat, pc: Pc, horizon: int)
    requires SoundFleet(f, horizon) && i < |f.servers| && Sound(pc, f.store, horizon)
    ensures SoundFleet(Goto(f, i, pc), horizon)
  {
  }

  /** The first CA stored is the last: no later step changes the store. */
  lemma StepSound(f: Fleet, step: Step, horizon: int)
    requires SoundFleet(f, horizon) && f.now <= horizon && (step.Create? ==> Lasting(step.generated, horizon))
    ensures SoundFleet(Next(f, step), horizon)
    ensures f.store.Some? ==> Next(f, step).store == f.store
  {
    if !step.Tick? && step.server < |f.servers| {
      var i := step.server;
      assert Sound(f.servers[i], f.store, horizon);
      if step.Write? && f.servers[i].Created? && f.store.None? {
        var g := f.(store := Some(f.servers[i].generated));
        GotoSound(g, i, if step.acknowledged then Finished(f.servers[i].generated) else Failed, horizon);
      } else {
        GotoSound(f, i, Next(f, step).servers[i], horizon);
      }
    }
  }

  lemma {:induction false} RunSound(f: Fleet, steps: seq<Step>, horizon: int)
    requires SoundFleet(f, horizon) && WithinHorizon(f, steps, horizon)
    ensures SoundFleet(Run(f, steps), horizon)
    ensures f.store.Some? ==> Run(f, steps).store == f.store
    decreases |steps|
  {
    if steps != [] {
      StepSound(f, steps[0], horizon);
      RunSound(Next(f, steps[0]), steps[1..], horizon);
    }
  }

  /**
   * Fleet agreement: from a store that is empty or holds a CA that lasts, whatever the interleaving, failures,
   * restarts and lost acknowledgements, all servers that finish return the CA in the store, and it never changes.
   */
  lemma FleetAgreement(f: Fleet, steps: seq<Step>, horizon: int)
    requires Launch(f) && LastingStore(f.store, horizon) && WithinHorizon(f, steps, horizon)
    ensures Agreement(Run(f, steps))
    ensures f.store.Some? ==> Run(f, steps).store == f.store
  {
    RunSound(f, steps, horizon);
    forall i | 0 <= i < |Run(f, steps).servers| && Run(f, steps).servers[i].Finished?
      ensures Run(f, steps).store == Some(Run(f, steps).servers[i].ca)
    {
      assert Sound(Run(f, steps).servers[i], Run(f, steps).store, horizon);
    }
  }

  lemma {:induction false} RunThen(f: Fleet, first: seq<Step>, second: seq<Step>)
    ensures Run(f, first + second) == Run(Run(f, first), second)
    decreases |first|
  {
    if first == [] {
      assert first + second == second;
    } else {
      assert (first + second)[1..] == first[1..] + second;
      RunThen(Next(f, first[0]), first[1..], second);
    }
  }

  lemma {:induction false} HorizonThen(f: Fleet, first: seq<Step>, second: seq<Step>, horizon: int)
    requires WithinHorizon(f, first, horizon) && WithinHorizon(Run(f, first), second, horizon)
    ensures WithinHorizon(f, first + second, horizon)
    decreases |first|
  {
    if first == [] {
      assert first + second == second;
    } else {
      assert (first + second)[0] == first[0] && (first + second)[1..] == first[1..] + second;
      HorizonThen(Next(f, first[0]), first[1..], second, horizon);
    }
  }

  // --- Renewal does not converge ---

  predicate Allowed(f: Fleet, step: Step, horizon: int) {
    f.now <= horizon && (step.Create? ==> Lasting(step.generated, horizon))
  }

  lemma StepThen(f: Fleet, step: Step, rest: seq<Step>, horizon: int)
    requires Allowed(f, step, horizon) && WithinHorizon(Next(f, step), rest, horizon)
    ensures WithinHorizon(f, [step] + rest, horizon) && Run(f, [step] + rest) == Run(Next(f, step), rest)
  {
    assert ([step] + rest)[0] == step && ([step] + rest)[1..] == rest;
  }

  lemma FourSteps(f: Fleet, a: Step, b: Step, c: Step, d: Step, horizon: int)
    requires !a.Tick? && !b.Tick? && !c.Tick? && !d.Tick?
    requires Allowed(f, a, horizon) && Allowed(f, b, horizon) && Allowed(f, c, horizon) && Allowed(f, d, horizon)
    ensures WithinHorizon(f, [a, b, c, d], horizon)
    ensures Run(f, [a, b, c, d]) == Next(Next(Next(Next(f, a), b), c), d)
  {
    var f1 := Next(f, a);
    var f2 := Next(f1, b);
    var f3 := Next(f2, c);
    StepThen(f3, d, [], horizon);
    StepThen(f2, c, [d] + [], horizon);
    StepThen(f1, b, [c] + ([d] + []), horizon);
    StepThen(f, a, [b] + ([c] + ([d] + [])), horizon);
    assert [a, b, c, d] == [a] + ([b] + ([c] + ([d] + [])));
  }

  lemma ReadAndDecide(f: Fleet, horizon: int)
    requires Launch(f) && |f.servers| >= 2 && f.store.Some? && Usable(f.store, f.now).None? && f.now <= horizon
    ensures var steps := [Read(0), Read(1), Decide(0), Decide(1)];
      && WithinHorizon(f, steps, horizon)
      && Run(f, steps) == f.(servers := f.servers[0 := Creating(f.store)][1 := Creating(f.store)])
  {
    FourSteps(f, Read(0), Read(1), Decide(0), Decide(1), horizon);
    assert Run(f, [Read(0), Read(1), Decide(0), Decide(1)]).servers ==
      f.servers[0 := Creating(f.store)][1 := Creating(f.store)];
  }

  lemma CreateAndWrite(f: Fleet, a: Ca, b: Ca, horizon: int)
    requires |f.servers| >= 2 && f.servers[0] == f.servers[1] == Creating(f.store) && f.store.Some?
    requires f.now <= horizon && Lasting(a, horizon) && Lasting(b, horizon)
    ensures var steps := [Create(0, a), Create(1, b), Write(0, true), Write(1, true)];
      && WithinHorizon(f, steps, horizon)
      && Run(f, steps).servers == f.servers[0 := Finished(a)][1 := Finished(b)]
  {
    FourSteps(f, Create(0, a), Create(1, b), Write(0, true), Write(1, true), horizon);
    assert Run(f, [Create(0, a), Create(1, b), Write(0, true), Write(1, true)]).servers ==
      f.servers[0 := Finished(a)][1 := Finished(b)];
  }

  /** From a stored CA that does not last, waiting until the horizon and renewing twice ends in two CAs. */
  lemma RenewalDiverges(f: Fleet, horizon: int) returns (steps: seq<Step>)
    requires Launch(f) && |f.servers| >= 2 && f.now <= horizon && !LastingStore(f.store, horizon)
    ensures WithinHorizon(f, steps, horizon) && !Agreement(Run(f, steps))
  {
    var a, b := Ca(0, horizon + RENEWAL_MARGIN_MS + 1, true), Ca(1, horizon + RENEWAL_MARGIN_MS + 1, true);
    var wait := [Tick(horizon - f.now)];
    var read := [Read(0), Read(1), Decide(0), Decide(1)];
    var write := [Create(0, a), Create(1, b), Write(0, true), Write(1, true)];
    var late := f.(now := horizon);
    assert wait[1..] == [] && Run(f, wait) == late && WithinHorizon(f, wait, horizon);
    ReadAndDecide(late, horizon);
    CreateAndWrite(Run(late, read), a, b, horizon);
    RunThen(late, read, write);
    HorizonThen(late, read, write, horizon);
    RunThen(f, wait, read + write);
    HorizonThen(f, wait, read + write, horizon);
    steps := wait + (read + write);
    var g := Run(f, steps);
    assert g.servers[0] == Finished(a) && g.servers[1] == Finished(b);
  }

  /** Two or more servers agree in every run exactly when the store starts empty or with a CA that lasts the run. */
  lemma AgreementExact(f: Fleet, horizon: int)
    requires Launch(f) && |f.servers| >= 2 && f.now <= horizon
    ensures LastingStore(f.store, horizon) <==>
      forall steps :: WithinHorizon(f, steps, horizon) ==> Agreement(Run(f, steps))
  {
    if LastingStore(f.store, horizon) {
      forall steps | WithinHorizon(f, steps, horizon)
        ensures Agreement(Run(f, steps))
      {
        FleetAgreement(f, steps, horizon);
      }
    } else {
      var steps := RenewalDiverges(f, horizon);
      assert WithinHorizon(f, steps, horizon) && !Agreement(Run(f, steps));
    }
  }
}
