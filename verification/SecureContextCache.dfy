/** The TLS handler's expiring LRU cache, with a factory call in the middle of every miss. */
module SecureContextCaches {
  import opened Common
  import opened JsMaps

  const ONE_DAY: nat := 24 * 60 * 60 * 1000

  type Context = nat

  datatype Entry = Entry(context: Context, expiry: int)

  /** What a factory reports: the context and the expiry of its certificate. */
  datatype Made = Made(context: Context, expiry: int)

  type Cache = JsMap<string, Entry>

  // --- Specification ---

  /** The part of a call before the factory: a hit moves to the back, an expired entry goes away. */
  function Look(c: Cache, key: string, now: int): (Cache, Option<Entry>) {
    var cached := c.Get(key);
    if cached.Some? && cached.value.expiry > now then (c.Delete(key).Set(key, cached.value), cached)
    else if cached.Some? then (c.Delete(key), None)
    else (c, None)
  }

  /** At most a day from the start of the call, and not past the certificate unless that had expired by then. */
  function Capped(expiry: int, started: int): int {
    if expiry <= started then started + ONE_DAY
    else if expiry < started + ONE_DAY then expiry
    else started + ONE_DAY
  }

  /** The `n` newest entries. */
  function Newest(c: Cache, n: nat): Cache {
    if |c.keys| <= n then c else Restrict(c, c.keys[|c.keys| - n..])
  }

  function Restrict(c: Cache, keys: seq<string>): Cache {
    JsMap(keys, map k | k in c.values && k in keys :: c.values[k])
  }

  /** The part of a call after the factory. */
  function Store(c: Cache, maxSize: nat, key: string, started: int, made: Made): Cache
    requires maxSize > 0
  {
    Newest(c, maxSize - 1).Set(key, Entry(made.context, Capped(made.expiry, started)))
  }

  /** One whole call: what it asks for, when it starts, and what its factory would make. */
  datatype Access = Access(key: string, now: int, made: Made)

  function Serve(c: Cache, maxSize: nat, a: Access): Cache
    requires maxSize > 0
  {
    var (looked, hit) := Look(c, a.key, a.now);
    if hit.Some? then looked else Store(looked, maxSize, a.key, a.now, a.made)
  }

  predicate Sound(c: Cache, maxSize: nat) {
    c.Valid() && |c.keys| <= maxSize && "" !in c.keys
  }

  lemma LookSound(c: Cache, maxSize: nat, key: string, now: int)
    requires Sound(c, maxSize) && key != ""
    ensures Sound(Look(c, key, now).0, maxSize)
  {
    c.DeleteValid(key);
    if c.Get(key).Some? {
      c.Delete(key).SetValid(key, c.values[key]);
    }
  }

  lemma {:induction false} DistinctDrop<K>(ks: seq<K>, n: nat)
    requires Distinct(ks) && n <= |ks|
    ensures Distinct(ks[n..])
  {
    if n > 0 {
      DistinctDrop(ks[1..], n - 1);
      assert ks[1..][n - 1..] == ks[n..];
    }
  }

  lemma NewestValid(c: Cache, n: nat)
    requires c.Valid()
    ensures Newest(c, n).Valid() && |Newest(c, n).keys| == if |c.keys| <= n then |c.keys| else n
    ensures forall k :: k in Newest(c, n).keys ==> k in c.keys
  {
    if n < |c.keys| {
      DistinctDrop(c.keys, |c.keys| - n);
    }
  }

  lemma StoreSound(c: Cache, maxSize: nat, key: string, started: int, made: Made)
    requires Sound(c, maxSize) && key != "" && maxSize > 0
    ensures Sound(Store(c, maxSize, key, started, made), maxSize)
  {
    NewestValid(c, maxSize - 1);
    Newest(c, maxSize - 1).SetValid(key, Entry(made.context, Capped(made.expiry, started)));
  }

  lemma WithoutFirst<K>(ks: seq<K>)
    requires ks != [] && Distinct(ks)
    ensures Without(ks, ks[0]) == ks[1..]
  {
  }

  lemma DropFirstOf(c: Cache, keys: seq<string>)
    requires c.Valid() && keys != [] && Distinct(keys) && forall k :: k in keys ==> k in c.values
    ensures Restrict(c, keys).Delete(keys[0]) == Restrict(c, keys[1..])
  {
    WithoutFirst(keys);
    var d := Restrict(c, keys).Delete(keys[0]);
    forall k
      ensures k in d.values <==> k in Restrict(c, keys[1..]).values
    {
      assert k in keys <==> k == keys[0] || k in keys[1..];
    }
  }

  lemma NewestIs(c: Cache, n: nat)
    requires c.Valid() && n <= |c.keys|
    ensures Newest(c, n) == Restrict(c, c.keys[|c.keys| - n..])
  {
    if n == |c.keys| {
      assert c.keys[0..] == c.keys;
      assert Restrict(c, c.keys).values == c.values;
    }
  }

  lemma TailHeld(c: Cache, from: nat)
    requires c.Valid() && from < |c.keys|
    ensures var keys := c.keys[from..];
      && keys != [] && Distinct(keys) && keys[1..] == c.keys[from + 1..]
      && forall k :: k in keys ==> k in c.values
  {
    DistinctDrop(c.keys, from);
    DropDrop(c.keys, from);
  }

  lemma DropFrom(c: Cache, from: nat)
    requires c.Valid() && from < |c.keys|
    ensures var d := Restrict(c, c.keys[from..]);
            d.keys == c.keys[from..] && d.Delete(c.keys[from..][0]) == Restrict(c, c.keys[from + 1..])
  {
    TailHeld(c, from);
    DropFirstOf(c, c.keys[from..]);
  }

  /** Deleting the oldest of the n newest leaves the n - 1 newest. */
  lemma DropOldest(c: Cache, n: nat)
    requires c.Valid() && 0 < n <= |c.keys|
    ensures var d := Newest(c, n);
            |d.keys| == n && d.Delete(d.keys[0]) == Newest(c, n - 1)
  {
    NewestIs(c, n);
    NewestIs(c, n - 1);
    DropFrom(c, |c.keys| - n);
  }

  // --- Safety in every interleaving: calls begin and finish in any order ---

  datatype Event =
    | Began(key: string, now: int)
    | Finished(key: string, started: int, made: Made)

  function Replay(events: seq<Event>, maxSize: nat): Cache
    requires maxSize > 0
  {
    if events == [] then JsMap([], map[])
    else
      After(Replay(events[..|events| - 1], maxSize), events[|events| - 1], maxSize)
  }

  predicate KeysGiven(events: seq<Event>) {
    forall i :: 0 <= i < |events| ==> events[i].key != ""
  }

  /** Entry `e` under `key` is what one of the finished calls for that key stored. */
  predicate StoredBy(e: Entry, key: string, event: Event) {
    && event.Finished? && event.key == key
    && e == Entry(event.made.context, Capped(event.made.expiry, event.started))
  }

  function After(before: Cache, event: Event, maxSize: nat): Cache
    requires maxSize > 0
  {
    match event
    case Began(key, now) => Look(before, key, now).0
    case Finished(key, started, made) => Store(before, maxSize, key, started, made)
  }

  /** One event keeps the cache sound, and an entry is either as before or stored by that event. */
  lemma EventKeeps(before: Cache, event: Event, maxSize: nat)
    requires maxSize > 0 && Sound(before, maxSize) && event.key != ""
    ensures var after := After(before, event, maxSize);
            && Sound(after, maxSize)
            && forall k :: k in after.values ==>
                             || (k in before.values && after.values[k] == before.values[k])
                             || StoredBy(after.values[k], k, event)
  {
    match event {
      case Began(key, now) => LookSound(before, maxSize, key, now);
      case Finished(key, started, made) =>
        NewestValid(before, maxSize - 1);
        StoreSound(before, maxSize, key, started, made);
    }
  }

  ghost predicate Stored(e: Entry, k: string, events: seq<Event>) {
    exists i :: 0 <= i < |events| && StoredBy(e, k, events[i])
  }

  lemma StoredLater(e: Entry, k: string, events: seq<Event>, event: Event)
    requires Stored(e, k, events) || StoredBy(e, k, event)
    ensures Stored(e, k, events + [event])
  {
    var all := events + [event];
    if Stored(e, k, events) {
      var i :| 0 <= i < |events| && StoredBy(e, k, events[i]);
      assert all[i] == events[i];
    } else {
      assert all[|events|] == event;
    }
  }

  lemma {:induction false} InterleavingSafety(events: seq<Event>, maxSize: nat)
    requires maxSize > 0 && KeysGiven(events)
    ensures Sound(Replay(events, maxSize), maxSize)
    ensures forall k :: k in Replay(events, maxSize).values ==> Stored(Replay(events, maxSize).values[k], k, events)
  {
    if events != [] {
      var n := |events| - 1;
      var before, after := Replay(events[..n], maxSize), Replay(events, maxSize);
      InterleavingSafety(events[..n], maxSize);
      EventKeeps(before, events[n], maxSize);
      assert events == events[..n] + [events[n]];
      forall k | k in after.values
        ensures Stored(after.values[k], k, events)
      {
        StoredLater(after.values[k], k, events[..n], events[n]);
      }
    }
  }

  /**
   * Whatever interleaving led here, a hit serves a context some call made for this very key, within a day of
   * that call's start, and before its certificate expires unless that had expired when the call started.
   */
  lemma HitIsSafe(events: seq<Event>, maxSize: nat, key: string, now: int)
    requires maxSize > 0 && KeysGiven(events)
    requires Look(Replay(events, maxSize), key, now).1.Some?
    ensures exists i :: 0 <= i < |events| && events[i].Finished? && events[i].key == key &&
                        var (e, call) := (Look(Replay(events, maxSize), key, now).1.value, events[i]);
                        && e.context == call.made.context
                        && now < e.expiry <= call.started + ONE_DAY
                        && (call.made.expiry > call.started ==> now < call.made.expiry)
  {
    InterleavingSafety(events, maxSize);
    var c := Replay(events, maxSize);
    assert Stored(c.values[key], key, events);
    var i :| 0 <= i < |events| && StoredBy(c.values[key], key, events[i]);
  }

  // --- Traces: every finish belongs to a call that began and missed ---

  /** The calls, by key and time, that have missed and whose factories have not finished. */
  function Open(events: seq<Event>, maxSize: nat): multiset<(string, int)>
    requires maxSize > 0
  {
    if events == [] then multiset{}
    else
      var before, last := events[..|events| - 1], events[|events| - 1];
      match last
      case Began(key, now) =>
        if Look(Replay(before, maxSize), key, now).1.None? then Open(before, maxSize) + multiset{(key, now)}
        else Open(before, maxSize)
      case Finished(key, started, _) => Open(before, maxSize) - multiset{(key, started)}
  }

  predicate WellFormed(events: seq<Event>, maxSize: nat)
    requires maxSize > 0
  {
    events == [] ||
      var before, last := events[..|events| - 1], events[|events| - 1];
      && WellFormed(before, maxSize)
      && (last.Finished? ==> (last.key, last.started) in Open(before, maxSize))
  }

  lemma {:induction false} OpenBegan(events: seq<Event>, maxSize: nat, key: string, now: int) returns (j: nat)
    requires maxSize > 0 && (key, now) in Open(events, maxSize)
    ensures j < |events| && events[j] == Began(key, now)
  {
    var n := |events| - 1;
    if events[n] == Began(key, now) {
      j := n;
    } else {
      j := OpenBegan(events[..n], maxSize, key, now);
    }
  }

  lemma {:induction false} FinishedBegan(events: seq<Event>, maxSize: nat, i: nat) returns (j: nat)
    requires maxSize > 0 && WellFormed(events, maxSize) && i < |events| && events[i].Finished?
    ensures j < i && events[j] == Began(events[i].key, events[i].started)
  {
    var n := |events| - 1;
    if i == n {
      j := OpenBegan(events[..n], maxSize, events[n].key, events[n].started);
    } else {
      j := FinishedBegan(events[..n], maxSize, i);
    }
  }

  /** The context was made by a call for the key that began at j and finished at i, and may still be served. */
  predicate Serves(events: seq<Event>, j: nat, i: nat, key: string, now: int, context: Context) {
    && j < i < |events| && events[i].Finished? && events[i].key == key
    && events[j] == Began(key, events[i].started) && events[i].made.context == context
    && now < events[j].now + ONE_DAY
    && (events[i].made.expiry > events[j].now ==> now < events[i].made.expiry)
  }

  /** In every trace a hit serves what a call for the key made, counted from the moment that call began. */
  lemma HitBegan(events: seq<Event>, maxSize: nat, key: string, now: int) returns (j: nat, i: nat)
    requires maxSize > 0 && KeysGiven(events) && WellFormed(events, maxSize)
    requires Look(Replay(events, maxSize), key, now).1.Some?
    ensures Serves(events, j, i, key, now, Look(Replay(events, maxSize), key, now).1.value.context)
  {
    InterleavingSafety(events, maxSize);
    var e := Replay(events, maxSize).values[key];
    assert Stored(e, key, events);
    i :| 0 <= i < |events| && StoredBy(e, key, events[i]);
    j := FinishedBegan(events, maxSize, i);
  }

  // --- When a call is a hit ---

  /** Within a day of the call that made it, and before its certificate expires unless that had expired by then. */
  predicate Fresh(made: Made, started: int, now: int) {
    now - started < 86_400_000 && (made.expiry > started ==> now < made.expiry)
  }

  lemma FreshExactly(made: Made, started: int, now: int)
    ensures now < Capped(made.expiry, started) <==> Fresh(made, started, now)
  {
  }

  /** What was just stored is served exactly while it is fresh. */
  lemma StoredIsServed(c: Cache, maxSize: nat, key: string, started: int, made: Made, now: int)
    requires maxSize > 0 && c.Valid()
    ensures var hit := Look(Store(c, maxSize, key, started, made), key, now).1;
      (hit.Some? <==> Fresh(made, started, now)) && (hit.Some? ==> hit.value.context == made.context)
  {
    NewestValid(c, maxSize - 1);
    FreshExactly(made, started, now);
  }

  /** The last call for the key that finished. */
  function LastFinished(events: seq<Event>, key: string): (r: Option<Event>)
    ensures r.Some? ==> r.value.Finished? && r.value.key == key && r.value in events
  {
    if events == [] then None
    else
      var last := events[|events| - 1];
      if last.Finished? && last.key == key then Some(last) else LastFinished(events[..|events| - 1], key)
  }

  lemma LookKeeps(c: Cache, key: string, now: int, k: string)
    requires c.Valid() && k in Look(c, key, now).0.values
    ensures k in c.values && Look(c, key, now).0.values[k] == c.values[k]
  {
  }

  lemma StoreKeeps(c: Cache, maxSize: nat, key: string, started: int, made: Made, k: string)
    requires c.Valid() && maxSize > 0 && k != key && k in Store(c, maxSize, key, started, made).values
    ensures k in c.values && Store(c, maxSize, key, started, made).values[k] == c.values[k]
  {
  }

  /** In every interleaving an entry is what the last finished call for its key stored. */
  lemma {:induction false} HoldsLastFinished(events: seq<Event>, maxSize: nat, k: string)
    requires maxSize > 0 && KeysGiven(events) && k in Replay(events, maxSize).values
    ensures LastFinished(events, k).Some?
    ensures StoredBy(Replay(events, maxSize).values[k], k, LastFinished(events, k).value)
  {
    var n := |events| - 1;
    var before := Replay(events[..n], maxSize);
    InterleavingSafety(events[..n], maxSize);
    match events[n] {
      case Began(key, now) =>
        LookKeeps(before, key, now, k);
        HoldsLastFinished(events[..n], maxSize, k);
      case Finished(key, started, made) =>
        if k != key {
          StoreKeeps(before, maxSize, key, started, made, k);
          HoldsLastFinished(events[..n], maxSize, k);
        }
    }
  }

  /** What the next call for the key is served: the context last made for it, if it is held and fresh. */
  function Served(events: seq<Event>, held: seq<string>, key: string, now: int): Option<Context> {
    var last := LastFinished(events, key);
    if key in held && last.Some? && Fresh(last.value.made, last.value.started, now) then Some(last.value.made.context)
    else None
  }

  /** In every interleaving: a call is a hit if and only if its key is held and what was last made for it is fresh. */
  lemma HitExactly(events: seq<Event>, maxSize: nat, key: string, now: int)
    requires maxSize > 0 && KeysGiven(events)
    ensures var (c, served) := (Replay(events, maxSize), Served(events, Replay(events, maxSize).keys, key, now));
      match Look(c, key, now).1 case None => served.None? case Some(e) => served == Some(e.context)
  {
    InterleavingSafety(events, maxSize);
    if key in Replay(events, maxSize).values {
      HoldsLastFinished(events, maxSize, key);
      var last := LastFinished(events, key).value;
      FreshExactly(last.made, last.started, now);
    }
  }

  // --- When eviction ends ---

  /** One turn of the eviction loop: nothing happens when the oldest key is missing or empty. */
  function EvictOnce(c: Cache): Cache {
    if c.keys == [] || c.keys[0] == "" then c else c.Delete(c.keys[0])
  }

  function EvictTimes(c: Cache, n: nat): Cache
    decreases n
  {
    if n == 0 then c else EvictTimes(EvictOnce(c), n - 1)
  }

  /** How many keys stand before the first empty one. */
  function BeforeEmpty(keys: seq<string>): (n: nat)
    ensures n <= |keys|
  {
    if keys == [] || keys[0] == "" then 0 else BeforeEmpty(keys[1..]) + 1
  }

  lemma EvictOnceKeys(c: Cache)
    requires c.Valid() && c.keys != [] && c.keys[0] != ""
    ensures EvictOnce(c).Valid() && EvictOnce(c).keys == c.keys[1..]
  {
    WithoutFirst(c.keys);
    c.DeleteValid(c.keys[0]);
  }

  lemma TurnKeys(c: Cache)
    requires c.Valid()
    ensures EvictOnce(c).Valid()
    ensures BeforeEmpty(EvictOnce(c).keys) == if BeforeEmpty(c.keys) == 0 then 0 else BeforeEmpty(c.keys) - 1
    ensures |EvictOnce(c).keys| - BeforeEmpty(EvictOnce(c).keys) == |c.keys| - BeforeEmpty(c.keys)
  {
    if c.keys != [] && c.keys[0] != "" {
      EvictOnceKeys(c);
    }
  }

  lemma {:induction false} EvictedKeys(c: Cache, n: nat)
    requires c.Valid()
    ensures |EvictTimes(c, n).keys| == |c.keys| - if n <= BeforeEmpty(c.keys) then n else BeforeEmpty(c.keys)
    decreases n
  {
    if n > 0 {
      TurnKeys(c);
      EvictedKeys(EvictOnce(c), n - 1);
    }
  }

  /** The cache is small enough, or only keys that are not empty have to go. */
  predicate EvictionEnds(c: Cache, maxSize: nat) {
    maxSize > 0 && (|c.keys| < maxSize || |c.keys| - maxSize < BeforeEmpty(c.keys))
  }

  /** The loop ends exactly then. */
  lemma EvictionEndsExactly(c: Cache, maxSize: nat)
    requires c.Valid()
    ensures (exists n :: |EvictTimes(c, n).keys| < maxSize) <==> EvictionEnds(c, maxSize)
  {
    if n :| |EvictTimes(c, n).keys| < maxSize {
      EvictedKeys(c, n);
    }
    if |c.keys| < maxSize {
      assert |EvictTimes(c, 0).keys| < maxSize;
    } else if maxSize > 0 && |c.keys| - maxSize < BeforeEmpty(c.keys) {
      var n := |c.keys| - maxSize + 1;
      EvictedKeys(c, n);
      assert |EvictTimes(c, n).keys| < maxSize;
    }
  }

  lemma {:induction false} AllBeforeEmpty(keys: seq<string>)
    requires "" !in keys
    ensures BeforeEmpty(keys) == |keys|
  {
    if keys != [] {
      AllBeforeEmpty(keys[1..]);
    }
  }

  /** How far the loop has come: the newest entries are left, and no more have gone than had to. */
  predicate Evicting(was: Cache, c: Cache, maxSize: nat) {
    && c.Valid() && EvictionEnds(c, maxSize)
    && |c.keys| <= |was.keys| && c == Newest(was, |c.keys|)
    && (|c.keys| >= maxSize - 1 || c == was)
  }

  lemma EvictionGoesOn(was: Cache, c: Cache, maxSize: nat)
    requires was.Valid() && Evicting(was, c, maxSize) && |c.keys| >= maxSize
    ensures c.keys != [] && c.keys[0] != ""
    ensures var d := c.Delete(c.keys[0]); |d.keys| < |c.keys| && Evicting(was, d, maxSize)
  {
    EvictOnceKeys(c);
    DropOldest(was, |c.keys|);
  }

  // --- The class ---

  class SecureContextCache {
    const maxSize: nat
    var cache: Cache
    ghost var history: seq<Event>

    ghost predicate Valid()
      reads this
    {
      && maxSize > 0 && Sound(cache, maxSize)
      && KeysGiven(history) && WellFormed(history, maxSize) && cache == Replay(history, maxSize)
    }

    /** A call that has missed and waits for its factory. */
    ghost predicate Waits(key: string, now: int)
      reads this
      requires maxSize > 0
    {
      (key, now) in Open(history, maxSize)
    }

    constructor (maxSize: nat)
      requires maxSize > 0
      ensures Valid() && this.maxSize == maxSize && cache == JsMap([], map[]) && history == []
    {
      this.maxSize := maxSize;
      cache := JsMap([], map[]);
      history := [];
    }

    /** getOrCreate up to the await. */
    method Begin(key: string, now: int) returns (hit: Option<Context>)
      requires Valid() && key != ""
      modifies this
      ensures Valid()
      ensures cache == Look(old(cache), key, now).0
      ensures hit == match Look(old(cache), key, now).1 case None => None case Some(e) => Some(e.context)
      ensures history == old(history) + [Began(key, now)]
      ensures hit.None? ==> Waits(key, now)
      ensures hit.Some? ==> exists j, i :: Serves(old(history), j, i, key, now, hit.value)
      ensures hit == Served(old(history), old(cache).keys, key, now)
    {
      var cached := cache.Get(key);
      LookSound(cache, maxSize, key, now);
      HitExactly(history, maxSize, key, now);
      TraceGoesOn(history, maxSize, Began(key, now));
      history := history + [Began(key, now)];
      if cached.Some? && cached.value.expiry > now {
        ghost var j, i := HitBegan(old(history), maxSize, key, now);
        cache := cache.Delete(key);
        cache := cache.Set(key, cached.value);
        return Some(cached.value.context);
      }
      if cached.Some? {
        cache := cache.Delete(key);
      }
      hit := None;
    }

    /** getOrCreate after the await: `now` was read before it. */
    method Finish(key: string, now: int, made: Made) returns (context: Context)
      requires Valid() && key != "" && Waits(key, now)
      modifies this
      ensures Valid()
      ensures cache == Store(old(cache), maxSize, key, now, made)
      ensures context == made.context
      ensures history == old(history) + [Finished(key, now, made)]
    {
      var maxExpiry :=
        if made.expiry <= now then now + ONE_DAY
        else if made.expiry < now + ONE_DAY then made.expiry
        else now + ONE_DAY;
      StoreSound(cache, maxSize, key, now, made);
      AllBeforeEmpty(cache.keys);
      Evict();
      TraceGoesOn(history, maxSize, Finished(key, now, made));
      history := history + [Finished(key, now, made)];
      cache := cache.Set(key, Entry(made.context, maxExpiry));
      context := made.context;
    }

    /** A call that nothing else interleaves with and whose factory succeeds. */
    method GetOrCreate(key: string, now: int, made: Made) returns (context: Context)
      requires Valid() && key != ""
      modifies this
      ensures Valid()
      ensures cache == Serve(old(cache), maxSize, Access(key, now, made))
      ensures context == match Look(old(cache), key, now).1 case None => made.context case Some(e) => e.context
    {
      var hit := Begin(key, now);
      if hit.Some? {
        return hit.value;
      }
      context := Finish(key, now, made);
    }

    /** The eviction loop, wherever it ends: see EvictionEndsExactly. */
    method Evict()
      requires cache.Valid() && EvictionEnds(cache, maxSize)
      modifies this`cache
      ensures cache == Newest(old(cache), maxSize - 1)
    {
      while |cache.keys| >= maxSize
        invariant Evicting(old(cache), cache, maxSize)
        decreases |cache.keys|
      {
        EvictionGoesOn(old(cache), cache, maxSize);
        var oldestKey := cache.keys[0];
        if oldestKey != "" {
          cache := cache.Delete(oldestKey);
        }
      }
    }
  }

  /** A call that finishes late, with another one for the key already stored, replaces the context where it stands. */
  lemma LateFinish(c: Cache, maxSize: nat, key: string, started: int, made: Made)
    requires maxSize > 0 && c.Valid()
    ensures var (kept, after) := (Newest(c, maxSize - 1).keys, Store(c, maxSize, key, started, made));
      && after.keys == (if key in kept then kept else kept + [key])
      && key in after.values && after.values[key].context == made.context
      && forall k :: k in kept && k != key ==> k in after.values && after.values[k] == c.values[k]
  {
    NewestValid(c, maxSize - 1);
  }

  /** One more event, its finish if it is one that waits, keeps the trace well-formed. */
  lemma TraceGoesOn(events: seq<Event>, maxSize: nat, e: Event)
    requires maxSize > 0 && KeysGiven(events) && WellFormed(events, maxSize) && e.key != ""
    requires e.Finished? ==> (e.key, e.started) in Open(events, maxSize)
    ensures var all := events + [e];
      && KeysGiven(all) && WellFormed(all, maxSize)
      && Replay(all, maxSize) == After(Replay(events, maxSize), e, maxSize)
      && (e.Began? && Look(Replay(events, maxSize), e.key, e.now).1.None? ==> (e.key, e.now) in Open(all, maxSize))
  {
    assert (events + [e])[..|events|] == events;
  }
}
