/** Run sequentially, the cache holds exactly the most recently used keys, in order of use. */
module LruRefinement {
  import opened Common
  import opened JsMaps
  import opened SecureContextCaches

  function Run(accesses: seq<Access>, maxSize: nat): Cache
    requires maxSize > 0
  {
    if accesses == [] then JsMap([], map[])
    else Serve(Run(accesses[..|accesses| - 1], maxSize), maxSize, accesses[|accesses| - 1])
  }

  function KeysOf(accesses: seq<Access>): seq<string> {
    if accesses == [] then []
    else KeysOf(accesses[..|accesses| - 1]) + [accesses[|accesses| - 1].key]
  }

  predicate KeysGiven(accesses: seq<Access>) {
    forall i :: 0 <= i < |accesses| ==> accesses[i].key != ""
  }

  // --- The reference: keys by last use ---

  /** The distinct keys of a trace, least recently used first. */
  function ByRecency(trace: seq<string>): seq<string> {
    if trace == [] then []
    else
      var k := trace[|trace| - 1];
      Without(ByRecency(trace[..|trace| - 1]), k) + [k]
  }

  /** The keys used after the last use of `k`. */
  function UsedAfter(trace: seq<string>, k: string): set<string> {
    if trace == [] || trace[|trace| - 1] == k then {}
    else UsedAfter(trace[..|trace| - 1], k) + {trace[|trace| - 1]}
  }

  function LastN<T>(s: seq<T>, n: nat): seq<T> {
    if |s| <= n then s else s[|s| - n..]
  }

  lemma {:induction false} ByRecencyDistinct(trace: seq<string>)
    ensures Distinct(ByRecency(trace))
  {
    if trace != [] {
      var before, k := ByRecency(trace[..|trace| - 1]), trace[|trace| - 1];
      ByRecencyDistinct(trace[..|trace| - 1]);
      WithoutDistinct(before, k);
      DistinctSnoc(Without(before, k), k);
    }
  }

  lemma LastNOfAppend<T>(p: seq<T>, k: seq<T>, n: nat)
    requires n <= |k|
    ensures LastN(p + k, n) == LastN(k, n)
  {
    assert (p + k)[|p + k| - n..] == k[|k| - n..];
  }

  lemma LastNSnoc<T>(s: seq<T>, x: T, n: nat)
    requires n > 0
    ensures LastN(s + [x], n) == LastN(s, n - 1) + [x]
  {
  }

  lemma DistinctParts<K>(a: seq<K>, b: seq<K>)
    requires Distinct(a + b)
    ensures Distinct(b) && forall k :: k in b ==> k !in a
  {
    DistinctDrop(a + b, |a|);
    assert (a + b)[|a|..] == b;
    DistinctApart(a, b);
  }

  lemma {:induction false} DistinctApart<K>(a: seq<K>, b: seq<K>)
    requires Distinct(a + b)
    ensures forall k :: k in b ==> k !in a
  {
    if a != [] {
      assert (a + b)[1..] == a[1..] + b;
      DistinctApart(a[1..], b);
      assert forall k :: k in b ==> k in a[1..] + b;
    }
  }

  /** Using a key that is among the last n: it moves to the end of them. */
  lemma UseHeld(r: seq<string>, n: nat, k: string)
    requires Distinct(r) && k in LastN(r, n)
    ensures LastN(Without(r, k) + [k], n) == Without(LastN(r, n), k) + [k]
  {
    var held := LastN(r, n);
    var p := r[..|r| - |held|];
    assert r == p + held;
    DistinctParts(p, held);
    WithoutAppend(p, held, k);
    WithoutDistinct(held, k);
    Assoc(p, Without(held, k), [k]);
    if |r| > n {
      LastNOfAppend(p, Without(held, k) + [k], n);
      assert LastN(Without(held, k) + [k], n) == Without(held, k) + [k];
    } else {
      assert p == [];
      assert p + (Without(held, k) + [k]) == Without(held, k) + [k];
    }
  }

  /** Using a key that is not: the oldest of them makes room. */
  lemma UseNew(r: seq<string>, n: nat, k: string)
    requires Distinct(r) && n > 0 && k !in LastN(r, n)
    ensures LastN(Without(r, k) + [k], n) == LastN(LastN(r, n), n - 1) + [k]
  {
    var held := LastN(r, n);
    var p := r[..|r| - |held|];
    assert r == p + held;
    WithoutAppend(p, held, k);
    LastNSnoc(Without(r, k), k, n);
    if |r| > n {
      LastNOfAppend(Without(p, k), held, n - 1);
    } else {
      assert p == [] && held == r;
    }
  }

  lemma ServeKeys(c: Cache, maxSize: nat, a: Access)
    requires maxSize > 0 && c.Valid() && |c.keys| <= maxSize
    ensures Serve(c, maxSize, a).keys == if a.key in c.keys then Without(c.keys, a.key) + [a.key]
                                         else LastN(c.keys, maxSize - 1) + [a.key]
  {
    if a.key in c.keys {
      c.DeleteValid(a.key);
    } else {
      NewestValid(c, maxSize - 1);
    }
  }

  /** Main theorem: hit, miss or expired entry, the keys held are the last `maxSize` by recency. */
  lemma {:induction false} LruRefinement(accesses: seq<Access>, maxSize: nat)
    requires maxSize > 0 && KeysGiven(accesses)
    ensures Sound(Run(accesses, maxSize), maxSize)
    ensures Run(accesses, maxSize).keys == LastN(ByRecency(KeysOf(accesses)), maxSize)
  {
    if accesses != [] {
      var before, a := accesses[..|accesses| - 1], accesses[|accesses| - 1];
      LruRefinement(before, maxSize);
      var c, r := Run(before, maxSize), ByRecency(KeysOf(before));
      LookSound(c, maxSize, a.key, a.now);
      StoreSound(Look(c, a.key, a.now).0, maxSize, a.key, a.now, a.made);
      ServeKeys(c, maxSize, a);
      ByRecencyDistinct(KeysOf(before));
      assert KeysOf(accesses)[..|KeysOf(accesses)| - 1] == KeysOf(before);
      if a.key in c.keys {
        UseHeld(r, maxSize, a.key);
      } else {
        UseNew(r, maxSize, a.key);
      }
    }
  }

  // --- The same, without the reference list ---

  /** In recency order, exactly the keys used after the last use of `k` come behind it. */
  lemma {:induction false} BehindInRecency(trace: seq<string>, k: string) returns (a: seq<string>, b: seq<string>)
    requires k in trace
    ensures ByRecency(trace) == a + ([k] + b)
    ensures (forall x :: x in b ==> x in UsedAfter(trace, k)) && (forall x :: x in UsedAfter(trace, k) ==> x in b)
  {
    var n := |trace| - 1;
    var before, last := trace[..n], trace[n];
    if last == k {
      a, b := Without(ByRecency(before), k), [];
    } else {
      assert k in before;
      var a', b' := BehindInRecency(before, k);
      a, b := Without(a', last), Without(b', last) + [last];
      WithoutAppend(a', [k] + b', last);
      WithoutAppend([k], b', last);
      assert Without([k], last) == [k];
      assert Without(a', last) + ([k] + Without(b', last)) + [last] == a + ([k] + b);
    }
  }

  lemma {:induction false} DistinctSize(ks: seq<string>, s: set<string>)
    requires Distinct(ks) && (forall k :: k in ks ==> k in s) && (forall k :: k in s ==> k in ks)
    ensures |s| == |ks|
  {
    if ks == [] {
      assert s == {};
    } else {
      DistinctSize(ks[1..], s - {ks[0]});
    }
  }

  lemma {:induction false} InRecency(trace: seq<string>, k: string)
    ensures k in ByRecency(trace) <==> k in trace
  {
    if trace != [] {
      InRecency(trace[..|trace| - 1], k);
    }
  }

  lemma InLastN<T>(a: seq<T>, k: T, b: seq<T>, n: nat)
    requires k !in a && k !in b
    ensures k in LastN(a + ([k] + b), n) <==> |b| < n
  {
    var s := a + ([k] + b);
    assert s[|a|] == k;
    if |s| > n {
      if |b| < n {
        assert s[|s| - n..][|a| - (|s| - n)] == k;
      } else {
        assert s[|s| - n..] == b[|b| - n..];
      }
    }
  }

  /** A key is held exactly when it was used and fewer than `maxSize` other keys have been used since. */
  lemma HeldExactly(accesses: seq<Access>, maxSize: nat, k: string)
    requires maxSize > 0 && KeysGiven(accesses)
    ensures k in Run(accesses, maxSize).keys <==>
            k in KeysOf(accesses) && |UsedAfter(KeysOf(accesses), k)| < maxSize
  {
    var trace := KeysOf(accesses);
    LruRefinement(accesses, maxSize);
    InRecency(trace, k);
    ByRecencyDistinct(trace);
    if k in trace {
      var a, b := BehindInRecency(trace, k);
      DistinctParts(a, [k] + b);
      assert ([k] + b)[1..] == b;
      DistinctSize(b, UsedAfter(trace, k));
      InLastN(a, k, b, maxSize);
    }
  }

  // --- What each call is served, without the cache ---

  /** The key has been used, and fewer than `maxSize` others since. */
  predicate Recent(accesses: seq<Access>, maxSize: nat, key: string) {
    key in KeysOf(accesses) && |UsedAfter(KeysOf(accesses), key)| < maxSize
  }

  /** The access whose context is the one to serve for the key: the last that could not be served itself. */
  function Current(accesses: seq<Access>, maxSize: nat, key: string): Option<Access>
    decreases |accesses|, 0
  {
    if accesses == [] then None
    else
      var before, last := accesses[..|accesses| - 1], accesses[|accesses| - 1];
      if last.key == key && !IsServed(before, maxSize, key, last.now) then Some(last)
      else Current(before, maxSize, key)
  }

  /** A call at this time is served an earlier context. */
  predicate IsServed(accesses: seq<Access>, maxSize: nat, key: string, now: int)
    decreases |accesses|, 1
  {
    && Recent(accesses, maxSize, key)
    && var made := Current(accesses, maxSize, key); made.Some? && Fresh(made.value.made, made.value.now, now)
  }

  predicate MadeBy(e: Entry, a: Option<Access>) {
    a.Some? && e == Entry(a.value.made.context, Capped(a.value.made.expiry, a.value.now))
  }

  lemma HitIsServed(accesses: seq<Access>, maxSize: nat, key: string, now: int)
    requires maxSize > 0 && KeysGiven(accesses)
    requires var c := Run(accesses, maxSize); key in c.values ==> MadeBy(c.values[key], Current(accesses, maxSize, key))
    ensures Look(Run(accesses, maxSize), key, now).1.Some? <==> IsServed(accesses, maxSize, key, now)
  {
    LruRefinement(accesses, maxSize);
    HeldExactly(accesses, maxSize, key);
    if key in Run(accesses, maxSize).values {
      var made := Current(accesses, maxSize, key).value;
      FreshExactly(made.made, made.now, now);
    }
  }

  lemma {:induction false} HoldsCurrent(accesses: seq<Access>, maxSize: nat, key: string)
    requires maxSize > 0 && KeysGiven(accesses) && key in Run(accesses, maxSize).values
    ensures MadeBy(Run(accesses, maxSize).values[key], Current(accesses, maxSize, key))
  {
    var before, a := accesses[..|accesses| - 1], accesses[|accesses| - 1];
    var c := Run(before, maxSize);
    LruRefinement(before, maxSize);
    if key in c.values {
      HoldsCurrent(before, maxSize, key);
    }
    var (looked, hit) := Look(c, a.key, a.now);
    LookSound(c, maxSize, a.key, a.now);
    if a.key == key {
      HitIsServed(before, maxSize, key, a.now);
    } else if hit.Some? {
      LookKeeps(c, a.key, a.now, key);
    } else {
      StoreKeeps(looked, maxSize, a.key, a.now, a.made, key);
      LookKeeps(c, a.key, a.now, key);
    }
  }

  /**
   * Main theorem: a call runs no factory if and only if its key was used, fewer than `maxSize` others since, and the
   * context last made for it is fresh; it is served that context.
   */
  lemma ServedExactly(accesses: seq<Access>, maxSize: nat, key: string, now: int)
    requires maxSize > 0 && KeysGiven(accesses)
    ensures var hit := Look(Run(accesses, maxSize), key, now).1;
      && (hit.Some? <==> IsServed(accesses, maxSize, key, now))
      && (hit.Some? ==> hit.value.context == Current(accesses, maxSize, key).value.made.context)
  {
    if key in Run(accesses, maxSize).values {
      HoldsCurrent(accesses, maxSize, key);
    }
    HitIsServed(accesses, maxSize, key, now);
  }

  /** A key behind another in the cache was used after it. */
  lemma OrderedByUse(accesses: seq<Access>, maxSize: nat, i: nat, j: nat)
    requires maxSize > 0 && KeysGiven(accesses) && i < j < |Run(accesses, maxSize).keys|
    ensures var keys := Run(accesses, maxSize).keys;
            keys[j] in UsedAfter(KeysOf(accesses), keys[i])
  {
    var trace, keys := KeysOf(accesses), Run(accesses, maxSize).keys;
    LruRefinement(accesses, maxSize);
    var r := ByRecency(trace);
    InRecency(trace, keys[i]);
    ByRecencyDistinct(trace);
    var a, b := BehindInRecency(trace, keys[i]);
    DistinctParts(a, [keys[i]] + b);
    var d := |r| - |keys|;
    LastNAt(r, maxSize, i);
    LastNAt(r, maxSize, j);
    BehindIn(r, a, keys[i], b, d + i, d + j);
  }

  lemma LastNAt<T>(r: seq<T>, n: nat, i: nat)
    requires i < |LastN(r, n)|
    ensures LastN(r, n)[i] == r[|r| - |LastN(r, n)| + i]
  {
  }

  lemma {:induction false} DistinctIndex<K>(ks: seq<K>, p: nat, q: nat)
    requires Distinct(ks) && p < |ks| && q < |ks| && ks[p] == ks[q]
    ensures p == q
  {
    if p > 0 && q > 0 {
      DistinctIndex(ks[1..], p - 1, q - 1);
    }
  }

  lemma BehindIn(r: seq<string>, a: seq<string>, k: string, b: seq<string>, p: nat, q: nat)
    requires r == a + ([k] + b) && Distinct(r) && p < q < |r| && r[p] == k
    ensures r[q] in b
  {
    assert r[|a|] == k;
    DistinctIndex(r, p, |a|);
    assert r[q] == b[q - |a| - 1];
  }
}
