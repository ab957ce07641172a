/** Resolving a path into a chain of endpoints, and the unbounded chain that the bounded loop computes. */
module EndpointChain {
  import opened Common
  import opened ChainableEndpoints

  const MAX_CHAIN_DEPTH := 10

  /** An endpoint, by its place in the table, and the path it was matched with. */
  datatype Entry = Entry(endpoint: nat, path: string)

  /** What is thrown instead of a result: an HTTP status, or an error that is none and is answered with 500. */
  datatype Failure = Status(code: nat) | OtherError

  datatype Found = Hit(index: nat) | Miss | Refused | Thrown

  /** endpoints.find: the first that matches, unless one before it throws. */
  function FindMatch(endpoints: seq<Endpoint>, path: string, from: nat): (f: Found)
    requires from <= |endpoints|
    ensures f.Hit? ==> from <= f.index < |endpoints| && Matches(endpoints[f.index], path).Yes?
    decreases |endpoints| - from
  {
    if from == |endpoints| then Miss
    else
      match Matches(endpoints[from], path)
      case Yes => Hit(from)
      case Bad => Refused
      case Throws => Thrown
      case No => FindMatch(endpoints, path, from + 1)
  }

  /** What a search that finds no endpoint throws. */
  function FailureOf(found: Found): Failure
    requires !found.Hit?
  {
    match found
    case Miss => Status(404)
    case Refused => Status(400)
    case Thrown => OtherError
  }

  /** The endpoints in order, and the failure that ended the chain, if one did. */
  datatype Chain = Chain(entries: seq<Entry>, failure: Option<Failure>)

  /** Without any bound: the chain ends because every remaining path is shorter. */
  function FullChain(endpoints: seq<Endpoint>, path: Option<string>): Chain
    decreases if path.Some? then |path.value| + 1 else 0
  {
    if path.None? || path.value == "" then Chain([], None)
    else
      match FindMatch(endpoints, path.value, 0)
      case Hit(i) =>
        var remaining := Remaining(endpoints[i], path.value);
        assert remaining.Some? ==> |remaining.value| < |path.value| by {
          if remaining.Some? {
            RemainingIsShorter(endpoints[i], path.value);
          }
        }
        var rest := FullChain(endpoints, remaining);
        Chain([Entry(i, path.value)] + rest.entries, rest.failure)
      case found => Chain([], Some(FailureOf(found)))
  }

  /** What is left of the chain after eleven endpoints is refused unseen. */
  function Bounded(chain: Chain): Result<seq<Entry>, Failure> {
    if |chain.entries| > MAX_CHAIN_DEPTH + 1 then Err(Status(400))
    else if chain.failure.None? then Ok(chain.entries)
    else if |chain.entries| == MAX_CHAIN_DEPTH + 1 then Err(Status(400))
    else Err(chain.failure.value)
  }

  /** The loop computes the bounded view of the full chain. */
  method ResolveEndpointChain(endpoints: seq<Endpoint>, initialPath: string) returns (r: Result<seq<Entry>, Failure>)
    ensures r == Bounded(FullChain(endpoints, Some(initialPath)))
  {
    var entries: seq<Entry> := [];
    var path := Some(initialPath);
    ghost var chain := FullChain(endpoints, path);
    while path.Some? && path.value != "" && |entries| <= MAX_CHAIN_DEPTH
      invariant |entries| <= MAX_CHAIN_DEPTH + 1
      invariant chain == After(entries, FullChain(endpoints, path))
      decreases MAX_CHAIN_DEPTH + 1 - |entries|
    {
      var endpoint := FindMatch(endpoints, path.value, 0);
      if !endpoint.Hit? {
        NoStep(endpoints, entries, path.value);
        return Err(FailureOf(endpoint));
      }
      OneStep(endpoints, entries, path.value);
      entries := entries + [Entry(endpoint.index, path.value)];
      path := Remaining(endpoints[endpoint.index], path.value);
    }
    if path.Some? && path.value != "" {
      NotEmpty(endpoints, path.value);
      return Err(Status(400));
    }
    LastStep(endpoints, entries, path);
    return Ok(entries);
  }

  function After(entries: seq<Entry>, rest: Chain): Chain {
    Chain(entries + rest.entries, rest.failure)
  }

  lemma LastStep(endpoints: seq<Endpoint>, entries: seq<Entry>, path: Option<string>)
    requires path.None? || path.value == ""
    ensures After(entries, FullChain(endpoints, path)) == Chain(entries, None)
  {
    assert entries + [] == entries;
  }

  lemma NoStep(endpoints: seq<Endpoint>, entries: seq<Entry>, path: string)
    requires path != "" && !FindMatch(endpoints, path, 0).Hit?
    ensures After(entries, FullChain(endpoints, Some(path))) ==
      Chain(entries, Some(FailureOf(FindMatch(endpoints, path, 0))))
  {
    assert entries + [] == entries;
  }

  lemma OneStep(endpoints: seq<Endpoint>, entries: seq<Entry>, path: string)
    requires path != "" && FindMatch(endpoints, path, 0).Hit?
    ensures After(entries, FullChain(endpoints, Some(path))) ==
      After(entries + [Entry(FindMatch(endpoints, path, 0).index, path)],
            FullChain(endpoints, Remaining(endpoints[FindMatch(endpoints, path, 0).index], path)))
  {
    var i := FindMatch(endpoints, path, 0).index;
    Assoc(entries, [Entry(i, path)], FullChain(endpoints, Remaining(endpoints[i], path)).entries);
  }

  /** A path that is left is an endpoint or a failure. */
  lemma NotEmpty(endpoints: seq<Endpoint>, path: string)
    requires path != ""
    ensures FullChain(endpoints, Some(path)).entries != [] || FullChain(endpoints, Some(path)).failure.Some?
  {
  }

  /** Each entry has the path that the one before it left, and its endpoint is the first to match it. */
  predicate Linked(endpoints: seq<Endpoint>, entries: seq<Entry>, path: Option<string>) {
    if entries == [] then path.None? || path.value == ""
    else
      && path == Some(entries[0].path) && entries[0].path != ""
      && FindMatch(endpoints, entries[0].path, 0) == Hit(entries[0].endpoint)
      && Linked(endpoints, entries[1..], Remaining(endpoints[entries[0].endpoint], entries[0].path))
  }

  /** Success means a linked chain of at most eleven entries; nothing else succeeds. */
  lemma {:induction false} ChainExact(endpoints: seq<Endpoint>, path: Option<string>, entries: seq<Entry>)
    ensures FullChain(endpoints, path) == Chain(entries, None) <==> Linked(endpoints, entries, path)
    decreases |entries|
  {
    if path.Some? && path.value != "" {
      var found := FindMatch(endpoints, path.value, 0);
      if found.Hit? && entries != [] {
        var remaining := Remaining(endpoints[found.index], path.value);
        var rest := FullChain(endpoints, remaining);
        ChainExact(endpoints, remaining, entries[1..]);
        assert ([Entry(found.index, path.value)] + rest.entries)[1..] == rest.entries;
        assert entries == [entries[0]] + entries[1..];
      }
    }
  }

  lemma ResolvedExactly(endpoints: seq<Endpoint>, path: string, entries: seq<Entry>)
    ensures Bounded(FullChain(endpoints, Some(path))) == Ok(entries) <==>
      Linked(endpoints, entries, Some(path)) && |entries| <= 11
  {
    ChainExact(endpoints, Some(path), entries);
    var chain := FullChain(endpoints, Some(path));
    if Bounded(chain) == Ok(entries) {
      assert chain == Chain(entries, None);
    }
  }

  // --- Which failure ---

  /** The entries are linked, and leave this rest, which is not empty. */
  predicate Leads(endpoints: seq<Endpoint>, entries: seq<Entry>, path: Option<string>, rest: string) {
    if entries == [] then path == Some(rest) && rest != ""
    else
      && path == Some(entries[0].path) && entries[0].path != ""
      && FindMatch(endpoints, entries[0].path, 0) == Hit(entries[0].endpoint)
      && Leads(endpoints, entries[1..], Remaining(endpoints[entries[0].endpoint], entries[0].path), rest)
  }

  lemma {:induction false} LeadsOn(endpoints: seq<Endpoint>, entries: seq<Entry>, path: Option<string>, rest: string)
    requires Leads(endpoints, entries, path, rest)
    ensures FullChain(endpoints, path) == After(entries, FullChain(endpoints, Some(rest)))
    decreases |entries|
  {
    var onward := FullChain(endpoints, Some(rest));
    if entries == [] {
      assert [] + onward.entries == onward.entries;
    } else {
      var e := entries[0];
      LeadsOn(endpoints, entries[1..], Remaining(endpoints[e.endpoint], e.path), rest);
      Assoc([e], entries[1..], onward.entries);
      assert entries == [e] + entries[1..];
    }
  }

  /** As long as a chain goes on or fails, the entries so far lead to a rest. */
  lemma {:induction false} ChainLeads(endpoints: seq<Endpoint>, path: Option<string>, n: nat) returns (rest: string)
    requires var chain := FullChain(endpoints, path);
      n < |chain.entries| || (n == |chain.entries| && chain.failure.Some?)
    ensures Leads(endpoints, FullChain(endpoints, path).entries[..n], path, rest)
    decreases n
  {
    var chain := FullChain(endpoints, path);
    if n == 0 {
      rest := path.value;
    } else {
      var i := FindMatch(endpoints, path.value, 0).index;
      var onward := Remaining(endpoints[i], path.value);
      assert chain.entries == [Entry(i, path.value)] + FullChain(endpoints, onward).entries;
      rest := ChainLeads(endpoints, onward, n - 1);
      assert chain.entries[..n][1..] == FullChain(endpoints, onward).entries[..n - 1];
    }
  }

  /** The first endpoint that has anything to say about the path says this. */
  predicate FirstSays(endpoints: seq<Endpoint>, path: string, i: nat, m: Match) {
    && i < |endpoints| && Matches(endpoints[i], path) == m != No
    && forall j :: 0 <= j < i ==> Matches(endpoints[j], path).No?
  }

  lemma {:induction false} FoundExactly(endpoints: seq<Endpoint>, path: string, from: nat)
    requires from <= |endpoints| && forall j :: 0 <= j < from ==> Matches(endpoints[j], path).No?
    ensures match FindMatch(endpoints, path, from)
            case Hit(i) => FirstSays(endpoints, path, i, Yes)
            case Miss => forall j :: 0 <= j < |endpoints| ==> Matches(endpoints[j], path).No?
            case Refused => exists i :: FirstSays(endpoints, path, i, Bad)
            case Thrown => exists i :: FirstSays(endpoints, path, i, Throws)
    decreases |endpoints| - from
  {
    if from < |endpoints| {
      if Matches(endpoints[from], path).No? {
        FoundExactly(endpoints, path, from + 1);
      } else {
        assert FirstSays(endpoints, path, from, Matches(endpoints[from], path));
      }
    }
  }

  /** No endpoint matches: 404; the first that has anything to say refuses its parameters: 400; or it throws. */
  ghost predicate EndsIn(endpoints: seq<Endpoint>, path: string, e: Failure) {
    match e
    case Status(code) =>
      || (code == 404 && forall j :: 0 <= j < |endpoints| ==> Matches(endpoints[j], path).No?)
      || (code == 400 && exists i :: FirstSays(endpoints, path, i, Bad))
    case OtherError => exists i :: FirstSays(endpoints, path, i, Throws)
  }

  lemma EndsExactly(endpoints: seq<Endpoint>, path: string, e: Failure)
    ensures EndsIn(endpoints, path, e) <==>
      !FindMatch(endpoints, path, 0).Hit? && FailureOf(FindMatch(endpoints, path, 0)) == e
  {
    FoundExactly(endpoints, path, 0);
    if i :| FirstSays(endpoints, path, i, Bad) {
      FirstMatch(endpoints, path, 0, i);
    }
    if i :| FirstSays(endpoints, path, i, Throws) {
      FirstMatch(endpoints, path, 0, i);
    }
  }

  /** Up to ten entries lead to a path that fails in this way, or eleven lead to any path at all. */
  ghost predicate FailsAfter(endpoints: seq<Endpoint>, entries: seq<Entry>, path: string, rest: string, e: Failure) {
    && Leads(endpoints, entries, Some(path), rest)
    && if |entries| <= 10 then EndsIn(endpoints, rest, e) else |entries| == 11 && e == Status(400)
  }

  lemma {:induction false} LeftOver(endpoints: seq<Endpoint>, entries: seq<Entry>, path: Option<string>, rest: string)
    requires Leads(endpoints, entries, path, rest)
    ensures rest != ""
  {
    if entries != [] {
      var e := entries[0];
      LeftOver(endpoints, entries[1..], Remaining(endpoints[e.endpoint], e.path), rest);
    }
  }

  lemma FailingChain(endpoints: seq<Endpoint>, path: string, e: Failure) returns (entries: seq<Entry>, rest: string)
    requires Bounded(FullChain(endpoints, Some(path))) == Err(e)
    ensures FailsAfter(endpoints, entries, path, rest, e)
  {
    var chain := FullChain(endpoints, Some(path));
    var n := if |chain.entries| > 10 then 11 else |chain.entries|;
    rest := ChainLeads(endpoints, Some(path), n);
    entries := chain.entries[..n];
    if n <= 10 {
      assert entries == chain.entries;
      LeadsOn(endpoints, entries, Some(path), rest);
      var onward := FullChain(endpoints, Some(rest));
      assert |onward.entries| == 0;
      EndsExactly(endpoints, rest, e);
    }
  }

  lemma LongChain(entries: seq<Entry>, onward: Chain)
    requires |entries| == 11 && (onward.entries != [] || onward.failure.Some?)
    ensures Bounded(After(entries, onward)) == Err(Status(400))
  {
  }

  lemma ShortChain(entries: seq<Entry>, e: Failure)
    requires |entries| <= 10
    ensures Bounded(After(entries, Chain([], Some(e)))) == Err(e)
  {
    assert entries + [] == entries;
  }

  lemma ChainFails(endpoints: seq<Endpoint>, entries: seq<Entry>, path: string, rest: string, e: Failure)
    requires FailsAfter(endpoints, entries, path, rest, e)
    ensures Bounded(FullChain(endpoints, Some(path))) == Err(e)
  {
    LeadsOn(endpoints, entries, Some(path), rest);
    LeftOver(endpoints, entries, Some(path), rest);
    var onward := FullChain(endpoints, Some(rest));
    if |entries| <= 10 {
      EndsExactly(endpoints, rest, e);
      assert onward == Chain([], Some(e));
      ShortChain(entries, e);
    } else {
      NotEmpty(endpoints, rest);
      LongChain(entries, onward);
    }
  }

  /** For every table and path: resolution fails in some way exactly if the entries before lead to that failure. */
  lemma FailsExactly(endpoints: seq<Endpoint>, path: string, e: Failure)
    ensures Bounded(FullChain(endpoints, Some(path))) == Err(e) <==>
      exists entries, rest :: FailsAfter(endpoints, entries, path, rest, e)
  {
    if Bounded(FullChain(endpoints, Some(path))) == Err(e) {
      var entries, rest := FailingChain(endpoints, path, e);
    }
    if entries, rest :| FailsAfter(endpoints, entries, path, rest, e) {
      ChainFails(endpoints, entries, path, rest, e);
    }
  }

  /** An endpoint decides if no earlier one has anything to say about the path. */
  lemma {:induction false} FirstMatch(endpoints: seq<Endpoint>, path: string, from: nat, i: nat)
    requires from <= i < |endpoints| && !Matches(endpoints[i], path).No?
    requires forall j :: from <= j < i ==> Matches(endpoints[j], path).No?
    ensures FindMatch(endpoints, path, from) ==
      match Matches(endpoints[i], path) case Yes => Hit(i) case Throws => Thrown case _ => Refused
    decreases i - from
  {
    if from < i {
      FirstMatch(endpoints, path, from + 1, i);
    }
  }
}
