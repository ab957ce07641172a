/** HTTP paths: delays and informational responses in front of one final endpoint, printed and resolved. */
module HttpChain {
  import opened Common
  import opened JsStrings
  import opened Numerals
  import opened ChainableEndpoints
  import opened EndpointChain

  datatype Segment = Delay(seconds: string) | Info(code: string)

  /**
   * The HTTP endpoints in the order of their export names, among them the two that continue a chain; no other
   * endpoint has anything to say about a path under /delay/ or /info/.
   */
  ghost predicate HttpTable(table: seq<Endpoint>, delay: nat, info: nat) {
    && delay < |table| && info < |table| && delay != info
    && table[delay].HttpDelay? && table[info].Informational?
    && (forall j :: 0 <= j < |table| && j != delay && j != info ==> table[j].Other? && Leaves(table[j]))
  }

  ghost predicate Leaves(e: Endpoint)
    requires e.Other?
  {
    forall path: string ::
      StartsWith(path, Prefix(HttpDelay)) || StartsWith(path, Prefix(Informational)) ==> e.matches(path).No?
  }

  function EndpointOf(seg: Segment): Endpoint {
    if seg.Delay? then HttpDelay else Informational
  }

  function Index(seg: Segment, delay: nat, info: nat): nat {
    if seg.Delay? then delay else info
  }

  function TokenOf(seg: Segment): string {
    match seg
    case Delay(seconds) => seconds
    case Info(code) => code
  }

  predicate ValidSegment(seg: Segment) {
    && '/' !in TokenOf(seg)
    && if seg.Delay? then ParsesAsFloat(seg.seconds) else InformationalMatch(ParseInt(seg.code)).Yes?
  }

  predicate Valid(segs: seq<Segment>) {
    segs == [] || (ValidSegment(segs[0]) && Valid(segs[1..]))
  }

  /** The segments, then the path of the final endpoint, which may be missing. */
  function PathOf(segs: seq<Segment>, final: string): string {
    if segs == [] then final else Prefix(EndpointOf(segs[0])) + (TokenOf(segs[0]) + PathOf(segs[1..], final))
  }

  /** Nothing, or a path whose first match is an endpoint that ends the chain. */
  ghost predicate Final(table: seq<Endpoint>, final: string) {
    final != "" ==>
      && final[0] == '/'
      && FindMatch(table, final, 0).Hit? && table[FindMatch(table, final, 0).index].Other?
  }

  function EntriesOf(table: seq<Endpoint>, segs: seq<Segment>, final: string, delay: nat, info: nat): seq<Entry> {
    if segs != [] then
      [Entry(Index(segs[0], delay, info), PathOf(segs, final))] + EntriesOf(table, segs[1..], final, delay, info)
    else if final == "" || !FindMatch(table, final, 0).Hit? then []
    else [Entry(FindMatch(table, final, 0).index, final)]
  }

  lemma PathStart(segs: seq<Segment>, final: string)
    requires final != "" ==> final[0] == '/'
    ensures Continues(PathOf(segs, final))
    ensures segs != [] ==> PathOf(segs, final) != ""
  {
    if segs != [] {
      assert Prefix(EndpointOf(segs[0]))[0] == '/';
    }
  }

  lemma SecondLetter(path: string, prefix: string)
    requires |prefix| > 1 && StartsWith(path, prefix)
    ensures path[1] == prefix[1]
  {
    assert path[..|prefix|][1] == path[1];
  }

  lemma PrefixesApart(path: string)
    requires |path| > 1
    ensures StartsWith(path, Prefix(HttpDelay)) ==> path[1] == 'd'
    ensures StartsWith(path, Prefix(Informational)) ==> path[1] == 'i'
  {
    if StartsWith(path, Prefix(HttpDelay)) {
      SecondLetter(path, Prefix(HttpDelay));
    }
    if StartsWith(path, Prefix(Informational)) {
      SecondLetter(path, Prefix(Informational));
    }
  }

  lemma MatchSegment(seg: Segment, rest: string, path: string)
    requires ValidSegment(seg) && Continues(rest) && path == Prefix(EndpointOf(seg)) + (TokenOf(seg) + rest)
    ensures StartsWith(path, Prefix(EndpointOf(seg))) && Matches(EndpointOf(seg), path).Yes?
    ensures Remaining(EndpointOf(seg), path) == if rest == "" then None else Some(rest)
  {
    var head := Prefix(EndpointOf(seg));
    HeadIs(head, TokenOf(seg) + rest, path);
    Tokenise(head, TokenOf(seg), rest);
    TokenAt(path, |head|, TokenOf(seg), rest, "");
    assert "" + rest == rest;
  }

  lemma HeadIs(head: string, tail: string, path: string)
    requires path == head + tail
    ensures StartsWith(path, head)
  {
  }

  lemma FirstSegment(table: seq<Endpoint>, delay: nat, info: nat, seg: Segment, path: string)
    requires HttpTable(table, delay, info)
    requires StartsWith(path, Prefix(EndpointOf(seg))) && Matches(EndpointOf(seg), path).Yes?
    ensures FindMatch(table, path, 0) == Hit(Index(seg, delay, info))
  {
    PrefixesApart(path);
    forall j | 0 <= j < Index(seg, delay, info)
      ensures Matches(table[j], path).No?
    {
      assert j != delay && j != info ==> Leaves(table[j]);
    }
    FirstMatch(table, path, 0, Index(seg, delay, info));
  }

  /** The full chain of a printed path is what it was printed from. */
  lemma {:induction false} ResolvesPrinted(table: seq<Endpoint>, delay: nat, info: nat,
                                           segs: seq<Segment>, final: string)
    requires HttpTable(table, delay, info) && Valid(segs) && Final(table, final)
    ensures FullChain(table, Some(PathOf(segs, final))) == Chain(EntriesOf(table, segs, final, delay, info), None)
    decreases |segs|
  {
    if segs == [] {
      if final != "" {
        var i := FindMatch(table, final, 0).index;
        assert Remaining(table[i], final) == None;
        assert FullChain(table, None) == Chain([], None);
      }
    } else {
      var seg, rest, path := segs[0], PathOf(segs[1..], final), PathOf(segs, final);
      PathStart(segs[1..], final);
      PathStart(segs, final);
      MatchSegment(seg, rest, path);
      FirstSegment(table, delay, info, seg, path);
      ResolvesPrinted(table, delay, info, segs[1..], final);
    }
  }

  function Length(segs: seq<Segment>, final: string): nat {
    |segs| + if final == "" then 0 else 1
  }

  lemma {:induction false} EntryCount(table: seq<Endpoint>, delay: nat, info: nat, segs: seq<Segment>, final: string)
    requires Final(table, final)
    ensures |EntriesOf(table, segs, final, delay, info)| == Length(segs, final)
  {
    if segs != [] {
      EntryCount(table, delay, info, segs[1..], final);
    }
  }

  /** Up to eleven endpoints resolve to their places in the table and their remainders; more are refused. */
  lemma HttpRoundTrip(table: seq<Endpoint>, delay: nat, info: nat, segs: seq<Segment>, final: string)
    requires HttpTable(table, delay, info) && Valid(segs) && Final(table, final)
    ensures Bounded(FullChain(table, Some(PathOf(segs, final)))) ==
      if Length(segs, final) <= 11 then Ok(EntriesOf(table, segs, final, delay, info))
      else Err(Status(400))
  {
    ResolvesPrinted(table, delay, info, segs, final);
    EntryCount(table, delay, info, segs, final);
  }

  // --- Every path that resolves was printed ---

  lemma ReadSegment(e: Endpoint, path: string) returns (seg: Segment, rest: string)
    requires (e.HttpDelay? || e.Informational?) && Matches(e, path).Yes?
    ensures EndpointOf(seg) == e && ValidSegment(seg) && Continues(rest)
    ensures path == Prefix(e) + (TokenOf(seg) + rest)
    ensures Remaining(e, path) == if rest == "" then None else Some(rest)
  {
    assert e.HttpDelay? || e.Informational? ==> StartsWith(path, Prefix(e));
    var n := |Prefix(e)|;
    var token := Token(path, n);
    rest := path[TokenEnd(path, n)..];
    seg := if e.HttpDelay? then Delay(token) else Info(token);
    assert path == path[..n] + path[n..];
    SplitToken(path, n);
    assert "" + rest == rest;
  }

  /** An absolute path whose full chain does not fail is a list of valid segments with a final path. */
  lemma {:induction false} WasPrinted(table: seq<Endpoint>, delay: nat, info: nat, path: string)
    returns (segs: seq<Segment>, final: string)
    requires HttpTable(table, delay, info) && Continues(path) && FullChain(table, Some(path)).failure.None?
    ensures Valid(segs) && Final(table, final) && PathOf(segs, final) == path
    decreases |path|
  {
    segs, final := [], path;
    if path != "" {
      var i := FindMatch(table, path, 0).index;
      if !table[i].Other? {
        var seg, rest := ReadSegment(table[i], path);
        if rest != "" {
          RemainingIsShorter(table[i], path);
        }
        var more;
        more, final := WasPrinted(table, delay, info, rest);
        segs := [seg] + more;
        assert segs[1..] == more;
      }
    }
  }

  /** The path prints valid segments and a final path, eleven endpoints at most. */
  ghost predicate Prints(table: seq<Endpoint>, segs: seq<Segment>, final: string, path: string) {
    Valid(segs) && Final(table, final) && Length(segs, final) <= 11 && PathOf(segs, final) == path
  }

  /** An absolute path resolves exactly when it prints at most eleven endpoints, the last of any kind. */
  lemma HttpResolvesExactly(table: seq<Endpoint>, delay: nat, info: nat, path: string)
    requires HttpTable(table, delay, info) && Continues(path)
    ensures Bounded(FullChain(table, Some(path))).Ok? <==>
      exists segs, final :: Prints(table, segs, final, path)
  {
    var chain := FullChain(table, Some(path));
    if Bounded(chain).Ok? {
      var segs, final := WasPrinted(table, delay, info, path);
      HttpRoundTrip(table, delay, info, segs, final);
      assert Prints(table, segs, final, path);
    }
    if segs, final :| Prints(table, segs, final, path) {
      HttpRoundTrip(table, delay, info, segs, final);
    }
  }
}
