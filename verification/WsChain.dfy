/** WebSocket paths: printing a list of segments and resolving the path are inverse to each other. */
module WsChain {
  import opened Common
  import opened JsStrings
  import opened Numerals
  import opened UriDecoding
  import opened ChainableEndpoints
  import opened EndpointChain

  datatype Segment =
    | Delay(seconds: string)
    | Message(text: string)
    | Repeat(text: string, interval: string)
    | Subprotocol(name: string)
    | NoSubprotocol
    | Echo
    | Close
    | CloseWith(code: string)
    | Reset

  /** The WebSocket endpoints in the order of their export names. */
  const WS_ENDPOINTS := [WsClose, WsDelay, WsEcho, WsMessage, WsNoSubprotocol, WsRepeat, WsReset, WsSubprotocol]

  function Index(seg: Segment): (i: nat)
    ensures i < |WS_ENDPOINTS|
  {
    match seg
    case Close => 0
    case CloseWith(_) => 0
    case Delay(_) => 1
    case Echo => 2
    case Message(_) => 3
    case NoSubprotocol => 4
    case Repeat(_, _) => 5
    case Reset => 6
    case Subprotocol(_) => 7
  }

  function EndpointOf(seg: Segment): Endpoint {
    match seg
    case Close => WsClose
    case CloseWith(_) => WsClose
    case Delay(_) => WsDelay
    case Echo => WsEcho
    case Message(_) => WsMessage
    case NoSubprotocol => WsNoSubprotocol
    case Repeat(_, _) => WsRepeat
    case Reset => WsReset
    case Subprotocol(_) => WsSubprotocol
  }

  /** What a segment's path starts with, before its parameters. */
  function Head(seg: Segment): string {
    match seg
    case Close => Exact(WsClose)
    case Echo => Exact(WsEcho)
    case Reset => Exact(WsReset)
    case NoSubprotocol => Exact(WsNoSubprotocol)
    case _ => Prefix(EndpointOf(seg))
  }

  function Body(seg: Segment): string {
    match seg
    case Delay(seconds) => seconds
    case Message(text) => text
    case Repeat(text, interval) => text + ("/" + interval)
    case Subprotocol(name) => name
    case CloseWith(code) => code
    case _ => ""
  }

  predicate ValidSegment(seg: Segment, last: bool) {
    match seg
    case Delay(seconds) => '/' !in seconds && ParsesAsFloat(seconds)
    case Message(text) => '/' !in text
    case Repeat(text, interval) =>
      '/' !in text && '/' !in interval && Decodes(text) && ParseInt(interval).GetOr(0) > 0
    case Subprotocol(name) => '/' !in name && (name != "" || !last)
    case NoSubprotocol => true
    case CloseWith(code) => last && CloseMatch(ParseInt(code)).Yes?
    case _ => last
  }

  predicate Valid(segs: seq<Segment>) {
    segs == [] || (ValidSegment(segs[0], |segs| == 1) && Valid(segs[1..]))
  }

  /** The path of a list of segments, without its /ws. */
  function Rest(segs: seq<Segment>): string {
    if segs == [] then "" else Head(segs[0])[|WS|..] + (Body(segs[0]) + Rest(segs[1..]))
  }

  function PathOf(segs: seq<Segment>): string {
    WS + Rest(segs)
  }

  function EntriesOf(segs: seq<Segment>): seq<Entry> {
    if segs == [] then [] else [Entry(Index(segs[0]), PathOf(segs))] + EntriesOf(segs[1..])
  }

  // --- The endpoints exclude each other ---

  predicate WsEndpoint(e: Endpoint) {
    !e.HttpDelay? && !e.Informational? && !e.Other?
  }

  /** The two letters after /ws/ tell the endpoints apart. */
  function Initials(e: Endpoint): string {
    match e
    case WsClose => "cl"
    case WsDelay => "de"
    case WsEcho => "ec"
    case WsMessage => "me"
    case WsNoSubprotocol => "no"
    case WsRepeat => "re"
    case WsReset => "er"
    case WsSubprotocol => "su"
    case _ => ""
  }

  predicate Starts(path: string, initials: string) {
    |path| >= 6 && path[4..6] == initials
  }

  lemma PrefixInitials(e: Endpoint)
    requires WsEndpoint(e)
    ensures Prefix(e) != "" ==> Starts(Prefix(e), Initials(e))
    ensures Exact(e) != "" ==> Starts(Exact(e), Initials(e))
  {
  }

  lemma StartsOn(path: string, head: string, initials: string)
    requires StartsWith(path, head) && Starts(head, initials)
    ensures Starts(path, initials)
  {
    SliceOfTake(path, |head|, 4, 6);
  }

  lemma HasPrefix(e: Endpoint)
    requires WsEndpoint(e)
    ensures Prefix(e) == "" <==> e.WsEcho? || e.WsNoSubprotocol? || e.WsReset?
    ensures e.WsEcho? || e.WsNoSubprotocol? || e.WsReset? || e.WsClose? ==> Exact(e) != ""
  {
  }

  /** An endpoint only has something to say about paths with its own initials. */
  lemma MatchInitials(e: Endpoint, path: string)
    requires WsEndpoint(e) && !Matches(e, path).No?
    ensures Starts(path, Initials(e))
  {
    HasPrefix(e);
    PrefixInitials(e);
    if path != Exact(e) {
      if e.WsNoSubprotocol? {
        assert path[..|Exact(e)|] == path[..|Exact(e) + "/"|][..|Exact(e)|] == Exact(e);
        StartsOn(path, Exact(e), Initials(e));
      } else {
        StartsOn(path, Prefix(e), Initials(e));
      }
    }
  }

  /** So an endpoint that has something to say is the only one, and decides. */
  lemma OnlyMatch(i: nat, path: string)
    requires i < |WS_ENDPOINTS| && !Matches(WS_ENDPOINTS[i], path).No?
    ensures FindMatch(WS_ENDPOINTS, path, 0) ==
      match Matches(WS_ENDPOINTS[i], path) case Yes => Hit(i) case Throws => Thrown case _ => Refused
  {
    MatchInitials(WS_ENDPOINTS[i], path);
    forall j | 0 <= j < i
      ensures Matches(WS_ENDPOINTS[j], path).No?
    {
      if !Matches(WS_ENDPOINTS[j], path).No? {
        MatchInitials(WS_ENDPOINTS[j], path);
        DifferentInitials(i, j);
      }
    }
    FirstMatch(WS_ENDPOINTS, path, 0, i);
  }

  lemma DifferentInitials(i: nat, j: nat)
    requires j < i < |WS_ENDPOINTS|
    ensures Initials(WS_ENDPOINTS[i]) != Initials(WS_ENDPOINTS[j])
  {
    var a, b := Initials(WS_ENDPOINTS[i]), Initials(WS_ENDPOINTS[j]);
    assert a[0] != b[0] || a[1] != b[1];
  }

  // --- Resolving what was printed ---

  lemma HeadSplits(seg: Segment)
    ensures |Head(seg)| > |WS| && Head(seg) == WS + Head(seg)[|WS|..] && Head(seg)[|WS|] == '/'
  {
    assert WsEndpoint(EndpointOf(seg));
    HeadStart(seg);
    SplitAt(Head(seg), |WS|);
  }

  lemma HeadStart(seg: Segment)
    ensures |Head(seg)| > 3 && Head(seg)[..3] == "/ws" && Head(seg)[3] == '/'
  {
  }

  /** A path is the head of its first segment, that segment's parameters, and the rest. */
  lemma PathSplits(segs: seq<Segment>)
    requires segs != []
    ensures PathOf(segs) == Head(segs[0]) + (Body(segs[0]) + Rest(segs[1..]))
    ensures Continues(Rest(segs[1..]))
  {
    HeadSplits(segs[0]);
    Assoc(WS, Head(segs[0])[|WS|..], Body(segs[0]) + Rest(segs[1..]));
    if segs[1..] != [] {
      HeadSplits(segs[1..][0]);
    }
  }

  lemma HeadIs(seg: Segment, tail: string, path: string)
    requires path == Head(seg) + tail
    ensures StartsWith(path, Head(seg)) && path[|Head(seg)|..] == tail
  {
  }

  /** A segment with one token, and whatever follows. */
  lemma MatchToken(seg: Segment, rest: string, path: string)
    requires seg.Delay? || seg.Message? || seg.Subprotocol?
    requires ValidSegment(seg, rest == "") && Continues(rest) && path == Head(seg) + (Body(seg) + rest)
    ensures Matches(EndpointOf(seg), path).Yes?
    ensures Remaining(EndpointOf(seg), path) == if rest == "" then None else Some(WS + rest)
  {
    HeadIs(seg, Body(seg) + rest, path);
    Tokenise(Head(seg), Body(seg), rest);
    TokenAt(path, |Head(seg)|, Body(seg), rest, WS);
  }

  /** From n on the path is one token, a slash, another token, and the rest. */
  predicate TwoTokens(path: string, n: nat, text: string, interval: string, rest: string) {
    && n + |text| < |path|
    && Tokenised(path, n, text, path[n + |text|..])
    && Tokenised(path, n + |text| + 1, interval, rest)
  }

  function RepeatOutcome(text: string, interval: string): Match {
    if !Decodes(text) then Throws else if ParseInt(interval).GetOr(0) > 0 then Yes else Bad
  }

  lemma RepeatMatchIs(path: string, n: nat)
    requires n <= |path| && Find(path, "/", n).Some?
    ensures RepeatMatch(path, n) == RepeatOutcome(Token(path, n), Token(path, Find(path, "/", n).value + 1))
  {
  }

  lemma RepeatAt(path: string, n: nat, text: string, interval: string, rest: string)
    requires TwoTokens(path, n, text, interval, rest)
    ensures Find(path, "/", n) == Some(n + |text|) && RepeatMatch(path, n) == RepeatOutcome(text, interval)
    ensures RestAfter(path, n + |text| + 1, WS) == if rest == "" then None else Some(WS + rest)
  {
    var slash := n + |text|;
    TokenAt(path, n, text, path[slash..], WS);
    TokenAt(path, slash + 1, interval, rest, WS);
    RepeatMatchIs(path, n);
  }

  lemma Regroup(text: string, interval: string, rest: string)
    ensures text + ("/" + interval) + rest == text + ("/" + (interval + rest))
  {
    Assoc(text, "/" + interval, rest);
    Assoc("/", interval, rest);
  }

  lemma FirstToken(head: string, text: string, more: string, path: string)
    requires path == head + (text + more) && '/' !in text && more != "" && more[0] == '/'
    ensures |head| + |text| < |path| && Tokenised(path, |head|, text, path[|head| + |text|..])
  {
    Tokenise(head, text, more);
  }

  lemma SecondToken(prefix: string, text: string, interval: string, rest: string, path: string)
    requires path == prefix + (text + ("/" + (interval + rest))) && '/' !in interval && Continues(rest)
    ensures Tokenised(path, |prefix| + |text| + 1, interval, rest)
  {
    Assoc(prefix, text, "/" + (interval + rest));
    Assoc(prefix + text, "/", interval + rest);
    Tokenise(prefix + text + "/", interval, rest);
  }

  lemma TokensAt(head: string, text: string, interval: string, rest: string, path: string)
    requires path == head + (text + ("/" + (interval + rest)))
    requires '/' !in text && '/' !in interval && Continues(rest)
    ensures TwoTokens(path, |head|, text, interval, rest)
  {
    FirstToken(head, text, "/" + (interval + rest), path);
    SecondToken(head, text, interval, rest, path);
  }

  lemma RepeatTokens(seg: Segment, rest: string, path: string)
    requires seg.Repeat? && '/' !in seg.text && '/' !in seg.interval && Continues(rest)
    requires path == Head(seg) + (Body(seg) + rest)
    ensures StartsWith(path, Head(seg)) && TwoTokens(path, |Head(seg)|, seg.text, seg.interval, rest)
  {
    HeadIs(seg, Body(seg) + rest, path);
    Regroup(seg.text, seg.interval, rest);
    TokensAt(Head(seg), seg.text, seg.interval, rest, path);
  }

  lemma RepeatSays(path: string)
    requires StartsWith(path, Prefix(WsRepeat))
    ensures Matches(WsRepeat, path) == RepeatMatch(path, |Prefix(WsRepeat)|)
  {
  }

  /** What the endpoint says about a path with two tokens, and what it leaves. */
  lemma MatchTwoTokens(path: string, text: string, interval: string, rest: string)
    requires StartsWith(path, Prefix(WsRepeat)) && TwoTokens(path, |Prefix(WsRepeat)|, text, interval, rest)
    ensures Matches(WsRepeat, path) == RepeatOutcome(text, interval)
    ensures Matches(WsRepeat, path).Yes? ==> Remaining(WsRepeat, path) == if rest == "" then None else Some(WS + rest)
  {
    RepeatSays(path);
    RepeatAt(path, |Prefix(WsRepeat)|, text, interval, rest);
  }

  lemma MatchRepeat(seg: Segment, rest: string, path: string)
    requires seg.Repeat? && ValidSegment(seg, rest == "") && Continues(rest) && path == Head(seg) + (Body(seg) + rest)
    ensures Matches(EndpointOf(seg), path).Yes?
    ensures Remaining(EndpointOf(seg), path) == if rest == "" then None else Some(WS + rest)
  {
    RepeatTokens(seg, rest, path);
    MatchTwoTokens(path, seg.text, seg.interval, rest);
  }

  lemma MatchPlain(seg: Segment, rest: string, path: string)
    requires seg.NoSubprotocol? || seg.Close? || seg.CloseWith? || seg.Echo? || seg.Reset?
    requires ValidSegment(seg, rest == "") && Continues(rest) && path == Head(seg) + (Body(seg) + rest)
    ensures Matches(EndpointOf(seg), path).Yes?
    ensures Remaining(EndpointOf(seg), path) == if rest == "" then None else Some(WS + rest)
  {
    HeadIs(seg, Body(seg) + rest, path);
    if seg.NoSubprotocol? {
      assert path == Head(seg) + rest;
      if rest != "" {
        assert rest == "/" + rest[1..];
        Assoc(Head(seg), "/", rest[1..]);
        assert path[..|Head(seg) + "/"|] == Head(seg) + "/";
      }
    } else {
      assert Body(seg) + rest == Body(seg);
    }
  }

  /** The first segment of a path matches, and leaves the rest. */
  lemma MatchSegment(seg: Segment, rest: string, path: string)
    requires ValidSegment(seg, rest == "") && Continues(rest) && path == Head(seg) + (Body(seg) + rest)
    ensures Matches(EndpointOf(seg), path).Yes?
    ensures Remaining(EndpointOf(seg), path) == if rest == "" then None else Some(WS + rest)
  {
    if seg.Delay? || seg.Message? || seg.Subprotocol? {
      MatchToken(seg, rest, path);
    } else if seg.Repeat? {
      MatchRepeat(seg, rest, path);
    } else {
      MatchPlain(seg, rest, path);
    }
  }

  lemma EndpointAt(seg: Segment)
    ensures WS_ENDPOINTS[Index(seg)] == EndpointOf(seg)
  {
  }

  lemma FirstSegment(segs: seq<Segment>)
    requires segs != [] && Valid(segs)
    ensures FindMatch(WS_ENDPOINTS, PathOf(segs), 0) == Hit(Index(segs[0]))
    ensures Remaining(WS_ENDPOINTS[Index(segs[0])], PathOf(segs)) ==
      if segs[1..] == [] then None else Some(PathOf(segs[1..]))
  {
    var seg, rest, path := segs[0], Rest(segs[1..]), PathOf(segs);
    PathSplits(segs);
    if segs[1..] != [] {
      HeadSplits(segs[1..][0]);
    }
    assert rest == "" <==> |segs| == 1;
    MatchSegment(seg, rest, path);
    EndpointAt(seg);
    OnlyMatch(Index(seg), path);
  }

  /** The full chain of a printed path is the list it was printed from. */
  lemma {:induction false} ResolvesPrinted(segs: seq<Segment>)
    requires segs != [] && Valid(segs)
    ensures FullChain(WS_ENDPOINTS, Some(PathOf(segs))) == Chain(EntriesOf(segs), None)
  {
    FirstSegment(segs);
    var rest := FullChain(WS_ENDPOINTS, Remaining(WS_ENDPOINTS[Index(segs[0])], PathOf(segs)));
    if segs[1..] != [] {
      ResolvesPrinted(segs[1..]);
    }
    assert rest == Chain(EntriesOf(segs[1..]), None);
  }

  lemma {:induction false} EntryCount(segs: seq<Segment>)
    ensures |EntriesOf(segs)| == |segs|
  {
    if segs != [] {
      EntryCount(segs[1..]);
    }
  }

  /** Up to eleven valid segments resolve to their endpoints and remainders; more are refused. */
  lemma WsRoundTrip(segs: seq<Segment>)
    requires segs != [] && Valid(segs)
    ensures Bounded(FullChain(WS_ENDPOINTS, Some(PathOf(segs)))) ==
      if |segs| <= 11 then Ok(EntriesOf(segs)) else Err(Status(400))
  {
    ResolvesPrinted(segs);
    EntryCount(segs);
  }

  // --- Every path that resolves was printed ---

  /** The path reads as one segment and a rest, and the rest is what its endpoint leaves. */
  ghost predicate Reads(e: Endpoint, path: string, seg: Segment, rest: string)
    requires Matches(e, path).Yes?
  {
    && EndpointOf(seg) == e && ValidSegment(seg, rest == "")
    && path == Head(seg) + (Body(seg) + rest) && Continues(rest)
    && Remaining(e, path) == if rest == "" then None else Some(WS + rest)
  }

  lemma Headed(path: string, head: string, tail: string)
    requires StartsWith(path, head) && path[|head|..] == tail
    ensures path == head + tail
  {
    SplitAt(path, |head|);
  }

  lemma SplitPrefix(path: string, head: string)
    requires StartsWith(path, head)
    ensures path == head + path[|head|..]
  {
  }

  lemma ReadToken(e: Endpoint, path: string) returns (seg: Segment, rest: string)
    requires (e.WsDelay? || e.WsMessage? || e.WsSubprotocol?) && Matches(e, path).Yes?
    ensures Reads(e, path, seg, rest)
  {
    var n := |Prefix(e)|;
    var token := Token(path, n);
    rest := path[TokenEnd(path, n)..];
    seg := if e.WsDelay? then Delay(token) else if e.WsMessage? then Message(token) else Subprotocol(token);
    SplitPrefix(path, Prefix(e));
    SplitToken(path, n);
  }

  lemma Rejoin(text: string, interval: string, rest: string, a: string, b: string, c: string)
    requires a == text + b && b == "/" + c && c == interval + rest
    ensures a == text + ("/" + interval) + rest
  {
    Assoc("/", interval, rest);
    Assoc(text, "/" + interval, rest);
  }

  lemma AfterSlash(path: string, slash: nat)
    requires slash < |path| && path[slash] == '/'
    ensures path[slash..] == "/" + path[slash + 1..]
  {
  }

  /** A path with a slash from n on is a token, the slash, and what stands behind it. */
  lemma FirstSlash(path: string, n: nat, slash: nat)
    requires n <= |path| && Find(path, "/", n) == Some(slash)
    ensures n <= slash < |path| && '/' !in Token(path, n)
    ensures path[n..] == Token(path, n) + path[slash..] && path[slash..] == "/" + path[slash + 1..]
  {
    SplitToken(path, n);
    AfterSlash(path, slash);
  }

  lemma SplitTwo(path: string, n: nat) returns (text: string, interval: string, rest: string)
    requires n <= |path| && Find(path, "/", n).Some?
    ensures path[n..] == text + ("/" + interval) + rest
    ensures '/' !in text && '/' !in interval && Continues(rest)
    ensures RepeatMatch(path, n) == RepeatOutcome(text, interval)
    ensures RestAfter(path, Find(path, "/", n).value + 1, WS) == if rest == "" then None else Some(WS + rest)
  {
    var slash := Find(path, "/", n).value;
    FirstSlash(path, n, slash);
    text := Token(path, n);
    interval, rest := SplitOne(path, slash + 1);
    RepeatMatchIs(path, n);
    Rejoin(text, interval, rest, path[n..], path[slash..], path[slash + 1..]);
  }

  lemma SplitOne(path: string, n: nat) returns (token: string, rest: string)
    requires n <= |path|
    ensures path[n..] == token + rest && '/' !in token && Continues(rest)
    ensures Token(path, n) == token
    ensures RestAfter(path, n, WS) == if rest == "" then None else Some(WS + rest)
  {
    token, rest := Token(path, n), path[TokenEnd(path, n)..];
    SplitToken(path, n);
  }

  lemma ReadRepeat(path: string) returns (seg: Segment, rest: string)
    requires Matches(WsRepeat, path).Yes?
    ensures Reads(WsRepeat, path, seg, rest)
  {
    var n := |Prefix(WsRepeat)|;
    var text, interval;
    text, interval, rest := SplitTwo(path, n);
    seg := Repeat(text, interval);
    var tail := text + ("/" + interval) + rest;
    assert Body(seg) + rest == tail;
    Headed(path, Prefix(WsRepeat), tail);
    assert ValidSegment(seg, rest == "");
    assert Remaining(WsRepeat, path) == if rest == "" then None else Some(WS + rest);
  }

  lemma ReadPlain(e: Endpoint, path: string) returns (seg: Segment, rest: string)
    requires (e.WsClose? || e.WsEcho? || e.WsReset? || e.WsNoSubprotocol?) && Matches(e, path).Yes?
    ensures Reads(e, path, seg, rest)
  {
    HasPrefix(e);
    rest := "";
    if e.WsNoSubprotocol? {
      seg := NoSubprotocol;
      rest := path[|Exact(e)|..];
      if path != Exact(e) {
        assert path[..|Exact(e) + "/"|][..|Exact(e)|] == Exact(e);
        assert path[..|Exact(e) + "/"|][|Exact(e)|] == '/';
      }
      assert path == Head(seg) + rest;
    } else if path == Exact(e) {
      seg := if e.WsClose? then Close else if e.WsEcho? then Echo else Reset;
    } else {
      seg := CloseWith(path[|Prefix(e)|..]);
      SplitPrefix(path, Prefix(e));
    }
    assert Body(seg) + "" == Body(seg);
  }

  lemma ReadSegment(e: Endpoint, path: string) returns (seg: Segment, rest: string)
    requires WsEndpoint(e) && Matches(e, path).Yes?
    ensures Reads(e, path, seg, rest)
  {
    if e.WsDelay? || e.WsMessage? || e.WsSubprotocol? {
      seg, rest := ReadToken(e, path);
    } else if e.WsRepeat? {
      seg, rest := ReadRepeat(path);
    } else {
      seg, rest := ReadPlain(e, path);
    }
  }

  lemma SameRest(a: string, b: string)
    requires WS + a == WS + b
    ensures a == b
  {
    assert (WS + a)[|WS|..] == a && (WS + b)[|WS|..] == b;
  }

  lemma Prepended(seg: Segment, rest: string, more: seq<Segment>, path: string)
    requires path == Head(seg) + (Body(seg) + rest) && Rest(more) == rest
    requires ValidSegment(seg, more == []) && Valid(more)
    ensures Valid([seg] + more) && PathOf([seg] + more) == path
  {
    assert ([seg] + more)[1..] == more;
    PathSplits([seg] + more);
  }

  /** A path whose full chain does not fail is the path of some valid list of segments. */
  lemma {:induction false} WasPrinted(path: string) returns (segs: seq<Segment>)
    requires path != "" && FullChain(WS_ENDPOINTS, Some(path)).failure.None?
    ensures segs != [] && Valid(segs) && PathOf(segs) == path
    decreases |path|
  {
    var i := FindMatch(WS_ENDPOINTS, path, 0).index;
    var e := WS_ENDPOINTS[i];
    var seg, rest := ReadSegment(e, path);
    var more := [];
    if rest != "" {
      RemainingIsShorter(e, path);
      more := WasPrinted(WS + rest);
      SameRest(Rest(more), rest);
    }
    Prepended(seg, rest, more, path);
    segs := [seg] + more;
  }

  /** A path resolves exactly when it is the path of at most eleven valid segments. */
  lemma WsResolvesExactly(path: string)
    requires path != ""
    ensures Bounded(FullChain(WS_ENDPOINTS, Some(path))).Ok? <==>
      exists segs :: segs != [] && Valid(segs) && |segs| <= 11 && PathOf(segs) == path
  {
    var chain := FullChain(WS_ENDPOINTS, Some(path));
    if Bounded(chain).Ok? {
      var segs := WasPrinted(path);
      WsRoundTrip(segs);
    }
    if segs :| segs != [] && Valid(segs) && |segs| <= 11 && PathOf(segs) == path {
      WsRoundTrip(segs);
    }
  }

  // --- A text that does not decode ---

  /** A repeat whose text does not decode ends in an error that is no HTTP status, whatever follows the text. */
  lemma MalformedRepeatThrows(text: string, interval: string, rest: string)
    requires '/' !in text && '/' !in interval && Continues(rest) && !Decodes(text)
    ensures var path := Prefix(WsRepeat) + (text + ("/" + interval) + rest);
      Bounded(FullChain(WS_ENDPOINTS, Some(path))) == Err(OtherError)
  {
    var seg := Repeat(text, interval);
    var path := Head(seg) + (Body(seg) + rest);
    RepeatTokens(seg, rest, path);
    MatchTwoTokens(path, text, interval, rest);
    OnlyMatch(5, path);
    assert FullChain(WS_ENDPOINTS, Some(path)) == Chain([], Some(OtherError));
  }

  /** As at /ws/repeat/% and any interval. */
  lemma LonePercentThrows(interval: string)
    requires '/' !in interval
    ensures var path := Prefix(WsRepeat) + ("%" + ("/" + interval) + "");
      Bounded(FullChain(WS_ENDPOINTS, Some(path))) == Err(OtherError)
  {
    LonePercent("");
    assert "%" + "" == "%";
    MalformedRepeatThrows("%", interval, "");
  }
}
