/** The endpoints whose paths can be chained: when they match a path, and what they leave of it. */
module ChainableEndpoints {
  import opened Common
  import opened JsStrings
  import opened Numerals
  import opened UriDecoding

  /**
   * No skips to the next endpoint; Bad stands for the 400 that invalid parameters throw, Throws for any other
   * error, such as the URIError of a text that does not decode.
   */
  datatype Match = Yes | No | Bad | Throws

  /** `Other` is any endpoint that does not continue a chain. */
  datatype Endpoint =
    | WsClose | WsDelay | WsEcho | WsMessage | WsNoSubprotocol | WsRepeat | WsReset | WsSubprotocol
    | HttpDelay | Informational
    | Other(matches: string -> Match)

  /** What the path of an endpoint with parameters starts with. */
  function Prefix(e: Endpoint): string {
    match e
    case WsClose => "/ws/close/"
    case WsDelay => "/ws/delay/"
    case WsMessage => "/ws/message/"
    case WsRepeat => "/ws/repeat/"
    case WsSubprotocol => "/ws/subprotocol/"
    case HttpDelay => "/delay/"
    case Informational => "/info/"
    case _ => ""
  }

  /** The whole path of an endpoint that can do without parameters. */
  function Exact(e: Endpoint): string {
    match e
    case WsClose => "/ws/close"
    case WsEcho => "/ws/echo"
    case WsReset => "/ws/error/reset"
    case WsNoSubprotocol => "/ws/no-subprotocol"
    case _ => ""
  }

  const WS := "/ws"

  // --- Tokens between slashes ---

  /** Where the token that starts at `from` ends: the next slash, or the end of the path. */
  function TokenEnd(path: string, from: nat): (end: nat)
    requires from <= |path|
    ensures from <= end <= |path|
  {
    Find(path, "/", from).GetOr(|path|)
  }

  function Token(path: string, from: nat): string
    requires from <= |path|
  {
    path[from..TokenEnd(path, from)]
  }

  /** The rest from the next slash on, behind `lead`. */
  function RestAfter(path: string, from: nat, lead: string): Option<string>
    requires from <= |path|
  {
    var slash := Find(path, "/", from);
    if slash.Some? then Some(lead + path[slash.value..]) else None
  }

  /** parseFloat yields a number, which may be infinite. */
  predicate ParsesAsFloat(s: string) {
    var t := TrimStart(s);
    var u := if t != "" && (t[0] == '-' || t[0] == '+') then t[1..] else t;
    || (u != "" && '0' <= u[0] <= '9')
    || (|u| > 1 && u[0] == '.' && '0' <= u[1] <= '9')
    || StartsWith(u, "Infinity")
  }

  // --- matchPath ---

  function CloseMatch(code: Option<int>): Match {
    if code.None? || code.value < 1000 || code.value > 4999 then Bad else Yes
  }

  function InformationalMatch(code: Option<int>): Match {
    if code.None? || !(100 <= code.value < 200 && code.value != 101) then Bad else Yes
  }

  /**
   * The two tokens of a repeat: without a slash after the first there is no frequency, and otherwise the first
   * is decoded before the second is read.
   */
  function RepeatMatch(path: string, from: nat): Match
    requires from <= |path|
  {
    var slash := Find(path, "/", from);
    if slash.None? then Bad
    else if !Decodes(Token(path, from)) then Throws
    else if ParseInt(Token(path, slash.value + 1)).GetOr(0) > 0 then Yes
    else Bad
  }

  /** The path starts with the endpoint's prefix; do its parameters make sense? */
  function MatchParameters(e: Endpoint, path: string): Match
    requires StartsWith(path, Prefix(e))
  {
    var n := |Prefix(e)|;
    match e
    case WsClose => CloseMatch(ParseInt(path[n..]))
    case WsDelay => if ParsesAsFloat(Token(path, n)) then Yes else Bad
    case WsMessage => Yes
    case WsRepeat => RepeatMatch(path, n)
    case WsSubprotocol => if |path| > n then Yes else No
    case HttpDelay => if ParsesAsFloat(Token(path, n)) then Yes else Bad
    case Informational => InformationalMatch(ParseInt(Token(path, n)))
    case _ => No
  }

  function Matches(e: Endpoint, path: string): Match {
    match e
    case Other(matches) => matches(path)
    case WsNoSubprotocol => if path == Exact(e) || StartsWith(path, Exact(e) + "/") then Yes else No
    case WsEcho => if path == Exact(e) then Yes else No
    case WsReset => if path == Exact(e) then Yes else No
    case _ =>
      if e.WsClose? && path == Exact(e) then Yes
      else if StartsWith(path, Prefix(e)) then MatchParameters(e, path)
      else No
  }

  // --- getRemainingPath ---

  /** What a matched endpoint leaves of its path. */
  function Remaining(e: Endpoint, path: string): Option<string>
    requires Matches(e, path).Yes?
  {
    var n := |Prefix(e)|;
    match e
    case WsDelay => RestAfter(path, n, WS)
    case WsMessage => RestAfter(path, n, WS)
    case WsSubprotocol => RestAfter(path, n, WS)
    case WsRepeat => RestAfter(path, Find(path, "/", n).value + 1, WS)
    case WsNoSubprotocol => if |path| > |Exact(e)| then Some(WS + path[|Exact(e)|..]) else None
    case HttpDelay => RestAfter(path, n, "")
    case Informational => RestAfter(path, n, "")
    case _ => None
  }

  /** Whatever an endpoint leaves is strictly shorter than its path, also behind a new /ws. */
  lemma RemainingIsShorter(e: Endpoint, path: string)
    requires Matches(e, path).Yes? && Remaining(e, path).Some?
    ensures |Remaining(e, path).value| < |path|
  {
  }

  lemma FindSlash(path: string, from: nat, end: nat)
    requires from <= end <= |path| && (forall j :: from <= j < end ==> path[j] != '/')
    requires end == |path| || path[end] == '/'
    ensures Find(path, "/", from) == if end == |path| then None else Some(end)
  {
    forall j: nat | from <= j < end
      ensures !At(path, "/", j)
    {
      assert path[j..j + 1][0] == path[j];
    }
    if end == |path| {
      FindAbsent(path, "/", from);
    } else {
      assert path[end..end + 1] == "/";
      FindIs(path, "/", from, end);
    }
  }

  /** Empty, or on from a slash. */
  predicate Continues(rest: string) {
    rest != "" ==> rest[0] == '/'
  }

  /** From n on the path is the token, without a slash, and then the rest. */
  predicate Tokenised(path: string, n: nat, token: string, rest: string) {
    && n + |token| + |rest| == |path|
    && path[n..n + |token|] == token && path[n + |token|..] == rest
    && '/' !in token && Continues(rest)
  }

  lemma Tokenise(prefix: string, token: string, rest: string)
    requires '/' !in token && Continues(rest)
    ensures Tokenised(prefix + (token + rest), |prefix|, token, rest)
  {
  }

  lemma TokenAt(path: string, n: nat, token: string, rest: string, lead: string)
    requires Tokenised(path, n, token, rest)
    ensures Token(path, n) == token
    ensures Find(path, "/", n) == if rest == "" then None else Some(n + |token|)
    ensures RestAfter(path, n, lead) == if rest == "" then None else Some(lead + rest)
  {
    forall j | n <= j < n + |token|
      ensures path[j] != '/'
    {
      assert path[n..n + |token|][j - n] in token;
    }
    if rest != "" {
      assert path[n + |token|..][0] == '/';
    }
    FindSlash(path, n, n + |token|);
  }

  /** Conversely, a path splits at the slash after its token. */
  lemma SplitToken(path: string, from: nat)
    requires from <= |path|
    ensures '/' !in Token(path, from)
    ensures path[from..] == Token(path, from) + path[TokenEnd(path, from)..]
    ensures TokenEnd(path, from) < |path| ==> path[TokenEnd(path, from)] == '/'
  {
    var slash := Find(path, "/", from);
    var end := TokenEnd(path, from);
    if slash.Some? {
      FindFirst(path, "/", from);
      assert path[end..end + 1][0] == '/';
    } else {
      FindNone(path, "/", from);
    }
    forall j | from <= j < end
      ensures path[j] != '/'
    {
      assert path[j..j + 1] == [path[j]];
      assert !At(path, "/", j);
    }
  }
}
