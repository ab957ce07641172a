/** The paths that each endpoint of a chain matches, by their literal text. */
module EndpointTexts {
  import opened Common
  import opened JsStrings
  import opened Numerals
  import opened UriDecoding
  import opened NumberTexts
  import opened ChainableEndpoints
  import WsChain

  /** Some number that the text reads as is in the range. */
  ghost predicate ReadsWithin(s: string, low: int, high: int) {
    exists n :: ReadsAs(s, n) && low <= n <= high
  }

  lemma ParsesWithin(s: string, low: int, high: int)
    ensures ReadsWithin(s, low, high) <==> ParseInt(s).Some? && low <= ParseInt(s).value <= high
  {
    if ParseInt(s).Some? {
      ParseIntExactly(s, ParseInt(s).value);
    }
    if n :| ReadsAs(s, n) && low <= n <= high {
      ParseIntExactly(s, n);
    }
  }

  lemma Headed(head: string, tail: string)
    ensures StartsWith(head + tail, head) && (head + tail)[|head|..] == tail
  {
  }

  lemma TokenIs(head: string, text: string, rest: string)
    requires '/' !in text && Continues(rest)
    ensures var path := head + (text + rest);
      StartsWith(path, head) && Token(path, |head|) == text
  {
    Headed(head, text + rest);
    Tokenise(head, text, rest);
    TokenAt(head + (text + rest), |head|, text, rest, WS);
  }

  /** A close takes any text that reads as a code from 1000 to 4999, or none at all. */
  lemma CloseExactly(code: string)
    ensures Matches(WsClose, "/ws/close/" + code) == if ReadsWithin(code, 1000, 4999) then Yes else Bad
    ensures Matches(WsClose, "/ws/close").Yes?
  {
    Headed("/ws/close/", code);
    ParsesWithin(code, 1000, 4999);
    assert |"/ws/close/" + code| > |"/ws/close"|;
  }

  /** A delay takes any text that starts with a number, whatever follows the text. */
  lemma DelayExactly(seconds: string, rest: string)
    requires '/' !in seconds && Continues(rest)
    ensures Matches(WsDelay, "/ws/delay/" + (seconds + rest)) == if StartsWithNumber(seconds) then Yes else Bad
    ensures Matches(HttpDelay, "/delay/" + (seconds + rest)) == if StartsWithNumber(seconds) then Yes else Bad
  {
    TokenIs("/ws/delay/", seconds, rest);
    TokenIs("/delay/", seconds, rest);
    ParsesAsFloatExactly(seconds);
  }

  /** An informational response takes any text that reads as a code from 100 to 199 other than 101. */
  lemma InformationalExactly(code: string, rest: string)
    requires '/' !in code && Continues(rest)
    ensures Matches(Informational, "/info/" + (code + rest)) ==
      if ReadsWithin(code, 100, 199) && !ReadsWithin(code, 101, 101) then Yes else Bad
  {
    TokenIs("/info/", code, rest);
    ParsesWithin(code, 100, 199);
    ParsesWithin(code, 101, 101);
  }

  /** A repeat takes any text that decodes and an interval that reads as a positive number. */
  lemma RepeatExactly(text: string, interval: string, rest: string)
    requires '/' !in text && '/' !in interval && Continues(rest)
    ensures Matches(WsRepeat, "/ws/repeat/" + (text + ("/" + interval) + rest)) ==
      if !Decodes(text) then Throws else if exists n :: n > 0 && ReadsAs(interval, n) then Yes else Bad
  {
    var seg := WsChain.Repeat(text, interval);
    var path := "/ws/repeat/" + (text + ("/" + interval) + rest);
    WsChain.RepeatTokens(seg, rest, path);
    WsChain.MatchTwoTokens(path, text, interval, rest);
    if ParseInt(interval).Some? {
      ParseIntExactly(interval, ParseInt(interval).value);
    }
    if n :| n > 0 && ReadsAs(interval, n) {
      ParseIntExactly(interval, n);
    }
  }

  /** A message takes any text, a subprotocol anything but nothing; the others stand alone or before a slash. */
  lemma PlainExactly(text: string, path: string)
    ensures Matches(WsMessage, "/ws/message/" + text).Yes?
    ensures Matches(WsSubprotocol, "/ws/subprotocol/" + text) == if text != "" then Yes else No
    ensures Matches(WsNoSubprotocol, path).Yes? <==>
      path == "/ws/no-subprotocol" || StartsWith(path, "/ws/no-subprotocol/")
    ensures Matches(WsEcho, path).Yes? <==> path == "/ws/echo"
    ensures Matches(WsReset, path).Yes? <==> path == "/ws/error/reset"
  {
    Headed("/ws/message/", text);
    Headed("/ws/subprotocol/", text);
    assert "/ws/no-subprotocol" + "/" == "/ws/no-subprotocol/";
  }
}
