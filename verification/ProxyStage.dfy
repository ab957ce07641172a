/** The buffering stage in front of every connection: bytes accumulate until a PROXY header is decided on. */
module ProxyStage {
  import opened Common
  import opened JsStrings
  import opened ProxyProtocol

  /** Still waiting, closed, or passed on with the addresses found and the bytes after the header. */
  datatype Stage =
    | Waiting(buffered: Buffer)
    | Destroyed
    | Passed(addresses: Option<Addresses>, data: Buffer)

  /** What the stage makes of the bytes it holds. */
  function Decide(data: Buffer): Stage {
    if |data| == 0 then Waiting(data)
    else
      match Detect(data)
      case Incomplete => if |data| > 256 then Passed(None, data) else Waiting(data)
      case NoProxy => Passed(None, data)
      case _ =>
        var result := ParseProxyProtocol(data);
        if result.None? then if |data| > 512 then Destroyed else Waiting(data)
        else Passed(result.value.addresses, result.value.remaining)
  }

  // --- Whole runs ---

  function Bytes(chunks: seq<Option<Buffer>>): Buffer {
    if chunks == [] then [] else Glue(chunks[0].GetOr([]), Bytes(chunks[1..]))
  }

  /** How a run ends, and which bytes it never read. */
  datatype Outcome = Outcome(stage: Stage, unread: Buffer)

  function Run(buffered: Buffer, chunks: seq<Option<Buffer>>): Outcome
    decreases |chunks|
  {
    if chunks == [] then Outcome(Waiting(buffered), [])
    else
      var next := Decide(if chunks[0].Some? then buffered + chunks[0].value else buffered);
      if next.Waiting? then Run(next.buffered, chunks[1..]) else Outcome(next, Bytes(chunks[1..]))
  }

  // --- Decisions are final ---

  lemma PrefixOfExtension(y: Buffer, z: Buffer, n: nat)
    requires n <= |y|
    ensures (y + z)[..n] == y[..n]
  {
  }

  lemma ShorterPrefix(y: Buffer, z: Buffer, sig: Buffer)
    requires |y| < |sig| <= |y + z| && (y + z)[..|sig|] == sig
    ensures y == sig[..|y|]
  {
    assert (y + z)[..|sig|][..|y|] == y;
  }

  lemma ShorterPrefixPart(y: Buffer, z: Buffer, sig: Buffer)
    requires |y + z| < |sig| && y + z == sig[..|y + z|]
    ensures y == sig[..|y|]
  {
    assert (y + z)[..|y|] == y;
  }

  lemma DetectStable(y: Buffer, z: Buffer)
    requires !Detect(y).Incomplete?
    ensures Detect(y + z) == Detect(y)
  {
    var x := y + z;
    forall sig: Buffer | sig == V1_SIGNATURE || sig == V2_SIGNATURE
      ensures |y| >= |sig| ==> (StartsWith(x, sig) <==> StartsWith(y, sig))
      ensures |y| < |sig| && y != sig[..|y|] && |x| >= |sig| ==> !StartsWith(x, sig)
      ensures |y| < |sig| && y != sig[..|y|] && |x| < |sig| ==> !StartsWith(x, sig[..|x|])
    {
      if |y| >= |sig| {
        PrefixOfExtension(y, z, |sig|);
      } else if |x| >= |sig| && x[..|sig|] == sig {
        ShorterPrefix(y, z, sig);
      } else if |x| < |sig| && x == sig[..|x|] {
        ShorterPrefixPart(y, z, sig);
      }
    }
    assert y[..|y|] == y && x[..|x|] == x;
  }

  lemma FindInExtension(a: Buffer, b: Buffer, p: Buffer)
    requires Find(a, p, 0).Some?
    ensures Find(a + b, p, 0) == Find(a, p, 0)
  {
    var k := Find(a, p, 0).value;
    FindFirst(a, p, 0);
    forall j: nat | j <= k
      ensures At(a + b, p, j) <==> At(a, p, j)
    {
      AtPrefix(a, b, p, j);
    }
    FindIs(a + b, p, 0, k);
  }

  lemma LineEndStable(y: Buffer, z: Buffer)
    requires LineEnd(y).Some? || |y| >= V1_MAX_LENGTH
    ensures LineEnd(y + z) == LineEnd(y)
  {
    var short, long := Min(|y|, V1_MAX_LENGTH), Min(|y + z|, V1_MAX_LENGTH);
    if |y| >= V1_MAX_LENGTH {
      PrefixOfExtension(y, z, short);
    } else {
      assert (y + z)[..long] == y + z[..long - |y|];
      assert y[..short] == y;
      FindInExtension(y, z[..long - |y|], CRLF);
    }
  }

  function Extend(s: Stage, z: Buffer): Stage {
    match s
    case Passed(a, d) => Passed(a, d + z)
    case _ => s
  }

  lemma DropOfExtension(y: Buffer, z: Buffer, n: nat)
    requires n <= |y|
    ensures (y + z)[n..] == y[n..] + z
  {
  }

  lemma ParseV1Stable(y: Buffer, z: Buffer)
    requires ParseV1(y).Some?
    ensures ParseV1(y + z) == Some(Parsed(ParseV1(y).value.addresses, ParseV1(y).value.remaining + z))
  {
    LineEndStable(y, z);
    if LineEnd(y).Some? {
      PrefixOfExtension(y, z, LineEnd(y).value);
      DropOfExtension(y, z, LineEnd(y).value + 2);
    }
  }

  /** The v2 header names an unknown version, or more address bytes than are accepted. */
  predicate BadV2(x: Buffer) {
    |x| >= V2_MIN_HEADER && (x[12] as int / 16 != 2 || Join2(x[14], x[15]) > V2_MAX_ADDR_LENGTH)
  }

  lemma ParseV2None(x: Buffer)
    ensures ParseV2(x).None? <==> |x| < V2_MIN_HEADER || BadV2(x) || |x| < V2_MIN_HEADER + Join2(x[14], x[15])
  {
  }

  lemma SameHeader(y: Buffer, z: Buffer)
    requires |y| >= V2_MIN_HEADER
    ensures forall i :: 0 <= i < V2_MIN_HEADER ==> (y + z)[i] == y[i]
  {
  }

  lemma ParseV2Stable(y: Buffer, z: Buffer)
    ensures ParseV2(y).Some? ==>
              ParseV2(y + z) == Some(Parsed(ParseV2(y).value.addresses, ParseV2(y).value.remaining + z))
    ensures BadV2(y) ==> ParseV2(y + z).None? && BadV2(y + z)
  {
    if |y| >= V2_MIN_HEADER {
      SameHeader(y, z);
      var n := V2_MIN_HEADER + Join2(y[14], y[15]);
      if n <= |y| {
        DropOfExtension(y, z, n);
        assert (y + z)[V2_MIN_HEADER..n] == y[V2_MIN_HEADER..n];
      }
    }
  }

  /** Once the stage has decided, more bytes change nothing but the data after the header. */
  lemma DecisionIsFinal(y: Buffer, z: Buffer)
    requires !Decide(y).Waiting?
    ensures Decide(y + z) == Extend(Decide(y), z)
  {
    IncompleteIsShort(y);
    DetectStable(y, z);
    ParseV2Stable(y, z);
    if Detect(y) == V1 && ParseV1(y).Some? {
      ParseV1Stable(y, z);
    }
    if Detect(y) == V2 {
      ParseV2None(y);
    }
  }

  /** Only a cut signature is undecided: fewer than 12 bytes, so the cap of 256 is never reached. */
  lemma IncompleteIsShort(x: Buffer)
    ensures Detect(x).Incomplete? ==> |x| < |V2_SIGNATURE|
  {
  }

  // --- Main theorem: the outcome is a function of the bytes ---

  lemma {:induction false} RunFrom(y: Buffer, chunks: seq<Option<Buffer>>)
    requires Decide(y) == Waiting(y)
    ensures SameOutcome(Run(y, chunks), Decide(y + Bytes(chunks)))
    decreases |chunks|
  {
    if chunks == [] {
      assert y + Bytes(chunks) == y;
    } else {
      var c, rest := chunks[0].GetOr([]), Bytes(chunks[1..]);
      var data := if chunks[0].Some? then y + chunks[0].value else y;
      GlueIs(c, rest);
      Assoc(y, c, rest);
      assert data == y + c;
      if Decide(data).Waiting? {
        RunFrom(data, chunks[1..]);
      } else {
        DecisionIsFinal(data, rest);
      }
    }
  }

  /** A run ends the way the whole stream would, whatever it left unread. */
  predicate SameOutcome(o: Outcome, whole: Stage) {
    match whole
    case Waiting(b) => o == Outcome(Waiting(b), [])
    case Destroyed => o.stage.Destroyed?
    case Passed(a, d) => o.stage.Passed? && o.stage.addresses == a && o.stage.data + o.unread == d
  }

  lemma OutcomeDependsOnBytes(chunks: seq<Option<Buffer>>)
    ensures SameOutcome(Run([], chunks), Decide(Bytes(chunks)))
  {
    RunFrom([], chunks);
    assert [] + Bytes(chunks) == Bytes(chunks);
  }

  // --- What the outcome is ---

  /** It closes exactly on an unacceptable v2 header with more than 512 bytes received. */
  lemma DestroyedExact(x: Buffer)
    ensures Decide(x).Destroyed? <==> StartsWith(x, V2_SIGNATURE) && |x| > 512 && BadV2(x)
  {
    ParseV2None(x);
  }

  /** It waits exactly on a cut signature, a v1 line without its end, or a v2 header not (or never) complete. */
  lemma WaitingExact(x: Buffer)
    ensures Decide(x).Waiting? <==>
            || (|x| < |V2_SIGNATURE| && x == V2_SIGNATURE[..|x|])
            || (|x| < |V1_SIGNATURE| && x == V1_SIGNATURE[..|x|])
            || (StartsWith(x, V1_SIGNATURE) && LineEnd(x).None? && |x| < V1_MAX_LENGTH)
            || (StartsWith(x, V2_SIGNATURE) && |x| <= 512 &&
                (|x| < V2_MIN_HEADER || BadV2(x) || |x| < V2_MIN_HEADER + Join2(x[14], x[15])))
  {
    ParseV2None(x);
    Exclusive(x);
    assert x[..|x|] == x;
  }

  lemma Exclusive(x: Buffer)
    ensures StartsWith(x, V1_SIGNATURE) ==> x[0] == 0x50 && !StartsWith(x, V2_SIGNATURE)
    ensures StartsWith(x, V1_SIGNATURE) && |x| < |V2_SIGNATURE| ==> x != V2_SIGNATURE[..|x|]
  {
    if StartsWith(x, V1_SIGNATURE) {
      assert x[0] == x[..6][0] == V1_SIGNATURE[0];
      assert |x| >= 12 ==> x[..12][0] == x[0];
      assert V2_SIGNATURE[0] == 0x0D;
    }
  }

  /** How many bytes the header takes that a decided stream starts with. */
  function HeaderLength(x: Buffer): nat {
    if StartsWith(x, V2_SIGNATURE) && |x| >= V2_MIN_HEADER then V2_MIN_HEADER + Join2(x[14], x[15])
    else if StartsWith(x, V1_SIGNATURE) && LineEnd(x).Some? then LineEnd(x).value + 2
    else 0
  }

  /** Everything after the header is handed on, and nothing else. */
  lemma HeaderStripped(x: Buffer)
    requires Decide(x).Passed?
    ensures HeaderLength(x) <= |x| && Decide(x).data == x[HeaderLength(x)..]
  {
    ParseV2None(x);
    Exclusive(x);
    IncompleteIsShort(x);
    assert x[0..] == x;
  }

  // --- The object ---

  class ProxyFrontEnd {
    var stage: Stage
    /** What the reads have given so far. */
    ghost var received: seq<Option<Buffer>>

    /** The stage is where the reads have brought it, and all of them were needed. */
    ghost predicate Valid()
      reads this
    {
      Run([], received) == Outcome(stage, [])
    }

    constructor ()
      ensures Valid() && stage == Waiting([]) && received == []
    {
      stage := Waiting([]);
      received := [];
    }

    /** The object's stage is the one the bytes it has received decide. */
    lemma StageOfBytes()
      requires Valid()
      ensures stage == Decide(Bytes(received))
    {
      OutcomeDependsOnBytes(received);
      assert stage.Passed? ==> stage.data + [] == stage.data;
    }

    /** One 'readable' event; `chunk` is what read() gave, possibly nothing. */
    method OnReadable(chunk: Option<Buffer>)
      requires Valid() && stage.Waiting?
      modifies this
      ensures Valid() && received == old(received) + [chunk]
      ensures stage == Decide(if chunk.Some? then old(stage.buffered) + chunk.value else old(stage.buffered))
    {
      RunOn([], received, chunk);
      received := received + [chunk];
      var data := if chunk.Some? then stage.buffered + chunk.value else stage.buffered;
      if |data| == 0 {
        stage := Waiting(data);
        return;
      }
      var kind := Detect(data);
      if kind == Incomplete {
        stage := if |data| > 256 then Passed(None, data) else Waiting(data);
        return;
      }
      if kind == NoProxy {
        stage := Passed(None, data);
        return;
      }
      var result := ParseProxyProtocol(data);
      if result.None? {
        stage := if |data| > 512 then Destroyed else Waiting(data);
        return;
      }
      stage := Passed(result.value.addresses, result.value.remaining);
    }
  }

  /** A run that still waits goes on with the next read. */
  lemma {:induction false} RunOn(buffered: Buffer, chunks: seq<Option<Buffer>>, chunk: Option<Buffer>)
    requires Run(buffered, chunks).stage.Waiting?
    ensures var b := Run(buffered, chunks).stage.buffered;
      Run(buffered, chunks + [chunk]) == Outcome(Decide(if chunk.Some? then b + chunk.value else b), [])
    decreases |chunks|
  {
    if chunks == [] {
      assert ([chunk])[1..] == [];
      assert chunks + [chunk] == [chunk];
    } else {
      assert (chunks + [chunk])[0] == chunks[0] && (chunks + [chunk])[1..] == chunks[1..] + [chunk];
      var next := Decide(if chunks[0].Some? then buffered + chunks[0].value else buffered);
      RunOn(next.buffered, chunks[1..], chunk);
    }
  }
}
