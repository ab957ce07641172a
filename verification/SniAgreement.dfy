/** When TLS and the OCSP responder read the same word in a hostname: the exact condition, for every hostname. */
module SniAgreement {
  import opened Common
  import opened JsStrings
  import opened SniPrefix

  // --- Splitting at both separators ---

  /** Puts a character in front of the first segment. */
  function OntoFirst(c: char, segments: seq<string>): (r: seq<string>)
    requires segments != []
    ensures r != []
  {
    [[c] + segments[0]] + segments[1..]
  }

  predicate DashesAt(s: string) {
    |s| >= 2 && s[0] == '-' && s[1] == '-'
  }

  /** The text split at every dot and every "--", read from the front. */
  function Segments(s: string): (r: seq<string>)
    ensures r != []
    decreases |s|
  {
    if s == "" then [""]
    else if s[0] == '.' then [""] + Segments(s[1..])
    else if DashesAt(s) then [""] + Segments(s[2..])
    else OntoFirst(s[0], Segments(s[1..]))
  }

  function DotSplits(pieces: seq<string>): seq<string> {
    if pieces == [] then [] else Split(pieces[0], ".") + DotSplits(pieces[1..])
  }

  lemma OntoFirstAppend(c: char, a: seq<string>, b: seq<string>)
    requires a != []
    ensures OntoFirst(c, a + b) == OntoFirst(c, a) + b
  {
    assert (a + b)[0] == a[0] && (a + b)[1..] == a[1..] + b;
  }

  lemma HeadTail(p: string, rest: string)
    requires p != ""
    ensures (p + rest)[0] == p[0] && (p + rest)[1..] == p[1..] + rest
    ensures |p| > 1 ==> (p + rest)[1] == p[1] && (p + rest)[2..] == p[2..] + rest
  {
  }

  /** A dot ends a segment. */
  lemma {:induction false} SegmentsAtDot(p: string, t: string)
    ensures Segments(p + ("." + t)) == Segments(p) + Segments(t)
    decreases |p|
  {
    var rest := "." + t;
    if p == "" {
      assert p + rest == rest && rest[1..] == t;
    } else {
      HeadTail(p, rest);
      if p[0] == '.' {
        SegmentsAtDot(p[1..], t);
        Assoc([""], Segments(p[1..]), Segments(t));
      } else if DashesAt(p) {
        SegmentsAtDot(p[2..], t);
        Assoc([""], Segments(p[2..]), Segments(t));
      } else {
        SegmentsAtDot(p[1..], t);
        OntoFirstAppend(p[0], Segments(p[1..]), Segments(t));
        assert |p| == 1 ==> (p + rest)[1] == '.';
      }
    }
  }

  lemma HasFromTail(p: string)
    requires p != ""
    ensures Has(p[1..], "--") ==> Has(p, "--")
    ensures DashesAt(p) ==> Has(p, "--")
    ensures EndsWith(p[1..], "-") ==> EndsWith(p, "-")
    ensures p == "-" ==> EndsWith(p, "-")
  {
    var s := "--";
    if Has(p[1..], s) {
      var i := Find(p[1..], s, 0).value;
      assert p[i + 1..i + 3] == p[1..][i..i + 2];
      OccursSo(p, s, i + 1);
    }
    if DashesAt(p) {
      assert p[0..2] == s;
      OccursSo(p, s, 0);
    }
    if EndsWith(p[1..], "-") {
      assert p[|p| - 1..] == p[1..][|p| - 2..];
    }
  }

  lemma OccursSo(s: string, p: string, i: nat)
    requires At(s, p, i)
    ensures Has(s, p)
  {
    if !Has(s, p) {
      FindNone(s, p, 0);
    }
  }

  /** Nothing in p is, or runs into, a "--". */
  predicate DashFree(p: string) {
    !Has(p, "--") && !EndsWith(p, "-")
  }

  lemma NoDashesYet(p: string, rest: string)
    requires p != "" && DashFree(p)
    ensures !DashesAt(p + rest) && !DashesAt(p)
  {
    HasFromTail(p);
    HeadTail(p, rest);
    assert |p| == 1 ==> p == [p[0]];
  }

  /** After text that does not run into it, "--" ends a segment. */
  /** What a first character that starts no "--" does. */
  lemma FirstCharacter(s: string)
    requires s != "" && !DashesAt(s)
    ensures Segments(s) == if s[0] == '.' then [""] + Segments(s[1..]) else OntoFirst(s[0], Segments(s[1..]))
  {
  }

  lemma {:induction false} SegmentsAtDashes(p: string, t: string)
    requires DashFree(p)
    ensures Segments(p + ("--" + t)) == Segments(p) + Segments(t)
    decreases |p|
  {
    var rest := "--" + t;
    if p == "" {
      assert p + rest == rest && rest[2..] == t;
    } else {
      HeadTail(p, rest);
      HasFromTail(p);
      NoDashesYet(p, rest);
      SegmentsAtDashes(p[1..], t);
      FirstCharacter(p);
      FirstCharacter(p + rest);
      Assoc([""], Segments(p[1..]), Segments(t));
      OntoFirstAppend(p[0], Segments(p[1..]), Segments(t));
    }
  }

  /** Without dots, only "--" separates. */
  lemma {:induction false} SegmentsWithoutDots(s: string)
    requires '.' !in s
    ensures Split(s, "--") == Segments(s)
    decreases |s|
  {
    var f := Find(s, "--", 0);
    if f.None? {
      OneSegment(s);
    } else {
      var p, t := s[..f.value], s[f.value + 2..];
      SplitsAtDashes(s);
      SegmentsAtDashes(p, t);
      OneSegment(p);
      SegmentsWithoutDots(t);
    }
  }

  /** The text before the first "--" is free of dashes that would run into it. */
  lemma SplitsAtDashes(s: string)
    requires Has(s, "--")
    ensures var i := Find(s, "--", 0).value;
      && s == s[..i] + ("--" + s[i + 2..]) && DashFree(s[..i])
      && Split(s, "--") == [s[..i]] + Split(s[i + 2..], "--")
  {
    var i := Find(s, "--", 0).value;
    var p, t := s[..i], s[i + 2..];
    assert s[i..i + 2] == "--";
    assert s == p + ("--" + t);
    CleanExact(p, "--", t);
    CleanDashes(p);
  }

  lemma {:induction false} OneSegment(s: string)
    requires '.' !in s && !Has(s, "--")
    ensures Segments(s) == [s]
  {
    if s != "" {
      HasFromTail(s);
      OneSegment(s[1..]);
      assert s == [s[0]] + s[1..];
    }
  }

  lemma SplitsAtDot(s: string)
    requires '.' in s
    ensures Find(s, ".", 0).Some?
    ensures var i := Find(s, ".", 0).value;
      && s == s[..i] + ("." + s[i + 1..]) && '.' !in s[..i]
      && Split(s, ".") == [s[..i]] + Split(s[i + 1..], ".")
  {
    HasOne(s, '.');
    var i := Find(s, ".", 0).value;
    var p, t := s[..i], s[i + 1..];
    assert s[i..i + 1] == ".";
    assert s == p + ("." + t);
    CleanExact(p, ".", t);
    CleanOne(p, '.');
  }

  /** The responder's components are the segments. */
  lemma {:induction false} FlatIsSegments(s: string)
    ensures FlatSplit(Split(s, ".")) == Segments(s)
    decreases |s|
  {
    if '.' !in s {
      SplitPlain(s);
      SegmentsWithoutDots(s);
      assert FlatSplit([s]) == Split(s, "--") + FlatSplit([]);
    } else {
      SplitsAtDot(s);
      var i := Find(s, ".", 0).value;
      var p, t := s[..i], s[i + 1..];
      SegmentsAtDot(p, t);
      SegmentsWithoutDots(p);
      FlatIsSegments(t);
      assert ([p] + Split(t, "."))[1..] == Split(t, ".");
    }
  }

  /** Without "--", only dots separate. */
  lemma {:induction false} SegmentsWithoutDashes(s: string)
    requires !Has(s, "--")
    ensures Split(s, ".") == Segments(s)
  {
    FlatIsSegments(s);
    LabelsWithoutDashes(s);
    SameWithoutDashes(Split(s, "."));
  }

  /** So are the pieces TLS splits off, split further at their dots. */
  lemma {:induction false} PiecesAreSegments(s: string)
    ensures DotSplits(Split(s, "--")) == Segments(s)
    decreases |s|
  {
    if !Has(s, "--") {
      SegmentsWithoutDashes(s);
      assert DotSplits([s]) == Split(s, ".") + DotSplits([]);
    } else {
      SplitsAtDashes(s);
      var i := Find(s, "--", 0).value;
      var p, t := s[..i], s[i + 2..];
      SegmentsAtDashes(p, t);
      SegmentsWithoutDashes(p);
      PiecesAreSegments(t);
      assert ([p] + Split(t, "--"))[1..] == Split(t, "--");
    }
  }

  // --- Text that meets without a separator ---

  predicate EndsInDash(l: string) {
    l != "" && l[|l| - 1] == '-'
  }

  predicate StartsWithDash(s: string) {
    s != "" && s[0] == '-'
  }

  function Last(segments: seq<string>): string
    requires segments != []
  {
    segments[|segments| - 1]
  }

  function AllButLast(segments: seq<string>): seq<string>
    requires segments != []
  {
    segments[..|segments| - 1]
  }

  /** What follows all but the last segment when `r` comes right after text whose last segment is `l`. */
  function Meeting(l: string, r: string): seq<string> {
    if EndsInDash(l) && StartsWithDash(r) then [l[..|l| - 1]] + Segments(r[1..])
    else [l + Segments(r)[0]] + Segments(r)[1..]
  }

  lemma OntoFirstMeeting(c: char, l: string, r: string)
    requires l != "" || c != '-' || !StartsWithDash(r)
    ensures OntoFirst(c, Meeting(l, r)) == Meeting([c] + l, r)
  {
    if EndsInDash(l) && StartsWithDash(r) {
      assert ([c] + l)[..|l|] == [c] + l[..|l| - 1];
    } else {
      Assoc([c], l, Segments(r)[0]);
    }
  }

  lemma EmptySegment(q: string)
    requires q != ""
    ensures Segments(q) != [""]
  {
    if q[0] != '.' && !DashesAt(q) {
      assert Segments(q)[0] == [q[0]] + Segments(q[1..])[0];
    } else {
      assert |Segments(q)| >= 2;
    }
  }

  lemma OneCharacter(c: char)
    requires c != '.'
    ensures Segments([c]) == [[c]]
  {
    assert [c][1..] == "" && Segments("") == [""];
    assert [c] + "" == [c];
    assert OntoFirst(c, [""]) == [[c]];
  }

  lemma DashMeetsDash(r: string)
    requires StartsWithDash(r)
    ensures Segments("-" + r) == AllButLast(Segments("-")) + Meeting(Last(Segments("-")), r)
  {
    OneCharacter('-');
    assert ("-" + r)[2..] == r[1..];
    assert Meeting("-", r) == [""] + Segments(r[1..]);
  }

  /** The segments of two texts put together: they meet in one segment, or in a "--" cut between them. */
  lemma {:induction false} SegmentsMeet(q: string, r: string)
    ensures Segments(q + r) == AllButLast(Segments(q)) + Meeting(Last(Segments(q)), r)
    decreases |q|
  {
    if q == "" {
      assert q + r == r;
      var R := Segments(r);
      assert "" + R[0] == R[0] && [R[0]] + R[1..] == R;
    } else {
      HeadTail(q, r);
      if q[0] == '.' {
        SegmentsMeet(q[1..], r);
        AfterEmpty(Segments(q[1..]), r);
      } else if DashesAt(q) {
        SegmentsMeet(q[2..], r);
        AfterEmpty(Segments(q[2..]), r);
      } else if q == "-" && StartsWithDash(r) {
        DashMeetsDash(r);
      } else {
        var rest := Segments(q[1..]);
        SegmentsMeet(q[1..], r);
        assert !DashesAt(q + r);
        if |rest| > 1 {
          MeetsLater(q[0], rest, r);
        } else {
          MeetsAtOnce(q[0], q[1..], r);
        }
      }
    }
  }

  lemma AfterEmpty(rest: seq<string>, r: string)
    requires rest != []
    ensures [""] + (AllButLast(rest) + Meeting(Last(rest), r)) ==
      AllButLast([""] + rest) + Meeting(Last([""] + rest), r)
  {
    assert AllButLast([""] + rest) == [""] + AllButLast(rest);
    Assoc([""], AllButLast(rest), Meeting(Last(rest), r));
  }

  lemma MeetsLater(c: char, rest: seq<string>, r: string)
    requires |rest| > 1
    ensures OntoFirst(c, AllButLast(rest) + Meeting(Last(rest), r)) ==
      AllButLast(OntoFirst(c, rest)) + Meeting(Last(OntoFirst(c, rest)), r)
  {
    OntoFirstAppend(c, AllButLast(rest), Meeting(Last(rest), r));
    assert AllButLast(OntoFirst(c, rest)) == OntoFirst(c, AllButLast(rest));
  }

  lemma MeetsAtOnce(c: char, q: string, r: string)
    requires |Segments(q)| == 1 && !(q == "" && c == '-' && StartsWithDash(r))
    ensures OntoFirst(c, AllButLast(Segments(q)) + Meeting(Last(Segments(q)), r)) ==
      AllButLast(OntoFirst(c, Segments(q))) + Meeting(Last(OntoFirst(c, Segments(q))), r)
  {
    var l := Last(Segments(q));
    assert Segments(q) == [l];
    assert OntoFirst(c, [l]) == [[c] + l];
    if q != "" {
      EmptySegment(q);
    }
    OntoFirstMeeting(c, l, r);
    assert [] + Meeting(l, r) == Meeting(l, r);
    assert [] + Meeting([c] + l, r) == Meeting([c] + l, r);
  }

  /** What the responder reads from the last segment of the prefix on, when `c` stands between prefix and root. */
  function Across(l: string, c: char, root: string): seq<string> {
    if EndsInDash(l) && c == '-' then [l[..|l| - 1]] + Segments(root)
    else Meeting(l + [c], root)
  }

  lemma SegmentsAcross(prefix: string, c: char, root: string)
    requires c != '.'
    ensures Segments(prefix + ([c] + root)) == AllButLast(Segments(prefix)) + Across(Last(Segments(prefix)), c, root)
  {
    var q := prefix + [c];
    Assoc(prefix, [c], root);
    SegmentsMeet(q, root);
    SegmentsMeet(prefix, [c]);
    OneCharacter(c);
    var l, init := Last(Segments(prefix)), AllButLast(Segments(prefix));
    if EndsInDash(l) && c == '-' {
      assert [c][1..] == "" && Segments("") == [""];
      AcrossDashes(init, l[..|l| - 1], root);
    } else {
      assert Meeting(l, [c]) == [l + [c]];
      LastOf(init, l + [c]);
    }
  }

  lemma AcrossDashes(init: seq<string>, cut: string, root: string)
    ensures var all := init + ([cut] + [""]);
      AllButLast(all) + Meeting(Last(all), root) == init + ([cut] + Segments(root))
  {
    Assoc(init, [cut], [""]);
    LastOf(init + [cut], "");
    var R := Segments(root);
    assert "" + R[0] == R[0] && [R[0]] + R[1..] == R;
    Assoc(init, [cut], R);
  }

  lemma LastOf(init: seq<string>, l: string)
    ensures AllButLast(init + [l]) == init && Last(init + [l]) == l
  {
  }

  // --- Agreement ---

  /** TLS does not see the word because it splits at "--" only, and the word stands between dots in a piece. */
  predicate Hidden(prefix: string, word: string) {
    Has(prefix, "--") && word !in Split(prefix, "--") && word in DotSplits(Split(prefix, "--"))
  }

  predicate TlsFinds(name: string, root: string, word: string) {
    word in GetSNIPrefixParts(name, root)
  }

  predicate ResponderFinds(name: string, word: string) {
    word in Components(name)
  }

  lemma {:induction false} WholePiece(pieces: seq<string>, word: string)
    requires '.' !in word && word in pieces
    ensures word in DotSplits(pieces)
  {
    SplitPlain(word);
    if pieces[0] != word {
      WholePiece(pieces[1..], word);
    }
  }

  lemma TlsReads(name: string, root: string, word: string)
    requires PlainWord(word) && word != ""
    ensures var prefix := ServerNamePrefix(name, root);
      TlsFinds(name, root, word) <==> word in Segments(prefix) && !Hidden(prefix, word)
  {
    var prefix := ServerNamePrefix(name, root);
    if Has(prefix, "--") {
      PiecesAreSegments(prefix);
      assert prefix != "";
      if word in Split(prefix, "--") {
        WholePiece(Split(prefix, "--"), word);
      }
    } else {
      SegmentsWithoutDashes(prefix);
    }
  }

  lemma ResponderReads(name: string, word: string)
    ensures ResponderFinds(name, word) <==> word in Segments(name)
  {
    ComponentsAreFlat(name);
    FlatIsSegments(name);
  }

  /**
   * The condition: a name that is not under the root is read whole by both; the root alone must not hold the word;
   * after a dot the root must not add it and no piece may hide it; and where another character stands before the
   * root, which TLS drops unread, the word must not be in, or come from, the segment that character runs into.
   */
  predicate Agreeable(name: string, root: string, word: string) {
    if !EndsWith(name, root) then !Hidden(name, word)
    else if |name| == |root| then word !in Segments(root)
    else
      var p := |name| - |root| - 1;
      var prefix, c := name[..p], name[p];
      var segments := Segments(prefix);
      if c == '.' then !Hidden(prefix, word) && (word in segments || word !in Segments(root))
      else if word in AllButLast(segments) then !Hidden(prefix, word)
      else word == Last(segments) && !Hidden(prefix, word) <==> word in Across(Last(segments), c, root)
  }

  lemma InSegments(segments: seq<string>, word: string)
    requires segments != []
    ensures word in segments <==> word in AllButLast(segments) || word == Last(segments)
  {
  }

  lemma NameUnder(name: string, root: string)
    requires EndsWith(name, root) && |name| > |root|
    ensures var p := |name| - |root| - 1;
      name == name[..p] + ([name[p]] + root) && ServerNamePrefix(name, root) == name[..p]
  {
    var p := |name| - |root| - 1;
    assert name[p..] == [name[p]] + root;
  }

  /** For every hostname, every root and every word without dots and dashes: they agree if and only if this holds. */
  lemma ParsersAgreeExactly(name: string, root: string, word: string)
    requires PlainWord(word) && word != ""
    ensures (TlsFinds(name, root, word) <==> ResponderFinds(name, word)) <==> Agreeable(name, root, word)
  {
    TlsReads(name, root, word);
    ResponderReads(name, word);
    if EndsWith(name, root) {
      if |name| == |root| {
        assert name == root && ServerNamePrefix(name, root) == "";
      } else {
        var p := |name| - |root| - 1;
        var prefix, c := name[..p], name[p];
        NameUnder(name, root);
        if c == '.' {
          SegmentsAtDot(prefix, root);
        } else {
          SegmentsAcross(prefix, c, root);
          InSegments(Segments(prefix), word);
        }
      }
      if Hidden(ServerNamePrefix(name, root), word) {
        PiecesAreSegments(ServerNamePrefix(name, root));
      }
    } else if Hidden(name, word) {
      PiecesAreSegments(name);
    }
  }

  lemma {:induction false} InDotSplits(pieces: seq<string>, word: string)
    ensures word in DotSplits(pieces) <==> exists piece :: piece in pieces && word in Split(piece, ".")
  {
    if pieces != [] {
      InDotSplits(pieces[1..], word);
      if piece :| piece in pieces && word in Split(piece, ".") {
        assert piece == pieces[0] || piece in pieces[1..];
      }
      if word in Split(pieces[0], ".") {
        assert pieces[0] in pieces;
      } else if piece :| piece in pieces[1..] && word in Split(piece, ".") {
        assert piece in pieces;
      }
    }
  }

  /** Under a root without the word: only a word between dots inside a piece between dashes is read differently. */
  lemma MixedExactly(prefix: string, root: string, word: string)
    requires PlainWord(word) && word != "" && RootWithout(root, word)
    ensures var name := prefix + ("." + root);
      (TlsFinds(name, root, word) <==> ResponderFinds(name, word)) <==>
      (|| !Has(prefix, "--")
       || word in Split(prefix, "--")
       || forall piece :: piece in Split(prefix, "--") ==> word !in Split(piece, "."))
  {
    var name := prefix + ("." + root);
    ParsersAgreeExactly(name, root, word);
    FlatIsSegments(root);
    InDotSplits(Split(prefix, "--"), word);
    assert EndsWith(name, root) && name[|prefix|] == '.' && name[..|prefix|] == prefix;
    if Hidden(prefix, word) {
      PiecesAreSegments(prefix);
    }
  }

  /** So they agree on every name TLS accepts with a dot before the root: endpoint names hold no dot. */
  lemma AcceptedNamesAgree(prefix: string, root: string, word: string)
    requires PlainWord(word) && word != "" && RootWithout(root, word)
    requires forall part :: part in GetSNIPrefixParts(prefix + ("." + root), root) ==> '.' !in part
    ensures var name := prefix + ("." + root);
      TlsFinds(name, root, word) <==> ResponderFinds(name, word)
  {
    MixedExactly(prefix, root, word);
    PrefixOfHost(prefix, root);
    if Has(prefix, "--") && word !in Split(prefix, "--") {
      assert prefix != "";
      forall piece | piece in Split(prefix, "--")
        ensures word !in Split(piece, ".")
      {
        SplitPlain(piece);
      }
    }
  }

  /** Across the dropped character `c` the last segment of the prefix comes to read as the word. */
  predicate SpellsAcross(l: string, c: char, root: string, word: string) {
    (c == '-' && l == word + "-") || l + [c] + Segments(root)[0] == word
  }

  lemma AcrossReads(l: string, c: char, root: string, word: string)
    requires PlainWord(word) && word != "" && RootWithout(root, word) && !StartsWithDash(root)
    ensures word in Across(l, c, root) <==> SpellsAcross(l, c, root, word)
  {
    FlatIsSegments(root);
    var R := Segments(root);
    assert R == [R[0]] + R[1..];
    if EndsInDash(l) && c == '-' {
      var cut := l[..|l| - 1];
      assert l == cut + "-";
      assert word + "-" == l ==> (word + "-")[..|word|] == word && cut == word;
      DashInside(l, c, R[0], word);
    } else {
      assert !(EndsInDash(l + [c]) && StartsWithDash(root));
      assert c == '-' && l == word + "-" ==> EndsInDash(l);
    }
  }

  lemma DashInside(l: string, c: char, first: string, word: string)
    requires PlainWord(word) && c == '-'
    ensures l + [c] + first != word
  {
    assert (l + [c] + first)[|l|] == '-';
  }

  lemma AcrossIsLonger(l: string, c: char, root: string)
    ensures |l + [c] + Segments(root)[0]| > |l|
  {
  }

  /**
   * Names with another character than a dot before a root that does not hold the word and does not start with a
   * dash: they agree if and only if the word stands earlier in the prefix and is not hidden, or it does not, and
   * neither does the last segment read as the word to TLS nor does it come to read as it across the dropped
   * character.
   */
  lemma UndottedExactly(prefix: string, c: char, root: string, word: string)
    requires PlainWord(word) && word != "" && RootWithout(root, word) && c != '.' && !StartsWithDash(root)
    ensures var name := prefix + ([c] + root);
      (TlsFinds(name, root, word) <==> ResponderFinds(name, word)) <==>
      if word in AllButLast(Segments(prefix)) then !Hidden(prefix, word)
      else && !(word == Last(Segments(prefix)) && !Hidden(prefix, word))
           && !SpellsAcross(Last(Segments(prefix)), c, root, word)
  {
    var name, l := prefix + ([c] + root), Last(Segments(prefix));
    ParsersAgreeExactly(name, root, word);
    assert EndsWith(name, root) && name[|prefix|] == c && name[..|prefix|] == prefix by {
      UnderRoot(prefix, c, root);
    }
    AcrossReads(l, c, root, word);
    AcrossIsLonger(l, c, root);
  }

  lemma UnderRoot(prefix: string, c: char, root: string)
    ensures var name := prefix + ([c] + root);
      EndsWith(name, root) && |name| == |prefix| + 1 + |root| && name[|prefix|] == c && name[..|prefix|] == prefix
  {
    var name := prefix + ([c] + root);
    assert name[|name| - |root|..] == root;
  }

  /**
   * A name with another character than a dot before the root, such as `revoked-` and the root: TLS reads the
   * word, the responder a longer one.
   */
  lemma DroppedCharacterDisagrees(word: string, c: char, root: string)
    requires PlainWord(word) && word != "" && c != '.' && !(c == '-' && StartsWithDash(root))
    requires word !in Segments(root)[1..]
    ensures var name := word + ([c] + root);
      TlsFinds(name, root, word) && !ResponderFinds(name, word)
  {
    var name := word + ([c] + root);
    NoDashes(word);
    OneSegment(word);
    UnderRoot(word, c, root);
    TlsReads(name, root, word);
    ResponderReads(name, word);
    RunsIntoRoot(word, c, root);
  }

  lemma RunsIntoRoot(word: string, c: char, root: string)
    requires PlainWord(word) && word != "" && c != '.' && !(c == '-' && StartsWithDash(root))
    requires word !in Segments(root)[1..]
    ensures word !in Segments(word + ([c] + root))
  {
    NoDashes(word);
    OneSegment(word);
    SegmentsAcross(word, c, root);
    AcrossIsLonger(word, c, root);
    assert word[|word| - 1] in word;
    assert word !in Across(word, c, root);
  }
}
