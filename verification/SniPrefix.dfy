/** Endpoint parts in a hostname: their parser, and the OCSP responder's own reading of the same names. */
module SniPrefix {
  import opened Common
  import opened JsStrings

  /** What precedes the root domain and its dot; the whole name when it does not end in the root. */
  function ServerNamePrefix(servername: string, root: string): string {
    if EndsWith(servername, root) then
      var end := |servername| - |root| - 1;
      servername[..if end < 0 then 0 else end]
    else servername
  }

  function GetSNIPrefixParts(servername: string, root: string): seq<string> {
    var prefix := ServerNamePrefix(servername, root);
    if prefix == "" then []
    else if Has(prefix, "--") then Split(prefix, "--")
    else Split(prefix, ".")
  }

  function HostOf(parts: seq<string>, root: string): string {
    Join(parts, "--") + ("." + root)
  }

  lemma PrefixOfHost(prefix: string, root: string)
    ensures ServerNamePrefix(prefix + ("." + root), root) == prefix
  {
    var s := prefix + ("." + root);
    assert s[|s| - |root|..] == root;
    assert s[..|prefix|] == prefix;
  }

  // --- Round trip ---

  /** No part holds "--", and none but the last ends in '-'. */
  predicate DashSafe(parts: seq<string>) {
    parts == [] ||
    (!Has(parts[0], "--") && (|parts| > 1 ==> !EndsWith(parts[0], "-")) && DashSafe(parts[1..]))
  }

  /** A part on its own must also have no dot and not be empty. */
  predicate Printable(parts: seq<string>) {
    DashSafe(parts) && (|parts| == 1 ==> parts[0] != "" && '.' !in parts[0])
  }

  lemma {:induction false} SplittableDashes(parts: seq<string>)
    requires parts != []
    ensures Splittable(parts, "--") <==> DashSafe(parts)
  {
    if |parts| > 1 {
      CleanDashes(parts[0]);
      SplittableDashes(parts[1..]);
    }
  }

  lemma JoinedHasDashes(parts: seq<string>)
    requires |parts| >= 2
    ensures Has(Join(parts, "--"), "--") && Join(parts, "--") != ""
  {
    var s := Join(parts, "--");
    var n := |parts[0]|;
    assert s[n..n + 2] == "--";
    if !Has(s, "--") {
      FindNone(s, "--", 0);
      assert At(s, "--", n);
    }
  }

  lemma SplitPlain(p: string)
    ensures Split(p, ".") == [p] <==> '.' !in p
  {
    HasOne(p, '.');
    if '.' in p {
      assert |Split(p, ".")[0]| == Find(p, ".", 0).value < |p|;
    }
  }

  /** The parser inverts joining with "--" exactly on printable lists. */
  lemma SniRoundTrip(parts: seq<string>, root: string)
    ensures GetSNIPrefixParts(HostOf(parts, root), root) == parts <==> Printable(parts)
  {
    var prefix := Join(parts, "--");
    PrefixOfHost(prefix, root);
    if |parts| == 1 {
      SplitPlain(prefix);
      assert parts == [prefix] && DashSafe(parts[1..]);
      if Has(prefix, "--") {
        assert |Split(prefix, "--")| > 1;
      }
    } else if |parts| > 1 {
      JoinedHasDashes(parts);
      SplitJoinExact(parts, "--");
      SplittableDashes(parts);
    }
  }

  lemma {:induction false} SplittableAtDots(parts: seq<string>)
    requires parts != []
    ensures Splittable(parts, ".") <==> forall i :: 0 <= i < |parts| ==> '.' !in parts[i]
  {
    if |parts| == 1 {
      HasOne(parts[0], '.');
    } else {
      CleanOne(parts[0], '.');
      SplittableAtDots(parts[1..]);
      if forall i :: 0 <= i < |parts[1..]| ==> '.' !in parts[1..][i] {
        assert forall i :: 1 <= i < |parts| ==> parts[i] == parts[1..][i - 1];
      } else {
        var i :| 0 <= i < |parts[1..]| && '.' in parts[1..][i];
        assert parts[i + 1] == parts[1..][i];
      }
    }
  }

  /** The legacy form with dots: as long as no "--" comes about, the parser inverts it exactly on parts without dots. */
  lemma DottedRoundTrip(parts: seq<string>, root: string)
    requires !Has(Join(parts, "."), "--") && Join(parts, ".") != ""
    ensures GetSNIPrefixParts(Join(parts, ".") + ("." + root), root) == parts <==>
      forall i :: 0 <= i < |parts| ==> '.' !in parts[i]
  {
    PrefixOfHost(Join(parts, "."), root);
    SplitJoinExact(parts, ".");
    SplittableAtDots(parts);
  }

  // --- The OCSP responder's reading ---

  function FlatSplit(labels: seq<string>): seq<string> {
    if labels == [] then [] else Split(labels[0], "--") + FlatSplit(labels[1..])
  }

  predicate AnyDashes(labels: seq<string>) {
    labels != [] && (Has(labels[0], "--") || AnyDashes(labels[1..]))
  }

  /** The components of one DNS name: split at dots, and at "--" too if any label has one. */
  function Components(name: string): seq<string> {
    var labels := Split(name, ".");
    if AnyDashes(labels) then FlatSplit(labels) else labels
  }

  /** Whether any of a certificate's DNS names marks it as revoked. */
  method IsRevokedCert(dnsNames: seq<string>) returns (r: bool)
    ensures r <==> exists i :: 0 <= i < |dnsNames| && "revoked" in Components(dnsNames[i])
  {
    for k := 0 to |dnsNames|
      invariant forall i :: 0 <= i < k ==> "revoked" !in Components(dnsNames[i])
    {
      if "revoked" in Components(dnsNames[k]) {
        return true;
      }
    }
    return false;
  }

  lemma {:induction false} FlatSplitAppend(a: seq<string>, b: seq<string>)
    ensures FlatSplit(a + b) == FlatSplit(a) + FlatSplit(b)
  {
    if a == [] {
      assert a + b == b;
    } else {
      assert (a + b)[1..] == a[1..] + b;
      FlatSplitAppend(a[1..], b);
      Assoc(Split(a[0], "--"), FlatSplit(a[1..]), FlatSplit(b));
    }
  }

  /** No label of the root is `word`, split at "--" or not. */
  predicate RootWithout(root: string, word: string) {
    word !in FlatSplit(Split(root, "."))
  }

  lemma {:induction false} DashedLabel(labels: seq<string>) returns (dashed: string)
    requires AnyDashes(labels)
    ensures dashed in labels && Has(dashed, "--")
  {
    if Has(labels[0], "--") {
      dashed := labels[0];
    } else {
      dashed := DashedLabel(labels[1..]);
    }
  }

  lemma LabelsWithoutDashes(prefix: string)
    requires !Has(prefix, "--")
    ensures !AnyDashes(Split(prefix, "."))
  {
    if AnyDashes(Split(prefix, ".")) {
      var dashed := DashedLabel(Split(prefix, "."));
      var at := PieceAt(prefix, ".", dashed);
      HasWithin(prefix, dashed, at, "--");
    }
  }

  /** Split at "--" throughout, the labels of a name hold the word iff the prefix's labels do. */
  lemma WordInLabels(prefix: string, root: string, word: string)
    requires RootWithout(root, word)
    ensures word in FlatSplit(Split(prefix + ("." + root), ".")) <==> word in FlatSplit(Split(prefix, "."))
  {
    SplitOneAppend(prefix, '.', root);
    FlatSplitAppend(Split(prefix, "."), Split(root, "."));
  }

  lemma {:induction false} SameWithoutDashes(labels: seq<string>)
    requires !AnyDashes(labels)
    ensures FlatSplit(labels) == labels
  {
    if labels != [] {
      SameWithoutDashes(labels[1..]);
    }
  }

  /** The responder always sees what splitting at both separators would show. */
  lemma ComponentsAreFlat(name: string)
    ensures Components(name) == FlatSplit(Split(name, "."))
  {
    if !AnyDashes(Split(name, ".")) {
      SameWithoutDashes(Split(name, "."));
    }
  }

  /**
   * TLS and OCSP agree on a word such as `revoked`, for every prefix that uses "--" or "." but not both
   * and every root that does not itself hold the word.
   */
  lemma ParsersAgree(prefix: string, root: string, word: string)
    requires !(Has(prefix, "--") && '.' in prefix) && RootWithout(root, word) && word != ""
    ensures var name := prefix + ("." + root);
            word in GetSNIPrefixParts(name, root) <==> word in Components(name)
  {
    PrefixOfHost(prefix, root);
    ComponentsAreFlat(prefix + ("." + root));
    WordInLabels(prefix, root, word);
    if Has(prefix, "--") {
      SplitPlain(prefix);
      assert FlatSplit([prefix]) == Split(prefix, "--") + FlatSplit([]);
    } else {
      LabelsWithoutDashes(prefix);
      SameWithoutDashes(Split(prefix, "."));
      assert prefix == "" ==> Split(prefix, ".") == [""];
    }
  }

  predicate PlainWord(word: string) {
    '.' !in word && '-' !in word
  }

  /** With both separators in one prefix they differ: in word.-- only the responder splits at the dot. */
  lemma MixedPrefixDisagrees(word: string, root: string)
    requires PlainWord(word) && word != ""
    ensures var name := word + ".--" + ("." + root);
            && word in Components(name)
            && word !in GetSNIPrefixParts(name, root)
  {
    PrefixOfHost(word + ".--", root);
    MixedForTls(word);
    MixedForOcsp(word, "--" + ("." + root));
    MixedName(word, "." + root);
  }

  lemma MixedName(word: string, tail: string)
    ensures word + ".--" + tail == word + ("." + ("--" + tail))
  {
    Assoc(word, ".--", tail);
    Assoc(".", "--", tail);
    assert "." + "--" == ".--";
  }

  lemma MixedForTls(word: string)
    requires PlainWord(word)
    ensures Has(word + ".--", "--") && Split(word + ".--", "--") == [word + ".", ""]
  {
    var p, dashes := word + ".", "--";
    NoDashes(p);
    CleanDashes(p);
    CleanExact(p, dashes, "");
    SplitHead(p, dashes, "");
    assert word + ".--" == p + (dashes + "");
    assert Split("", dashes) == [""];
  }

  lemma MixedForOcsp(word: string, tail: string)
    requires PlainWord(word)
    ensures word in Components(word + ("." + tail))
  {
    ComponentsAreFlat(word + ("." + tail));
    SplitOneAppend(word, '.', tail);
    FlatSplitAppend(Split(word, "."), Split(tail, "."));
    SplitPlain(word);
    NoDashes(word);
    assert FlatSplit([word]) == [word] + FlatSplit([]);
  }

  lemma NoDashes(a: string)
    requires '-' !in a
    ensures !Has(a, "--") && !EndsWith(a, "-")
  {
    forall j: nat
      ensures !At(a, "--", j)
    {
      if j + 2 <= |a| {
        assert a[j..j + 2][0] == a[j] && a[j] in a;
      }
    }
    FindAbsent(a, "--", 0);
    assert |a| > 0 ==> a[|a| - 1..][0] == a[|a| - 1] && a[|a| - 1] in a;
  }
}
