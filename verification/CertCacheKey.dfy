/** The cache key of a certificate, and when it determines the options it was computed from. */
module CertCacheKey {
  import opened Common
  import opened JsMaps
  import opened JsStrings
  import opened Numerals

  /** Unset options are false, "" and 0: the code only tests them for truth. */
  datatype CertOptions = CertOptions(
    requiredType: string,
    expired: bool,
    revoked: bool,
    selfSigned: bool,
    overridePrefix: string,
    noCommonName: bool,
    keyBits: nat,
    sha1Signature: bool,
    incompleteChain: bool)

  /** The options that are part of the key, in key order. */
  datatype KeyView = KeyView(
    expired: bool,
    revoked: bool,
    selfSigned: bool,
    noCommonName: bool,
    sha1Signature: bool,
    overridePrefix: string,
    keyBits: nat)

  function ViewOf(o: CertOptions): KeyView {
    KeyView(o.expired, o.revoked, o.selfSigned, o.noCommonName, o.sha1Signature, o.overridePrefix, o.keyBits)
  }

  /** The words a key is made of. */
  datatype Words = Words(flags: seq<string>, override: string, keyBits: string)

  const WORDS := Words(["expired", "revoked", "selfSigned", "noCommonName", "sha1Signature"], "override=", "keyBits=")

  function FlagsOf(v: KeyView): seq<bool> {
    [v.expired, v.revoked, v.selfSigned, v.noCommonName, v.sha1Signature]
  }

  /** The names whose flag is on, in order. */
  function Filter(names: seq<string>, on: seq<bool>): seq<string>
    requires |names| == |on|
  {
    if names == [] then []
    else if on[0] then [names[0]] + Filter(names[1..], on[1..])
    else Filter(names[1..], on[1..])
  }

  /** tag followed by the value, when there is one. */
  function Tagged(tag: string, value: string): seq<string> {
    if value == "" then [] else [tag + value]
  }

  function KeyBitsText(n: nat): string {
    if n == 0 then "" else Decimal(n)
  }

  function TaggedParts(v: KeyView, w: Words): seq<string> {
    Tagged(w.override, v.overridePrefix) + Tagged(w.keyBits, KeyBitsText(v.keyBits))
  }

  function KeyParts(v: KeyView, w: Words): seq<string>
    requires |w.flags| == 5
  {
    Filter(w.flags, FlagsOf(v)) + TaggedParts(v, w)
  }

  function CacheKey(domain: string, v: KeyView, w: Words): string
    requires |w.flags| == 5
  {
    domain + ("+" + Join(KeyParts(v, w), "+"))
  }

  function CalculateCertCacheKey(domain: string, o: CertOptions): string {
    CacheKey(domain, ViewOf(o), WORDS)
  }

  // --- The parts determine the options ---

  predicate FlagWord(name: string) {
    name != "" && '=' !in name && '+' !in name
  }

  predicate TagWord(tag: string) {
    '=' in tag && '+' !in tag
  }

  /** Flags are distinct and hold no '='; tags hold one and differ in their first letter; nothing holds a '+'. */
  predicate Legible(w: Words) {
    && |w.flags| == 5
    && Distinct(w.flags)
    && (forall n :: n in w.flags ==> FlagWord(n))
    && TagWord(w.override) && TagWord(w.keyBits)
    && w.override[0] != w.keyBits[0]
  }

  lemma ShortFlags()
    ensures FlagWord("expired") && FlagWord("revoked") && FlagWord("selfSigned")
  {
  }

  lemma LongFlags()
    ensures FlagWord("noCommonName") && FlagWord("sha1Signature")
  {
  }

  lemma Tags()
    ensures TagWord("override=") && TagWord("keyBits=")
  {
    assert "override="[8] == '=' && "keyBits="[7] == '=';
  }

  lemma WordsLegible()
    ensures Legible(WORDS)
  {
    ShortFlags();
    LongFlags();
    Tags();
    LegibleFrom("expired", "revoked", "selfSigned", "noCommonName", "sha1Signature", "override=", "keyBits=");
  }

  lemma LegibleFrom(a: string, b: string, c: string, d: string, e: string, s: string, t: string)
    requires FlagWord(a) && FlagWord(b) && FlagWord(c) && FlagWord(d) && FlagWord(e) && TagWord(s) && TagWord(t)
    requires a[0] != b[0] && |a| == |b| == 7 && |c| == 10 && |d| == 12 && |e| == 13 && s[0] != t[0]
    ensures Legible(Words([a, b, c, d, e], s, t))
  {
    assert [e][1..] == [] && Distinct([e]);
    assert [d, e][1..] == [e] && Distinct([d, e]);
    assert [c, d, e][1..] == [d, e] && Distinct([c, d, e]);
    assert [b, c, d, e][1..] == [c, d, e] && Distinct([b, c, d, e]);
    assert [a, b, c, d, e][1..] == [b, c, d, e];
  }

  lemma {:induction false} FilterWithin(names: seq<string>, on: seq<bool>)
    requires |names| == |on|
    ensures forall p :: p in Filter(names, on) ==> p in names
  {
    if names != [] {
      FilterWithin(names[1..], on[1..]);
    }
  }

  predicate Apart(parts: seq<string>, names: seq<string>) {
    forall p :: p in parts ==> p !in names
  }

  function Prepend(on: bool, p: string, rest: seq<string>): seq<string> {
    if on then [p] + rest else rest
  }

  lemma SameFirst(p: string, on1: bool, rest1: seq<string>, on2: bool, rest2: seq<string>)
    requires p !in rest1 && p !in rest2 && Prepend(on1, p, rest1) == Prepend(on2, p, rest2)
    ensures on1 == on2 && rest1 == rest2
  {
    assert ([p] + rest1)[0] == p && ([p] + rest1)[1..] == rest1;
    assert ([p] + rest2)[0] == p && ([p] + rest2)[1..] == rest2;
  }

  /** Flags followed by parts that are not flags can be read in one way only. */
  lemma {:induction false} SameFilter(names: seq<string>, on1: seq<bool>, rest1: seq<string>,
                                      on2: seq<bool>, rest2: seq<string>)
    requires |names| == |on1| == |on2| && Distinct(names)
    requires Apart(rest1, names) && Apart(rest2, names)
    requires Filter(names, on1) + rest1 == Filter(names, on2) + rest2
    ensures on1 == on2 && rest1 == rest2
  {
    if names == [] {
      assert Filter(names, on1) + rest1 == rest1 && Filter(names, on2) + rest2 == rest2;
    } else {
      var a, b := Filter(names[1..], on1[1..]), Filter(names[1..], on2[1..]);
      FilterWithin(names[1..], on1[1..]);
      FilterWithin(names[1..], on2[1..]);
      PrependFilter(names, on1, rest1);
      PrependFilter(names, on2, rest2);
      SameFirst(names[0], on1[0], a + rest1, on2[0], b + rest2);
      SameFilter(names[1..], on1[1..], rest1, on2[1..], rest2);
      assert on1 == [on1[0]] + on1[1..] && on2 == [on2[0]] + on2[1..];
    }
  }

  lemma PrependFilter(names: seq<string>, on: seq<bool>, rest: seq<string>)
    requires |names| == |on| > 0
    ensures Filter(names, on) + rest == Prepend(on[0], names[0], Filter(names[1..], on[1..]) + rest)
  {
    Assoc([names[0]], Filter(names[1..], on[1..]), rest);
  }

  lemma TagTwice(tag: string, value1: string, value2: string)
    requires tag + value1 == tag + value2
    ensures value1 == value2
  {
    assert (tag + value1)[|tag|..] == value1;
    assert (tag + value2)[|tag|..] == value2;
  }

  lemma SameTagged(s: string, t: string, a1: string, b1: string, a2: string, b2: string)
    requires s != "" && t != "" && s[0] != t[0]
    requires Tagged(s, a1) + Tagged(t, b1) == Tagged(s, a2) + Tagged(t, b2)
    ensures a1 == a2 && b1 == b2
  {
    var x, y := Tagged(s, a1) + Tagged(t, b1), Tagged(s, a2) + Tagged(t, b2);
    assert (s + a1)[0] == (s + a2)[0] == s[0] && (t + b1)[0] == (t + b2)[0] == t[0];
    assert |x| == (if a1 == "" then 0 else 1) + (if b1 == "" then 0 else 1);
    assert |y| == (if a2 == "" then 0 else 1) + (if b2 == "" then 0 else 1);
    if a1 != "" {
      assert x[0] == s + a1;
    }
    if a2 != "" {
      assert y[0] == s + a2;
    }
    if b1 != "" {
      assert x[|x| - 1] == t + b1;
    }
    if b2 != "" {
      assert y[|y| - 1] == t + b2;
    }
    assert a1 == "" <==> a2 == "";
    if a1 != "" {
      TagTwice(s, a1, a2);
    }
    if b1 != "" {
      TagTwice(t, b1, b2);
    }
  }

  lemma TaggedApart(v: KeyView, w: Words)
    requires Legible(w)
    ensures Apart(TaggedParts(v, w), w.flags)
  {
    assert '=' in w.override + v.overridePrefix;
    assert '=' in w.keyBits + KeyBitsText(v.keyBits);
  }

  lemma SameKeyBits(m: nat, n: nat)
    requires KeyBitsText(m) == KeyBitsText(n)
    ensures m == n
  {
    DecimalRoundTrip(m);
    DecimalRoundTrip(n);
  }

  lemma SameParts(v1: KeyView, v2: KeyView, w: Words)
    requires Legible(w) && KeyParts(v1, w) == KeyParts(v2, w)
    ensures v1 == v2
  {
    TaggedApart(v1, w);
    TaggedApart(v2, w);
    SameFilter(w.flags, FlagsOf(v1), TaggedParts(v1, w), FlagsOf(v2), TaggedParts(v2, w));
    SameFlags(v1, v2);
    SameTagged(w.override, w.keyBits, v1.overridePrefix, KeyBitsText(v1.keyBits),
               v2.overridePrefix, KeyBitsText(v2.keyBits));
    SameKeyBits(v1.keyBits, v2.keyBits);
  }

  lemma SameFlags(v1: KeyView, v2: KeyView)
    requires FlagsOf(v1) == FlagsOf(v2)
    ensures v1 == v2.(overridePrefix := v1.overridePrefix, keyBits := v1.keyBits)
  {
    var a, b := FlagsOf(v1), FlagsOf(v2);
    assert a[0] == b[0] && a[1] == b[1] && a[2] == b[2] && a[3] == b[3] && a[4] == b[4];
  }

  // --- The key determines the parts ---

  /** Parts that survive being joined with '+': none holds one, and none is empty. */
  predicate Plain(parts: seq<string>) {
    forall p :: p in parts ==> '+' !in p && p != ""
  }

  lemma PlainKeyParts(v: KeyView, w: Words)
    requires Legible(w) && '+' !in v.overridePrefix
    ensures Plain(KeyParts(v, w))
  {
    FilterWithin(w.flags, FlagsOf(v));
    DecimalRoundTrip(v.keyBits);
    assert '+' !in KeyBitsText(v.keyBits);
    assert forall p :: p in KeyParts(v, w) ==> p in Filter(w.flags, FlagsOf(v)) || p in TaggedParts(v, w);
  }

  /** Splitting the joined parts gives them back, except that no parts at all reads as one empty part. */
  function Reading(parts: seq<string>): seq<string> {
    if parts == [] then [""] else parts
  }

  lemma SplitKey(domain: string, parts: seq<string>)
    requires '+' !in domain && Plain(parts)
    ensures Split(domain + ("+" + Join(parts, "+")), "+") == [domain] + Reading(parts)
  {
    CleanOne(domain, '+');
    SplitHead(domain, "+", Join(parts, "+"));
    if parts != [] {
      SplittableOne(parts, '+');
      SplitJoinExact(parts, "+");
    }
  }

  lemma SameReading(domain1: string, parts1: seq<string>, domain2: string, parts2: seq<string>)
    requires Plain(parts1) && Plain(parts2) && [domain1] + Reading(parts1) == [domain2] + Reading(parts2)
    ensures domain1 == domain2 && parts1 == parts2
  {
    assert ([domain1] + Reading(parts1))[0] == domain1 && ([domain1] + Reading(parts1))[1..] == Reading(parts1);
    assert ([domain2] + Reading(parts2))[0] == domain2 && ([domain2] + Reading(parts2))[1..] == Reading(parts2);
    assert Reading(parts1)[0] == Reading(parts2)[0];
    assert parts1 != [] ==> parts1[0] in parts1;
    assert parts2 != [] ==> parts2[0] in parts2;
  }

  /** Free of the separator, so that a cache key can be read back. */
  predicate Separable(domain: string, o: CertOptions) {
    '+' !in domain && '+' !in o.overridePrefix
  }

  /** Two separable requests share a key exactly when they agree on the domain and on every option in the key. */
  lemma KeyDeterminesRequest(d1: string, o1: CertOptions, d2: string, o2: CertOptions)
    requires Separable(d1, o1) && Separable(d2, o2)
    ensures CalculateCertCacheKey(d1, o1) == CalculateCertCacheKey(d2, o2) <==> d1 == d2 && ViewOf(o1) == ViewOf(o2)
  {
    WordsLegible();
    assert CalculateCertCacheKey(d1, o1) == CacheKey(d1, ViewOf(o1), WORDS);
    assert CalculateCertCacheKey(d2, o2) == CacheKey(d2, ViewOf(o2), WORDS);
    KeyDeterminesView(d1, ViewOf(o1), d2, ViewOf(o2), WORDS);
  }

  lemma KeyDeterminesView(d1: string, v1: KeyView, d2: string, v2: KeyView, w: Words)
    requires Legible(w) && '+' !in d1 && '+' !in d2 && '+' !in v1.overridePrefix && '+' !in v2.overridePrefix
    ensures CacheKey(d1, v1, w) == CacheKey(d2, v2, w) <==> d1 == d2 && v1 == v2
  {
    PlainKeyParts(v1, w);
    PlainKeyParts(v2, w);
    SplitKey(d1, KeyParts(v1, w));
    SplitKey(d2, KeyParts(v2, w));
    if CacheKey(d1, v1, w) == CacheKey(d2, v2, w) {
      SameReading(d1, KeyParts(v1, w), d2, KeyParts(v2, w));
      SameParts(v1, v2, w);
    }
  }

  // --- Which requests share a key, for any domains ---

  lemma SplitAnyKey(domain: string, v: KeyView, w: Words)
    requires |w.flags| == 5
    ensures Split(CacheKey(domain, v, w), "+") == Split(domain, "+") + Split(Join(KeyParts(v, w), "+"), "+")
  {
    SplitOneAppend(domain, '+', Join(KeyParts(v, w), "+"));
  }

  lemma SameSplits(a: string, b: string)
    requires Split(a, "+") == Split(b, "+")
    ensures a == b
  {
    JoinSplit(a, "+");
    JoinSplit(b, "+");
  }

  /** With no condition at all: keys are equal exactly when domain and parts together split alike. */
  lemma KeysSplitAlike(d1: string, v1: KeyView, d2: string, v2: KeyView, w: Words)
    requires |w.flags| == 5
    ensures CacheKey(d1, v1, w) == CacheKey(d2, v2, w) <==>
      Split(d1, "+") + Split(Join(KeyParts(v1, w), "+"), "+") == Split(d2, "+") + Split(Join(KeyParts(v2, w), "+"), "+")
  {
    SplitAnyKey(d1, v1, w);
    SplitAnyKey(d2, v2, w);
    if Split(CacheKey(d1, v1, w), "+") == Split(CacheKey(d2, v2, w), "+") {
      SameSplits(CacheKey(d1, v1, w), CacheKey(d2, v2, w));
    }
  }

  lemma SplitParts(parts: seq<string>)
    requires Plain(parts)
    ensures Split(Join(parts, "+"), "+") == Reading(parts)
  {
    if parts != [] {
      SplittableOne(parts, '+');
      SplitJoinExact(parts, "+");
    }
  }

  lemma PlainSlices(parts: seq<string>, m: nat)
    requires Plain(parts) && m <= |parts|
    ensures Plain(parts[..m]) && Plain(parts[m..])
  {
  }

  /** The domain e is d with the first m parts of d's key appended, and the key of e goes on with the others. */
  predicate TakesOver(d: string, v: KeyView, e: string, u: KeyView, m: nat, w: Words)
    requires |w.flags| == 5
  {
    var parts := KeyParts(v, w);
    0 < m < |parts| && e == d + ("+" + Join(parts[..m], "+")) && KeyParts(u, w) == parts[m..]
  }

  lemma TakenOverShares(d: string, v: KeyView, e: string, u: KeyView, m: nat, w: Words)
    requires Legible(w) && '+' !in v.overridePrefix && '+' !in u.overridePrefix && TakesOver(d, v, e, u, m, w)
    ensures CacheKey(d, v, w) == CacheKey(e, u, w)
  {
    var parts := KeyParts(v, w);
    PlainKeyParts(v, w);
    PlainSlices(parts, m);
    SplitParts(parts);
    SplitParts(parts[..m]);
    SplitParts(parts[m..]);
    SplitOneAppend(d, '+', Join(parts[..m], "+"));
    Assoc(Split(d, "+"), parts[..m], parts[m..]);
    SplitAt(parts, m);
    KeysSplitAlike(d, v, e, u, w);
  }

  lemma ReadingInjective(a: seq<string>, b: seq<string>)
    requires Plain(a) && Plain(b) && Reading(a) == Reading(b)
    ensures a == b
  {
    assert a != [] ==> a[0] in a;
    assert b != [] ==> b[0] in b;
    assert Reading(a)[0] == Reading(b)[0];
  }

  lemma CutBoth<T>(a: seq<T>, r: seq<T>, b: seq<T>, t: seq<T>) returns (m: nat)
    requires a + r == b + t && |a| <= |b|
    ensures m == |b| - |a| <= |r| && b == a + r[..m] && t == r[m..]
  {
    m := |b| - |a|;
    assert (a + r)[..|b|] == a + r[..m] && (b + t)[..|b|] == b;
    assert (a + r)[|b|..] == r[m..] && (b + t)[|b|..] == t;
  }

  /** Equal keys with the first domain no longer than the second: the same request, or one takes over from the other. */
  lemma SharedKey(d: string, v: KeyView, e: string, u: KeyView, w: Words) returns (m: nat)
    requires Legible(w) && '+' !in v.overridePrefix && '+' !in u.overridePrefix
    requires CacheKey(d, v, w) == CacheKey(e, u, w) && |Split(d, "+")| <= |Split(e, "+")|
    ensures (d == e && v == u) || TakesOver(d, v, e, u, m, w)
  {
    var parts := KeyParts(v, w);
    PlainKeyParts(v, w);
    PlainKeyParts(u, w);
    SplitParts(parts);
    SplitParts(KeyParts(u, w));
    KeysSplitAlike(d, v, e, u, w);
    m := CutBoth(Split(d, "+"), Reading(parts), Split(e, "+"), Reading(KeyParts(u, w)));
    if m == 0 {
      assert Split(d, "+") + Reading(parts)[..0] == Split(d, "+");
      SameSplits(d, e);
      ReadingInjective(parts, KeyParts(u, w));
      SameParts(v, u, w);
    } else {
      TakesRest(d, parts, e, KeyParts(u, w), m);
    }
  }

  lemma TakesRest(d: string, parts: seq<string>, e: string, others: seq<string>, m: nat)
    requires Plain(parts) && Plain(others) && 0 < m <= |Reading(parts)|
    requires Split(e, "+") == Split(d, "+") + Reading(parts)[..m] && Reading(others) == Reading(parts)[m..]
    ensures m < |parts| && e == d + ("+" + Join(parts[..m], "+")) && others == parts[m..]
  {
    assert |Reading(others)| > 0;
    assert m < |Reading(parts)| && Reading(parts) == parts;
    assert parts[m] in parts && Reading(others)[0] == parts[m];
    PlainSlices(parts, m);
    SplitParts(parts[..m]);
    SplitOneAppend(d, '+', Join(parts[..m], "+"));
    SameSplits(e, d + ("+" + Join(parts[..m], "+")));
  }

  /**
   * For any domains and override prefixes without '+': two requests share a key exactly when they agree on the domain
   * and every option in the key, or when one domain is the other with the first parts of its key appended and the
   * remaining parts, of which there is at least one, are the same.
   */
  lemma SharesKeyExactly(d1: string, o1: CertOptions, d2: string, o2: CertOptions)
    requires '+' !in o1.overridePrefix && '+' !in o2.overridePrefix
    ensures CalculateCertCacheKey(d1, o1) == CalculateCertCacheKey(d2, o2) <==>
      || (d1 == d2 && ViewOf(o1) == ViewOf(o2))
      || (exists m :: TakesOver(d1, ViewOf(o1), d2, ViewOf(o2), m, WORDS))
      || (exists m :: TakesOver(d2, ViewOf(o2), d1, ViewOf(o1), m, WORDS))
  {
    WordsLegible();
    assert CalculateCertCacheKey(d1, o1) == CacheKey(d1, ViewOf(o1), WORDS);
    assert CalculateCertCacheKey(d2, o2) == CacheKey(d2, ViewOf(o2), WORDS);
    SharesExactly(d1, ViewOf(o1), d2, ViewOf(o2), WORDS);
  }

  lemma SharesExactly(d1: string, v1: KeyView, d2: string, v2: KeyView, w: Words)
    requires Legible(w) && '+' !in v1.overridePrefix && '+' !in v2.overridePrefix
    ensures CacheKey(d1, v1, w) == CacheKey(d2, v2, w) <==>
      || (d1 == d2 && v1 == v2)
      || (exists m :: TakesOver(d1, v1, d2, v2, m, w))
      || (exists m :: TakesOver(d2, v2, d1, v1, m, w))
  {
    if m :| TakesOver(d1, v1, d2, v2, m, w) {
      TakenOverShares(d1, v1, d2, v2, m, w);
    }
    if m :| TakesOver(d2, v2, d1, v1, m, w) {
      TakenOverShares(d2, v2, d1, v1, m, w);
    }
    if CacheKey(d1, v1, w) == CacheKey(d2, v2, w) {
      if |Split(d1, "+")| <= |Split(d2, "+")| {
        var m := SharedKey(d1, v1, d2, v2, w);
      } else {
        var m := SharedKey(d2, v2, d1, v1, w);
      }
    }
  }

  /** What the part of a key after the domain splits into; never nothing. */
  function Pieces(o: CertOptions): seq<string> {
    Split(Join(KeyParts(ViewOf(o), WORDS), "+"), "+")
  }

  /** The domain e is d with the first m pieces of d's key appended, and the key of e goes on with the others. */
  predicate TakesOverPieces(d: string, o: CertOptions, e: string, u: CertOptions, m: nat) {
    0 < m < |Pieces(o)| && e == d + ("+" + Join(Pieces(o)[..m], "+")) && Pieces(u) == Pieces(o)[m..]
  }

  lemma KeyPieces(d: string, o: CertOptions)
    ensures Split(CalculateCertCacheKey(d, o), "+") == Split(d, "+") + Pieces(o)
  {
    SplitAnyKey(d, ViewOf(o), WORDS);
    assert CalculateCertCacheKey(d, o) == CacheKey(d, ViewOf(o), WORDS);
  }

  lemma {:induction false} PiecesPlain(s: string)
    ensures forall p :: p in Split(s, "+") ==> '+' !in p
    decreases |s|
  {
    HasOne(s, '+');
    var f := Find(s, "+", 0);
    if f.Some? {
      var p, t := s[..f.value], s[f.value + 1..];
      assert s[f.value..f.value + 1] == "+";
      assert s == p + ("+" + t);
      CleanExact(p, "+", t);
      CleanOne(p, '+');
      PiecesPlain(t);
    }
  }

  lemma SplitsBack(pieces: seq<string>)
    requires pieces != [] && forall p :: p in pieces ==> '+' !in p
    ensures Split(Join(pieces, "+"), "+") == pieces
  {
    SplittableOne(pieces, '+');
    SplitJoinExact(pieces, "+");
  }

  lemma AppendedPieces(d: string, pieces: seq<string>, m: nat)
    requires 0 < m <= |pieces| && forall p :: p in pieces ==> '+' !in p
    ensures Split(d + ("+" + Join(pieces[..m], "+")), "+") == Split(d, "+") + pieces[..m]
  {
    SplitsBack(pieces[..m]);
    SplitOneAppend(d, '+', Join(pieces[..m], "+"));
  }

  lemma TakenOverPieces(d: string, o: CertOptions, e: string, u: CertOptions, m: nat)
    requires TakesOverPieces(d, o, e, u, m)
    ensures CalculateCertCacheKey(d, o) == CalculateCertCacheKey(e, u)
  {
    PiecesPlain(Join(KeyParts(ViewOf(o), WORDS), "+"));
    AppendedPieces(d, Pieces(o), m);
    KeyPieces(d, o);
    KeyPieces(e, u);
    SplitAt(Pieces(o), m);
    Assoc(Split(d, "+"), Pieces(o)[..m], Pieces(o)[m..]);
    SameSplits(CalculateCertCacheKey(d, o), CalculateCertCacheKey(e, u));
  }

  lemma SharedPieces(d: string, o: CertOptions, e: string, u: CertOptions) returns (m: nat)
    requires CalculateCertCacheKey(d, o) == CalculateCertCacheKey(e, u) && |Split(d, "+")| <= |Split(e, "+")|
    ensures (d == e && Pieces(o) == Pieces(u)) || TakesOverPieces(d, o, e, u, m)
  {
    KeyPieces(d, o);
    KeyPieces(e, u);
    m := CutBoth(Split(d, "+"), Pieces(o), Split(e, "+"), Pieces(u));
    if m == 0 {
      assert Split(d, "+") + Pieces(o)[..0] == Split(d, "+");
      SameSplits(d, e);
    } else {
      assert |Pieces(u)| > 0;
      PiecesPlain(Join(KeyParts(ViewOf(o), WORDS), "+"));
      AppendedPieces(d, Pieces(o), m);
      SameSplits(e, d + ("+" + Join(Pieces(o)[..m], "+")));
    }
  }

  /**
   * For any two requests at all: they share a key exactly when domain and pieces are the same, or when one domain is
   * the other with the first pieces of its key appended and the remaining pieces are the same.
   */
  lemma AnyShareKeyExactly(d1: string, o1: CertOptions, d2: string, o2: CertOptions)
    ensures CalculateCertCacheKey(d1, o1) == CalculateCertCacheKey(d2, o2) <==>
      || (d1 == d2 && Pieces(o1) == Pieces(o2))
      || (exists m :: TakesOverPieces(d1, o1, d2, o2, m))
      || (exists m :: TakesOverPieces(d2, o2, d1, o1, m))
  {
    if d1 == d2 && Pieces(o1) == Pieces(o2) {
      KeyPieces(d1, o1);
      KeyPieces(d2, o2);
      SameSplits(CalculateCertCacheKey(d1, o1), CalculateCertCacheKey(d2, o2));
    }
    if m :| TakesOverPieces(d1, o1, d2, o2, m) {
      TakenOverPieces(d1, o1, d2, o2, m);
    }
    if m :| TakesOverPieces(d2, o2, d1, o1, m) {
      TakenOverPieces(d2, o2, d1, o1, m);
    }
    if CalculateCertCacheKey(d1, o1) == CalculateCertCacheKey(d2, o2) {
      if |Split(d1, "+")| <= |Split(d2, "+")| {
        var m := SharedPieces(d1, o1, d2, o2);
      } else {
        var m := SharedPieces(d2, o2, d1, o1);
      }
    }
  }

  const NO_OPTIONS := CertOptions("", false, false, false, "", false, 0, false, false)

  function If(on: bool, part: string): seq<string> {
    if on then [part] else []
  }

  lemma FilterStep(name: string, names: seq<string>, on: bool, ons: seq<bool>)
    requires |names| == |ons|
    ensures Filter([name] + names, [on] + ons) == If(on, name) + Filter(names, ons)
  {
    assert ([name] + names)[1..] == names && ([on] + ons)[1..] == ons;
  }

  lemma FiveFlags(a: string, b: string, c: string, d: string, e: string, p: bool, q: bool, r: bool, s: bool, t: bool)
    ensures Filter([a, b, c, d, e], [p, q, r, s, t]) == If(p, a) + (If(q, b) + (If(r, c) + (If(s, d) + If(t, e))))
  {
    FilterStep(e, [], t, []);
    FilterStep(d, [e] + [], s, [t] + []);
    FilterStep(c, [d] + ([e] + []), r, [s] + ([t] + []));
    FilterStep(b, [c] + ([d] + ([e] + [])), q, [r] + ([s] + ([t] + [])));
    FilterStep(a, [b] + ([c] + ([d] + ([e] + []))), p, [q] + ([r] + ([s] + ([t] + []))));
    assert [a, b, c, d, e] == [a] + ([b] + ([c] + ([d] + ([e] + []))));
    assert [p, q, r, s, t] == [p] + ([q] + ([r] + ([s] + ([t] + []))));
    assert If(t, e) + [] == If(t, e);
  }

  /** A key by its text: the domain, and behind a plus sign each the words of the options that are set. */
  lemma KeyText(domain: string, o: CertOptions)
    ensures CalculateCertCacheKey(domain, o) == domain + ("+" + Join(
      If(o.expired, "expired") + (If(o.revoked, "revoked") + (If(o.selfSigned, "selfSigned") +
        (If(o.noCommonName, "noCommonName") + If(o.sha1Signature, "sha1Signature"))))
      + (If(o.overridePrefix != "", "override=" + o.overridePrefix)
         + If(o.keyBits != 0, "keyBits=" + Decimal(o.keyBits))), "+"))
  {
    FiveFlags("expired", "revoked", "selfSigned", "noCommonName", "sha1Signature",
              o.expired, o.revoked, o.selfSigned, o.noCommonName, o.sha1Signature);
  }

  /** With a '+' in the domain a plain request and a revoked one share a key. */
  lemma KeyClash(domain: string)
    ensures CalculateCertCacheKey(domain + ("+" + WORDS.flags[1]), NO_OPTIONS.(selfSigned := true))
         == CalculateCertCacheKey(domain, NO_OPTIONS.(revoked := true, selfSigned := true))
  {
    ClashOf(domain, WORDS);
  }

  lemma ClashOf(domain: string, w: Words)
    requires |w.flags| == 5
    ensures CacheKey(domain + ("+" + w.flags[1]), ViewOf(NO_OPTIONS.(selfSigned := true)), w)
         == CacheKey(domain, ViewOf(NO_OPTIONS.(revoked := true, selfSigned := true)), w)
  {
    var v := ViewOf(NO_OPTIONS.(selfSigned := true));
    var r, s := w.flags[1], w.flags[2];
    TwoFlags(v, w);
    JoinCons(r, [s], "+");
    Assoc(domain, "+" + r, "+" + s);
    Assoc("+", r, "+" + s);
  }

  lemma TwoFlags(v: KeyView, w: Words)
    requires |w.flags| == 5 && v == KeyView(false, false, true, false, false, "", 0)
    ensures KeyParts(v, w) == [w.flags[2]]
    ensures KeyParts(v.(revoked := true), w) == [w.flags[1]] + [w.flags[2]]
  {
    var f := w.flags;
    var plain, revoked := FlagsOf(v), FlagsOf(v.(revoked := true));
    DropDrop(f, 1);
    DropDrop(f, 2);
    DropDrop(f, 3);
    DropDrop(f, 4);
    assert plain[1..] == [false, true, false, false];
    assert plain[1..][1..] == revoked[1..][1..] == [true, false, false];
    assert [true, false, false][1..] == [false, false] && [false, false][1..] == [false] && [false][1..] == [];
    assert Filter(f[4..], [false]) == [];
    assert Filter(f[3..], [false, false]) == [];
    assert Filter(f[2..], [true, false, false]) == [f[2]];
    assert Filter(f[1..], plain[1..]) == [f[2]];
    assert Filter(f[1..], revoked[1..]) == [f[1]] + [f[2]];
  }
}
