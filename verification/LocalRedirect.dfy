/** Redirecting local-only hostnames to an explicit untrusted root, and why one redirect is enough. */
module LocalRedirect {
  import opened Common
  import opened JsMaps
  import opened JsStrings
  import opened SniPrefix
  import opened TlsMerge
  import opened TlsResolve
  import opened EndpointConfig
  import opened EndpointOutputs

  const LOCAL := "local"
  const UNTRUSTED_ROOT := "untrusted-root"

  /** The certificate options of all known parts, or the field at which two of them conflict. */
  method GetCombinedCertOptions(table: Table, prefixParts: seq<string>) returns (r: Result<Fields, Field>)
    requires TypedTable(table) && AllTyped(CertEntries(table, prefixParts))
    ensures r == Combined(table, prefixParts)
  {
    var certOptions := new OptionsRecord();
    for i := 0 to |prefixParts|
      invariant TypedFields(certOptions.fields) && fresh(certOptions)
      invariant AllTyped(CertEntries(table, prefixParts[..i]))
      invariant Merge(map[], CertEntries(table, prefixParts[..i])) == Merged(certOptions.fields, None)
    {
      var before, part := prefixParts[..i], prefixParts[i];
      assert prefixParts[..i + 1][..i] == before;
      EntriesTyped(table, prefixParts[..i + 1]);
      ContributionTyped(table, part);
      MergeThen(map[], CertEntries(table, before), CertOf(table, part));
      var endpoint := FindEndpoint(table, part);
      var conflict := certOptions.MergeContribution(if endpoint.Some? then endpoint.value.cert else None);
      if conflict.Some? {
        ConflictStays(table, prefixParts, i + 1);
        return Err(conflict.value);
      }
    }
    assert prefixParts[..|prefixParts|] == prefixParts;
    return Ok(certOptions.fields);
  }

  lemma {:induction false} ConflictStays(table: Table, parts: seq<string>, n: nat)
    requires TypedTable(table) && n <= |parts|
    requires AllTyped(CertEntries(table, parts[..n])) && Merge(map[], CertEntries(table, parts[..n])).conflict.Some?
    requires AllTyped(CertEntries(table, parts))
    ensures Merge(map[], CertEntries(table, parts)).conflict == Merge(map[], CertEntries(table, parts[..n])).conflict
    decreases |parts| - n
  {
    if n == |parts| {
      assert parts[..n] == parts;
    } else {
      assert parts[..n + 1][..n] == parts[..n];
      EntriesTyped(table, parts[..n + 1]);
      ContributionTyped(table, parts[n]);
      MergeThen(map[], CertEntries(table, parts[..n]), CertOf(table, parts[n]));
      ConflictStays(table, parts, n + 1);
    }
  }

  function Combined(table: Table, parts: seq<string>): Result<Fields, Field>
    requires AllTyped(CertEntries(table, parts))
  {
    var m := Merge(map[], CertEntries(table, parts));
    if m.conflict.Some? then Err(m.conflict.value) else Ok(m.fields)
  }

  function GetLocalOnlyRedirectHost(table: Table, parts: seq<string>, usingPublicCA: bool, root: string)
    : Result<Option<string>, Field>
    requires AllTyped(CertEntries(table, parts))
  {
    if !usingPublicCA then Ok(None)
    else
      var options := Combined(table, parts);
      if options.Err? then Err(options.error)
      else if || Get(options.value, RequiredType) != Some(Text(LOCAL))
              || Get(options.value, SelfSigned) == Some(Flag(true))
              || UNTRUSTED_ROOT in parts then Ok(None)
      else Ok(Some(HostOf(parts + [UNTRUSTED_ROOT], root)))
  }

  // --- The endpoint table ---

  /** Names that survive being joined with "--" and put in front of a domain. */
  predicate CleanNames(table: Table) {
    forall e :: e in table ==> CleanName(e.sniPart)
  }

  predicate CleanName(name: string) {
    name != "" && '.' !in name && !Has(name, "--") && !EndsWith(name, "-")
  }

  const EXPLICIT: seq<Entry> := [Entry(RequiredType, Some(Text(LOCAL))), Entry(SelfSigned, Some(Flag(false)))]

  predicate HasUntrustedRoot(table: Table) {
    FindEndpoint(table, UNTRUSTED_ROOT) == Some(TlsEndpoint(UNTRUSTED_ROOT, Some(EXPLICIT), None, []))
  }

  predicate EndpointTable(table: Table) {
    TypedTable(table) && CleanNames(table) && HasUntrustedRoot(table)
  }

  // --- The redirect target ---

  lemma {:induction false} CleanParts(table: Table, parts: seq<string>)
    requires CleanNames(table) && AllKnown(table, parts)
    ensures DashSafe(parts)
  {
    if parts != [] {
      assert parts[0] in parts;
      assert FindEndpoint(table, parts[0]).value in table;
      CleanParts(table, parts[1..]);
    }
  }

  /** For valid parts: redirected exactly when some part is local-only and none is explicit about the root. */
  lemma RedirectExact(table: Table, parts: seq<string>, usingPublicCA: bool, root: string)
    requires TypedTable(table) && ConfigOf(table, parts).Ok?
    ensures AllTyped(CertEntries(table, parts))
    ensures var r := GetLocalOnlyRedirectHost(table, parts, usingPublicCA, root);
      r == Ok(if usingPublicCA && Entry(RequiredType, Some(Text(LOCAL))) in CertEntries(table, parts)
                 && Entry(SelfSigned, Some(Flag(true))) !in CertEntries(table, parts) && UNTRUSTED_ROOT !in parts
              then Some(HostOf(parts + [UNTRUSTED_ROOT], root)) else None)
  {
    EntriesTyped(table, parts);
    ConfigExact(table, parts);
    var entries := CertEntries(table, parts);
    MergeExact(entries);
    MergedValue(entries, RequiredType, Text(LOCAL));
    MergedValue(entries, SelfSigned, Flag(true));
  }

  /** The options of the parts ask for a local CA and for nothing that is explicit about the root. */
  ghost predicate LocalOnly(entries: seq<Entry>, parts: seq<string>) {
    && Entry(RequiredType, Some(Text("local"))) in entries && Entry(SelfSigned, Some(Flag(true))) !in entries
    && "untrusted-root" !in parts
  }

  /**
   * For any parts at all, also repeated, unknown or too many: an error exactly if a public CA is used and two of the
   * certificate options clash, which the error names; and otherwise a redirect exactly for local-only parts.
   */
  lemma RedirectOfAny(table: Table, parts: seq<string>, usingPublicCA: bool, root: string)
    requires TypedTable(table) && AllTyped(CertEntries(table, parts))
    ensures var entries := CertEntries(table, parts);
      var r := GetLocalOnlyRedirectHost(table, parts, usingPublicCA, root);
      && (r.Err? <==> usingPublicCA && !Compatible(entries))
      && (r.Err? ==> ClashOn(entries, r.error))
      && (r.Ok? ==> r.value == if usingPublicCA && LocalOnly(entries, parts)
                               then Some(Join(parts + ["untrusted-root"], "--") + ("." + root)) else None)
  {
    var entries := CertEntries(table, parts);
    MergeExact(entries);
    if Compatible(entries) {
      MergedValue(entries, RequiredType, Text(LOCAL));
      MergedValue(entries, SelfSigned, Flag(true));
    } else {
      ConflictNamed(entries);
    }
  }

  lemma MergedValue(entries: seq<Entry>, k: Field, v: Value)
    requires AllTyped(entries) && Compatible(entries) && Exclusive(k)
    ensures Get(Merge(map[], entries).fields, k) == Some(v) <==> Entry(k, Some(v)) in entries
  {
    MergeExact(entries);
    var fields := Merge(map[], entries).fields;
    if Entry(k, Some(v)) in entries {
      assert Mentions(entries, k);
      assert Totals(entries, k, fields[k]);
      assert !Clash(Entry(k, Some(v)), Entry(k, Some(fields[k])));
    } else if k in fields {
      assert Totals(entries, k, fields[k]);
    }
  }

  lemma ExplicitCompatible(entries: seq<Entry>)
    requires AllTyped(entries) && Compatible(entries)
    requires Entry(RequiredType, Some(Text(LOCAL))) in entries && Entry(SelfSigned, Some(Flag(true))) !in entries
    ensures Compatible(entries + EXPLICIT)
  {
    forall a, b | a in entries + EXPLICIT && b in entries + EXPLICIT
      ensures !Clash(a, b)
    {
      if a in entries && b in entries {
      } else if a in entries {
        ExplicitAgrees(entries, a, b);
      } else if b in entries {
        ExplicitAgrees(entries, b, a);
      }
    }
  }

  lemma ExplicitAgrees(entries: seq<Entry>, a: Entry, b: Entry)
    requires AllTyped(entries) && Compatible(entries)
    requires Entry(RequiredType, Some(Text(LOCAL))) in entries && Entry(SelfSigned, Some(Flag(true))) !in entries
    requires a in entries && b in EXPLICIT
    ensures !Clash(a, b) && !Clash(b, a)
  {
    assert Typed(a);
    if b.field == RequiredType {
      assert !Clash(a, Entry(RequiredType, Some(Text(LOCAL))));
      assert b == Entry(RequiredType, Some(Text(LOCAL)));
    } else if a.field == SelfSigned && a.value.Some? {
      assert a.value == Some(Flag(a.value.value.b));
    }
  }

  lemma EntriesWithRoot(table: Table, parts: seq<string>)
    requires HasUntrustedRoot(table)
    ensures CertEntries(table, parts + [UNTRUSTED_ROOT]) == CertEntries(table, parts) + EXPLICIT
    ensures TlsEntries(table, parts + [UNTRUSTED_ROOT]) == TlsEntries(table, parts)
  {
    assert (parts + [UNTRUSTED_ROOT])[..|parts|] == parts;
    assert TlsEntries(table, parts) + [] == TlsEntries(table, parts);
  }

  /**
   * A valid local-only hostname redirects to one that parses to its parts and untrusted-root, and is not
   * redirected again. The target is itself valid exactly when there was room for a part and TLS is not rejected.
   */
  lemma RedirectOnce(table: Table, parts: seq<string>, root: string, host: string)
    requires EndpointTable(table) && ConfigOf(table, parts).Ok? && AllTyped(CertEntries(table, parts))
    requires GetLocalOnlyRedirectHost(table, parts, true, root) == Ok(Some(host))
    ensures GetSNIPrefixParts(host, root) == parts + [UNTRUSTED_ROOT]
    ensures ConfigOf(table, parts + [UNTRUSTED_ROOT]).Ok? <==> |parts| < MAX_SNI_PARTS && !RejectsTls(table, parts)
    ensures AllTyped(CertEntries(table, parts + [UNTRUSTED_ROOT]))
    ensures GetLocalOnlyRedirectHost(table, parts + [UNTRUSTED_ROOT], true, root) == Ok(None)
  {
    var target := parts + [UNTRUSTED_ROOT];
    RedirectExact(table, parts, true, root);
    ConfigExact(table, parts);
    ConfigExact(table, target);
    EntriesTyped(table, target);
    EntriesWithRoot(table, parts);
    ExplicitCompatible(CertEntries(table, parts));
    MergeExact(CertEntries(table, target));
    KnownSnoc(table, parts, UNTRUSTED_ROOT);
    DistinctSnoc(parts, UNTRUSTED_ROOT);
    CleanParts(table, target);
    TargetPrintable(table, target);
    SniRoundTrip(target, root);
    NotAlone(table, parts);
  }

  lemma TargetPrintable(table: Table, parts: seq<string>)
    requires CleanNames(table) && AllKnown(table, parts) && DashSafe(parts)
    ensures Printable(parts)
  {
    if |parts| == 1 {
      assert parts[0] in parts;
      assert FindEndpoint(table, parts[0]).value in table;
    }
  }

  /** With no parts nothing is local-only. */
  lemma NotAlone(table: Table, parts: seq<string>)
    ensures Entry(RequiredType, Some(Text(LOCAL))) in CertEntries(table, parts) ==> parts != []
  {
  }
}
