/** From the endpoint parts of a hostname to its certificate, TLS and ALPN configuration. */
module EndpointConfig {
  import opened Common
  import opened JsMaps
  import JsStrings
  import opened TlsMerge
  import opened TlsResolve

  /** What an endpoint declares; the ALPN protocols are those it pushes onto the preferences. */
  datatype TlsEndpoint = TlsEndpoint(
    sniPart: string,
    cert: Option<seq<Entry>>,
    tls: Option<seq<Entry>>,
    alpn: seq<string>)

  type Table = seq<TlsEndpoint>

  const MAX_SNI_PARTS := 4

  datatype ConfigError =
    | TooManyParts
    | DuplicateParts
    | UnknownPart(part: string)
    | Conflict(field: Field)
    | RejectTlsCombined

  datatype Config = Config(
    certOptions: Fields,
    tlsOptions: Fields,
    alpnPreferences: seq<string>,
    rejectTls: bool,
    requireClientCert: bool)

  /** Contributions carry values of the declared types, and certificate options no TLS versions. */
  predicate TypedEndpoint(e: TlsEndpoint) {
    && AllTyped(e.cert.GetOr([])) && AllTyped(e.tls.GetOr([]))
    && (forall x :: x in e.cert.GetOr([]) ==> x.field != EnabledVersions)
  }

  predicate TypedTable(table: Table) {
    forall e :: e in table ==> TypedEndpoint(e)
  }

  function FindEndpoint(table: Table, part: string): (r: Option<TlsEndpoint>)
    ensures r.Some? ==> r.value in table && r.value.sniPart == part
    ensures r.None? ==> forall e :: e in table ==> e.sniPart != part
  {
    if table == [] then None
    else if table[0].sniPart == part then Some(table[0])
    else FindEndpoint(table[1..], part)
  }

  function CertOf(table: Table, part: string): seq<Entry> {
    var e := FindEndpoint(table, part);
    if e.Some? then e.value.cert.GetOr([]) else []
  }

  function TlsOf(table: Table, part: string): seq<Entry> {
    var e := FindEndpoint(table, part);
    if e.Some? then e.value.tls.GetOr([]) else []
  }

  /** All that the parts contribute, in order. */
  function CertEntries(table: Table, parts: seq<string>): seq<Entry> {
    if parts == [] then [] else CertEntries(table, parts[..|parts| - 1]) + CertOf(table, parts[|parts| - 1])
  }

  function TlsEntries(table: Table, parts: seq<string>): seq<Entry> {
    if parts == [] then [] else TlsEntries(table, parts[..|parts| - 1]) + TlsOf(table, parts[|parts| - 1])
  }

  lemma {:induction false} EntriesTyped(table: Table, parts: seq<string>)
    requires TypedTable(table)
    ensures AllTyped(CertEntries(table, parts)) && AllTyped(TlsEntries(table, parts))
    ensures forall e :: e in CertEntries(table, parts) ==> e.field != EnabledVersions
  {
    if parts != [] {
      EntriesTyped(table, parts[..|parts| - 1]);
    }
  }

  // --- getEndpointConfig ---

  datatype Progress = Progress(cert: Fields, tls: Fields, alpn: seq<string>)

  predicate TypedProgress(p: Progress) {
    TypedFields(p.cert) && TypedFields(p.tls)
  }

  function MergePart(table: Table, p: Progress, part: string): (r: Result<Progress, ConfigError>)
    requires TypedTable(table) && TypedProgress(p)
    ensures r.Ok? ==> TypedProgress(r.value)
  {
    var endpoint := FindEndpoint(table, part);
    if endpoint.None? then Err(UnknownPart(part))
    else
      assert TypedEndpoint(endpoint.value);
      var cert := Merge(p.cert, CertOf(table, part));
      var tls := Merge(p.tls, TlsOf(table, part));
      if cert.conflict.Some? then Err(Conflict(cert.conflict.value))
      else if tls.conflict.Some? then Err(Conflict(tls.conflict.value))
      else Ok(Progress(cert.fields, tls.fields, p.alpn + endpoint.value.alpn))
  }

  function MergeParts(table: Table, parts: seq<string>): (r: Result<Progress, ConfigError>)
    requires TypedTable(table)
    ensures r.Ok? ==> TypedProgress(r.value)
  {
    if parts == [] then Ok(Progress(map[], map[], []))
    else
      var before := MergeParts(table, parts[..|parts| - 1]);
      if before.Err? then before else MergePart(table, before.value, parts[|parts| - 1])
  }

  function Finish(p: Progress, parts: nat): Result<Config, ConfigError>
    requires TypedProgress(p)
  {
    var tls := ResolveLevel(ResolveVersions(p.tls));
    var rejectTls := Get(tls, RejectTls) == Some(Flag(true));
    var requireClientCert := Get(tls, RequireClientCert) == Some(Flag(true));
    if rejectTls && parts > 1 then Err(RejectTlsCombined)
    else Ok(Config(p.cert, tls - {RejectTls, RequireClientCert}, p.alpn, rejectTls, requireClientCert))
  }

  function ConfigOf(table: Table, parts: seq<string>): Result<Config, ConfigError>
    requires TypedTable(table)
  {
    if |parts| > MAX_SNI_PARTS then Err(TooManyParts)
    else if !Distinct(parts) then Err(DuplicateParts)
    else
      var merged := MergeParts(table, parts);
      if merged.Err? then Err(merged.error) else Finish(merged.value, |parts|)
  }

  method GetEndpointConfig(table: Table, serverNameParts: seq<string>) returns (r: Result<Config, ConfigError>)
    requires TypedTable(table)
    ensures r == ConfigOf(table, serverNameParts)
  {
    var parts := serverNameParts;
    if |parts| > MAX_SNI_PARTS {
      return Err(TooManyParts);
    }
    if !Distinct(parts) {
      return Err(DuplicateParts);
    }
    var certOptions := new OptionsRecord();
    var tlsOptions := new OptionsRecord();
    var alpnPreferences: seq<string> := [];
    for i := 0 to |parts|
      invariant TypedFields(certOptions.fields) && TypedFields(tlsOptions.fields)
      invariant MergeParts(table, parts[..i]) == Ok(Progress(certOptions.fields, tlsOptions.fields, alpnPreferences))
      invariant fresh(certOptions) && fresh(tlsOptions) && certOptions != tlsOptions
    {
      assert parts[..i + 1][..i] == parts[..i];
      var endpoint := FindEndpoint(table, parts[i]);
      if endpoint.None? {
        FailsAt(table, parts, i + 1);
        return Err(UnknownPart(parts[i]));
      }
      assert TypedEndpoint(endpoint.value);
      var conflict := certOptions.MergeContribution(endpoint.value.cert);
      if conflict.Some? {
        FailsAt(table, parts, i + 1);
        return Err(Conflict(conflict.value));
      }
      conflict := tlsOptions.MergeContribution(endpoint.value.tls);
      if conflict.Some? {
        FailsAt(table, parts, i + 1);
        return Err(Conflict(conflict.value));
      }
      alpnPreferences := alpnPreferences + endpoint.value.alpn;
    }
    assert parts[..|parts|] == parts;
    r := FinishConfig(certOptions.fields, tlsOptions, alpnPreferences, |parts|);
  }

  /** The resolution after the loop, and the markers pulled out. */
  method FinishConfig(certOptions: Fields, tlsOptions: OptionsRecord, alpnPreferences: seq<string>, parts: nat)
    returns (r: Result<Config, ConfigError>)
    requires TypedFields(certOptions) && TypedFields(tlsOptions.fields)
    modifies tlsOptions
    ensures r == Finish(Progress(certOptions, old(tlsOptions.fields), alpnPreferences), parts)
  {
    tlsOptions.ResolveEnabledVersions();
    tlsOptions.ResolveSecurityLevel();
    var rejectTls := Get(tlsOptions.fields, RejectTls) == Some(Flag(true));
    var requireClientCert := Get(tlsOptions.fields, RequireClientCert) == Some(Flag(true));
    if rejectTls && parts > 1 {
      return Err(RejectTlsCombined);
    }
    return Ok(Config(certOptions, tlsOptions.fields - {RejectTls, RequireClientCert}, alpnPreferences,
                     rejectTls, requireClientCert));
  }

  lemma {:induction false} FailsAt(table: Table, parts: seq<string>, n: nat)
    requires TypedTable(table) && n <= |parts| && MergeParts(table, parts[..n]).Err?
    ensures MergeParts(table, parts) == MergeParts(table, parts[..n])
    decreases |parts| - n
  {
    if n == |parts| {
      assert parts[..n] == parts;
    } else {
      assert parts[..n + 1][..n] == parts[..n];
      FailsAt(table, parts, n + 1);
    }
  }

  // --- Which combinations are valid ---

  predicate AllKnown(table: Table, parts: seq<string>) {
    forall p :: p in parts ==> FindEndpoint(table, p).Some?
  }

  ghost predicate RejectsTls(table: Table, parts: seq<string>) {
    Entry(RejectTls, Some(Flag(true))) in TlsEntries(table, parts)
  }

  /** At most four distinct known parts, no two options that clash, and no rejected TLS beside other parts. */
  ghost predicate ValidParts(table: Table, parts: seq<string>) {
    && |parts| <= MAX_SNI_PARTS && Distinct(parts) && AllKnown(table, parts)
    && Compatible(CertEntries(table, parts)) && Compatible(TlsEntries(table, parts))
    && (RejectsTls(table, parts) ==> |parts| <= 1)
  }

  lemma KnownSnoc(table: Table, before: seq<string>, part: string)
    ensures AllKnown(table, before + [part]) <==> AllKnown(table, before) && FindEndpoint(table, part).Some?
  {
    assert part in before + [part];
  }

  lemma ContributionTyped(table: Table, part: string)
    requires TypedTable(table)
    ensures AllTyped(CertOf(table, part)) && AllTyped(TlsOf(table, part))
  {
    var e := FindEndpoint(table, part);
    assert e.Some? ==> TypedEndpoint(e.value);
  }

  /** Merging part by part is merging all contributions at once. */
  lemma {:induction false} PartsMerge(table: Table, parts: seq<string>)
    requires TypedTable(table)
    ensures AllTyped(CertEntries(table, parts)) && AllTyped(TlsEntries(table, parts))
    ensures var r := MergeParts(table, parts);
      var cert, tls := Merge(map[], CertEntries(table, parts)), Merge(map[], TlsEntries(table, parts));
      && (r.Ok? <==> AllKnown(table, parts) && cert.conflict.None? && tls.conflict.None?)
      && (r.Ok? ==> r.value.cert == cert.fields && r.value.tls == tls.fields)
  {
    EntriesTyped(table, parts);
    if parts != [] {
      var before, part := parts[..|parts| - 1], parts[|parts| - 1];
      assert parts == before + [part];
      PartsMerge(table, before);
      KnownSnoc(table, before, part);
      ContributionTyped(table, part);
      MergeThen(map[], CertEntries(table, before), CertOf(table, part));
      MergeThen(map[], TlsEntries(table, before), TlsOf(table, part));
    }
  }

  /** Resolution leaves a field alone that is not about versions, levels or ciphers. */
  lemma ResolutionKeeps(fields: Fields, k: Field)
    requires TypedFields(fields) && k !in {EnabledVersions, SecurityLevel, SecureOptions, MinVersion, Ciphers}
    ensures Get(ResolveLevel(ResolveVersions(fields)), k) == Get(fields, k)
  {
  }

  lemma MergedFlag(entries: seq<Entry>, k: Field)
    requires AllTyped(entries) && Compatible(entries) && k == RejectTls
    ensures Get(Merge(map[], entries).fields, k) == Some(Flag(true)) <==> Entry(k, Some(Flag(true))) in entries
  {
    MergeExact(entries);
    var fields := Merge(map[], entries).fields;
    var on := Entry(k, Some(Flag(true)));
    if on in entries {
      assert Mentions(entries, k);
      assert Totals(entries, k, fields[k]);
      assert !Clash(on, Entry(k, Some(fields[k])));
    } else if k in fields {
      assert Totals(entries, k, fields[k]);
    }
  }

  lemma RejectRead(table: Table, parts: seq<string>)
    requires TypedTable(table) && MergeParts(table, parts).Ok?
    ensures var tls := ResolveLevel(ResolveVersions(MergeParts(table, parts).value.tls));
            Get(tls, RejectTls) == Some(Flag(true)) <==> RejectsTls(table, parts)
  {
    PartsMerge(table, parts);
    var entries := TlsEntries(table, parts);
    MergeExact(entries);
    MergedFlag(entries, RejectTls);
    ResolutionKeeps(MergeParts(table, parts).value.tls, RejectTls);
  }

  /** A hostname's parts are accepted exactly when they are valid. */
  lemma ConfigExact(table: Table, parts: seq<string>)
    requires TypedTable(table)
    ensures ConfigOf(table, parts).Ok? <==> ValidParts(table, parts)
  {
    PartsMerge(table, parts);
    MergeExact(CertEntries(table, parts));
    MergeExact(TlsEntries(table, parts));
    if MergeParts(table, parts).Ok? {
      RejectRead(table, parts);
    }
  }

  // --- The order of the parts does not matter ---

  lemma {:induction false} EntryFrom(table: Table, parts: seq<string>, e: Entry)
    ensures e in CertEntries(table, parts) <==> exists p :: p in parts && e in CertOf(table, p)
    ensures e in TlsEntries(table, parts) <==> exists p :: p in parts && e in TlsOf(table, p)
  {
    if parts != [] {
      var before, part := parts[..|parts| - 1], parts[|parts| - 1];
      assert parts == before + [part];
      EntryFrom(table, before, e);
    }
  }

  lemma {:induction false} DistinctCounts(parts: seq<string>)
    ensures Distinct(parts) <==> forall p :: multiset(parts)[p] <= 1
  {
    if parts != [] {
      var head, tail := parts[0], parts[1..];
      assert parts == [head] + tail;
      DistinctCounts(tail);
      assert multiset(parts) == multiset{head} + multiset(tail);
      if forall p :: multiset(parts)[p] <= 1 {
        assert multiset(parts)[head] <= 1;
        forall p
          ensures multiset(tail)[p] <= 1
        {
          assert multiset(parts)[p] <= 1;
        }
      }
    }
  }

  lemma PermutationFacts(table: Table, ps: seq<string>, qs: seq<string>)
    requires multiset(ps) == multiset(qs)
    ensures |ps| == |qs| && (Distinct(ps) <==> Distinct(qs)) && (AllKnown(table, ps) <==> AllKnown(table, qs))
    ensures SameEntries(CertEntries(table, ps), CertEntries(table, qs))
    ensures SameEntries(TlsEntries(table, ps), TlsEntries(table, qs))
  {
    assert |multiset(ps)| == |ps| && |multiset(qs)| == |qs|;
    forall p
      ensures p in ps <==> p in qs
    {
      assert p in ps <==> p in multiset(ps);
      assert p in qs <==> p in multiset(qs);
    }
    DistinctCounts(ps);
    DistinctCounts(qs);
    forall e
      ensures e in CertEntries(table, ps) <==> e in CertEntries(table, qs)
      ensures e in TlsEntries(table, ps) <==> e in TlsEntries(table, qs)
    {
      EntryFrom(table, ps, e);
      EntryFrom(table, qs, e);
    }
  }

  lemma {:induction false} SameDisabled(mask: bv32, order: seq<Version>, a: seq<Version>, b: seq<Version>)
    requires forall v :: v in a <==> v in b
    ensures DisableOthers(mask, order, a) == DisableOthers(mask, order, b)
    ensures Lowest(order, a) == Lowest(order, b)
    decreases |order|
  {
    if order != [] {
      SameDisabled(mask, order[..|order| - 1], a, b);
      SameLowest(order, a, b);
    }
  }

  lemma {:induction false} SameLowest(order: seq<Version>, a: seq<Version>, b: seq<Version>)
    requires forall v :: v in a <==> v in b
    ensures Lowest(order, a) == Lowest(order, b)
  {
    if order != [] {
      SameLowest(order[1..], a, b);
    }
  }

  /** The order of the enabled versions disappears when they are resolved. */
  lemma ResolvedAlike(a: Fields, b: Fields)
    requires TypedFields(a) && TypedFields(b) && Equivalent(a, b)
    ensures ResolveVersions(a) == ResolveVersions(b)
  {
    if EnabledVersions in a {
      SameDisabled(BaseMask(a), VERSION_ORDER, a[EnabledVersions].versions, b[EnabledVersions].versions);
      assert a - {EnabledVersions} == b - {EnabledVersions};
    } else {
      assert a == b;
    }
  }

  /** For every permutation of the parts: the same success, the same certificate options, the same TLS options. */
  lemma PartOrderDoesNotMatter(table: Table, ps: seq<string>, qs: seq<string>)
    requires TypedTable(table) && multiset(ps) == multiset(qs)
    ensures var a, b := ConfigOf(table, ps), ConfigOf(table, qs);
      && (a.Ok? <==> b.Ok?)
      && (a.Ok? ==> a.value == b.value.(alpnPreferences := a.value.alpnPreferences))
  {
    PermutationFacts(table, ps, qs);
    ConfigExact(table, ps);
    ConfigExact(table, qs);
    assert RejectsTls(table, ps) <==> RejectsTls(table, qs);
    assert Compatible(CertEntries(table, ps)) <==> Compatible(CertEntries(table, qs));
    assert Compatible(TlsEntries(table, ps)) <==> Compatible(TlsEntries(table, qs));
    if ConfigOf(table, ps).Ok? {
      MergedAlike(table, ps, qs);
    }
  }

  lemma AlikeTls(xs: seq<Entry>, ys: seq<Entry>)
    requires AllTyped(xs) && AllTyped(ys) && SameEntries(xs, ys) && Merge(map[], xs).conflict.None?
    ensures ResolveVersions(Merge(map[], xs).fields) == ResolveVersions(Merge(map[], ys).fields)
  {
    OrderDoesNotMatter(xs, ys);
    ResolvedAlike(Merge(map[], xs).fields, Merge(map[], ys).fields);
  }

  lemma AlikeCert(xs: seq<Entry>, ys: seq<Entry>)
    requires AllTyped(xs) && AllTyped(ys) && SameEntries(xs, ys) && Merge(map[], xs).conflict.None?
    requires forall e :: e in xs ==> e.field != EnabledVersions
    ensures Merge(map[], xs).fields == Merge(map[], ys).fields
  {
    OrderDoesNotMatter(xs, ys);
    MergeExact(xs);
    assert !Mentions(xs, EnabledVersions);
  }

  lemma MergedAlike(table: Table, ps: seq<string>, qs: seq<string>)
    requires TypedTable(table) && multiset(ps) == multiset(qs)
    requires MergeParts(table, ps).Ok? && MergeParts(table, qs).Ok?
    ensures MergeParts(table, ps).value.cert == MergeParts(table, qs).value.cert
    ensures ResolveVersions(MergeParts(table, ps).value.tls) == ResolveVersions(MergeParts(table, qs).value.tls)
  {
    PermutationFacts(table, ps, qs);
    EntriesTyped(table, ps);
    PartsMerge(table, ps);
    PartsMerge(table, qs);
    AlikeCert(CertEntries(table, ps), CertEntries(table, qs));
    AlikeTls(TlsEntries(table, ps), TlsEntries(table, qs));
  }

  // --- What a configuration permits ---

  function FinalTls(entries: seq<Entry>): Fields
    requires AllTyped(entries)
  {
    ResolveLevel(ResolveVersions(Merge(map[], entries).fields)) - {RejectTls, RequireClientCert}
  }

  lemma ConfigTls(table: Table, parts: seq<string>)
    requires TypedTable(table) && ConfigOf(table, parts).Ok? && AllTyped(TlsEntries(table, parts))
    ensures ConfigOf(table, parts).value.tlsOptions == FinalTls(TlsEntries(table, parts))
    ensures Compatible(TlsEntries(table, parts))
  {
    PartsMerge(table, parts);
    MergeExact(TlsEntries(table, parts));
  }

  lemma FieldSurvives(fields: Fields, k: Field)
    requires TypedFields(fields) && k in {SecureOptions, MinVersion, MaxVersion}
    ensures Get(ResolveLevel(fields) - {RejectTls, RequireClientCert}, k) == Get(fields, k)
  {
  }

  // What the parts say about a version.

  ghost predicate Disables(entries: seq<Entry>, v: Version)
    requires AllTyped(entries)
  {
    exists e :: e in entries && e.field == SecureOptions && e.value.Some? && IsSet(e.value.value.bits, v)
  }

  ghost predicate CapsBelow(entries: seq<Entry>, v: Version)
    requires AllTyped(entries)
  {
    exists e :: e in entries && e.field == MaxVersion && e.value.Some? && Rank(e.value.value.version) < Rank(v)
  }

  ghost predicate StartsAbove(entries: seq<Entry>, v: Version)
    requires AllTyped(entries)
  {
    exists e :: e in entries && e.field == MinVersion && e.value.Some? && Rank(e.value.value.version) > Rank(v)
  }

  /** Some part sets a minimum no higher than v, or none does and v is at least the platform's. */
  ghost predicate Reaches(entries: seq<Entry>, v: Version)
    requires AllTyped(entries)
  {
    if Mentions(entries, MinVersion) then !StartsAbove(entries, v) else Rank(DEFAULT_MIN_VERSION) <= Rank(v)
  }

  /**
   * Nobody disables v or caps below it; and where some part lists versions, some part lists v, while otherwise v
   * is no lower than the minimum that a part sets or the platform has.
   */
  ghost predicate Offered(entries: seq<Entry>, v: Version)
    requires AllTyped(entries)
  {
    && !Disables(entries, v) && !CapsBelow(entries, v)
    && if Mentions(entries, EnabledVersions) then Enables(entries, v) else Reaches(entries, v)
  }

  /** An exclusive field of a merge has the value every entry for it has. */
  lemma OneValue(entries: seq<Entry>, k: Field, e: Entry)
    requires AllTyped(entries) && Compatible(entries) && Exclusive(k)
    requires e in entries && e.field == k && e.value.Some?
    ensures Get(Merge(map[], entries).fields, k) == e.value
  {
    MergeExact(entries);
    var fields := Merge(map[], entries).fields;
    assert Mentions(entries, k);
    assert Totals(entries, k, fields[k]);
    assert !Clash(e, Entry(k, Some(fields[k])));
  }

  lemma NoneSet(v: Version)
    ensures !IsSet(0, v)
  {
  }

  lemma MergedMask(entries: seq<Entry>, v: Version)
    requires AllTyped(entries) && Compatible(entries)
    ensures IsSet(BaseMask(Merge(map[], entries).fields), v) <==> Disables(entries, v)
  {
    MergeExact(entries);
    var fields := Merge(map[], entries).fields;
    NoneSet(v);
    if SecureOptions in fields {
      var given := Entry(SecureOptions, Some(fields[SecureOptions]));
      assert Totals(entries, SecureOptions, fields[SecureOptions]);
      assert given in entries;
      forall e | e in entries && e.field == SecureOptions && e.value.Some?
        ensures e.value == given.value
      {
        assert !Clash(e, given);
      }
    } else {
      assert !Mentions(entries, SecureOptions);
    }
  }

  lemma MergedMaximum(entries: seq<Entry>, v: Version)
    requires AllTyped(entries) && Compatible(entries)
    ensures WithinMaximum(Merge(map[], entries).fields, v) <==> !CapsBelow(entries, v)
  {
    MergeExact(entries);
    var fields := Merge(map[], entries).fields;
    if e :| e in entries && e.field == MaxVersion && e.value.Some? && Rank(e.value.value.version) < Rank(v) {
      OneValue(entries, MaxVersion, e);
    }
    if MaxVersion in fields {
      assert Totals(entries, MaxVersion, fields[MaxVersion]);
    }
  }

  lemma MergedMinimum(entries: seq<Entry>, v: Version)
    requires AllTyped(entries) && Compatible(entries)
    ensures Rank(Minimum(Merge(map[], entries).fields)) <= Rank(v) <==> Reaches(entries, v)
  {
    MergeExact(entries);
    var fields := Merge(map[], entries).fields;
    if e :| e in entries && e.field == MinVersion && e.value.Some? && Rank(e.value.value.version) > Rank(v) {
      OneValue(entries, MinVersion, e);
    }
    if MinVersion in fields {
      assert Totals(entries, MinVersion, fields[MinVersion]);
    }
  }

  lemma EntriesPermit(entries: seq<Entry>, v: Version)
    requires AllTyped(entries) && Compatible(entries)
    ensures Permitted(ResolveVersions(Merge(map[], entries).fields), v) <==> Offered(entries, v)
  {
    MergeExact(entries);
    var fields := Merge(map[], entries).fields;
    MergedMask(entries, v);
    MergedMaximum(entries, v);
    MergedMinimum(entries, v);
    assert EnabledVersions in fields <==> Mentions(entries, EnabledVersions);
    if EnabledVersions in fields {
      assert Totals(entries, EnabledVersions, fields[EnabledVersions]);
      PermittedExactly(fields, v);
    }
  }

  /** For every accepted combination: a version is permitted exactly when the parts offer it. */
  lemma ConfigPermits(table: Table, parts: seq<string>, v: Version)
    requires TypedTable(table) && ConfigOf(table, parts).Ok? && AllTyped(TlsEntries(table, parts))
    ensures TypedFields(ConfigOf(table, parts).value.tlsOptions)
    ensures Permitted(ConfigOf(table, parts).value.tlsOptions, v) <==> Offered(TlsEntries(table, parts), v)
  {
    var entries := TlsEntries(table, parts);
    ConfigTls(table, parts);
    EntriesPermit(entries, v);
    var resolved := ResolveVersions(Merge(map[], entries).fields);
    FieldSurvives(resolved, SecureOptions);
    FieldSurvives(resolved, MinVersion);
    FieldSurvives(resolved, MaxVersion);
    SamePermits(resolved, FinalTls(entries), v);
  }

  lemma SamePermits(a: Fields, b: Fields, v: Version)
    requires TypedFields(a) && TypedFields(b) && Get(a, SecureOptions) == Get(b, SecureOptions)
    requires Get(a, MinVersion) == Get(b, MinVersion) && Get(a, MaxVersion) == Get(b, MaxVersion)
    ensures Permitted(a, v) <==> Permitted(b, v)
  {
    assert BaseMask(a) == BaseMask(b) && Minimum(a) == Minimum(b);
  }

  /** With no part at all, as on the root domain, TLS 1.2 and 1.3 are permitted and nothing else. */
  lemma RootPermits(table: Table, v: Version)
    requires TypedTable(table)
    ensures ConfigOf(table, []).Ok? && TypedFields(ConfigOf(table, []).value.tlsOptions)
    ensures Permitted(ConfigOf(table, []).value.tlsOptions, v) <==> v == TLSv1_2 || v == TLSv1_3
  {
    ConfigExact(table, []);
    ConfigPermits(table, [], v);
  }

  /**
   * Where some part lists versions, no version is left exactly when each listed one is disabled by some part or
   * above some part's maximum, as TLS 1.3 is when combined with a cipher capped at TLS 1.2.
   */
  lemma NothingLeft(table: Table, parts: seq<string>)
    requires TypedTable(table) && ConfigOf(table, parts).Ok?
    requires AllTyped(TlsEntries(table, parts)) && Mentions(TlsEntries(table, parts), EnabledVersions)
    ensures TypedFields(ConfigOf(table, parts).value.tlsOptions)
    ensures (forall v :: !Permitted(ConfigOf(table, parts).value.tlsOptions, v)) <==>
      forall v :: Enables(TlsEntries(table, parts), v) ==>
        Disables(TlsEntries(table, parts), v) || CapsBelow(TlsEntries(table, parts), v)
  {
    var entries := TlsEntries(table, parts);
    ConfigPermits(table, parts, TLSv1);
    forall v
      ensures Permitted(ConfigOf(table, parts).value.tlsOptions, v) <==>
        Enables(entries, v) && !Disables(entries, v) && !CapsBelow(entries, v)
    {
      ConfigPermits(table, parts, v);
    }
  }

  /** A cipher list that asks for security level n at its end. */
  predicate EndsInLevel(list: string, n: int) {
    JsStrings.EndsWith(list, SECLEVEL + NumberText(n))
  }

  lemma LevelWritten(fields: Fields)
    requires TypedFields(fields) && SecurityLevel in fields
    ensures var r := Get(ResolveLevel(fields) - {RejectTls, RequireClientCert}, Ciphers);
            r.Some? && r.value.Text? && EndsInLevel(r.value.s, fields[SecurityLevel].n)
  {
    var base := StripLevels(if Ciphers in fields then fields[Ciphers].s else "DEFAULT", SECLEVEL);
    var suffix := SECLEVEL + NumberText(fields[SecurityLevel].n);
    assert (base + suffix)[|base|..] == suffix;
  }

  /** The lowest level asked for by any part, or 0 for a legacy version, ends the cipher list. */
  lemma ConfigLevel(table: Table, parts: seq<string>, n: int)
    requires TypedTable(table) && ConfigOf(table, parts).Ok?
    requires AllTyped(TlsEntries(table, parts)) && LowestRequested(TlsEntries(table, parts), n)
    ensures var r := Get(ConfigOf(table, parts).value.tlsOptions, Ciphers);
            r.Some? && r.value.Text? && EndsInLevel(r.value.s, n)
  {
    var entries := TlsEntries(table, parts);
    ConfigTls(table, parts);
    LevelExactly(entries);
    var fields := ResolveVersions(Merge(map[], entries).fields);
    if Entry(SecurityLevel, Some(Number(n))) in entries {
      assert Mentions(entries, SecurityLevel);
    }
    OneLowest(entries, n, fields[SecurityLevel].n);
    LevelWritten(fields);
  }

  lemma OneLowest(entries: seq<Entry>, m: int, n: int)
    requires AllTyped(entries) && LowestRequested(entries, m) && LowestRequested(entries, n)
    ensures m == n
  {
  }
}
