/** Every output of an accepted combination of endpoint parts, read off what the parts contribute. */
module EndpointOutputs {
  import opened Common
  import opened JsMaps
  import opened Numerals
  import opened TlsMerge
  import opened TlsResolve
  import opened EndpointConfig

  /** A part names the first endpoint of that name in the table. */
  lemma {:induction false} FindsFirst(table: Table, part: string, i: nat)
    requires i < |table| && table[i].sniPart == part && forall j :: 0 <= j < i ==> table[j].sniPart != part
    ensures FindEndpoint(table, part) == Some(table[i])
  {
    if i > 0 {
      FindsFirst(table[1..], part, i - 1);
    }
  }

  // --- Certificate options, markers and protocols ---

  /** The protocols of the parts, in the order of the parts. */
  function Protocols(table: Table, parts: seq<string>): seq<string> {
    if parts == [] then []
    else
      var e := FindEndpoint(table, parts[0]);
      (if e.Some? then e.value.alpn else []) + Protocols(table, parts[1..])
  }

  lemma {:induction false} ProtocolsSnoc(table: Table, before: seq<string>, part: string)
    requires FindEndpoint(table, part).Some?
    ensures Protocols(table, before + [part]) == Protocols(table, before) + FindEndpoint(table, part).value.alpn
  {
    var all, last := before + [part], FindEndpoint(table, part).value.alpn;
    if before == [] {
      assert all == [part] && all[1..] == [];
    } else {
      var first := FindEndpoint(table, before[0]);
      assert all[0] == before[0] && all[1..] == before[1..] + [part];
      ProtocolsSnoc(table, before[1..], part);
      Assoc(if first.Some? then first.value.alpn else [], Protocols(table, before[1..]), last);
    }
  }

  lemma PartProtocols(table: Table, p: Progress, part: string)
    requires TypedTable(table) && TypedProgress(p) && MergePart(table, p, part).Ok?
    ensures var e := FindEndpoint(table, part);
      e.Some? && MergePart(table, p, part).value.alpn == p.alpn + e.value.alpn
  {
  }

  lemma {:induction false} PartsProtocols(table: Table, parts: seq<string>)
    requires TypedTable(table) && MergeParts(table, parts).Ok?
    ensures MergeParts(table, parts).value.alpn == Protocols(table, parts)
  {
    if parts != [] {
      var before, part := parts[..|parts| - 1], parts[|parts| - 1];
      PartsProtocols(table, before);
      PartProtocols(table, MergeParts(table, before).value, part);
      ProtocolsSnoc(table, before, part);
      assert parts == before + [part];
    }
  }

  ghost predicate Sets(entries: seq<Entry>, k: Field) {
    Entry(k, Some(Flag(true))) in entries
  }

  /**
   * The certificate options are the totals of all that the parts contribute to the certificate, the markers are set
   * exactly when some part sets them, and the protocols are those of the parts in order.
   */
  lemma ConfigOutputs(table: Table, parts: seq<string>)
    requires TypedTable(table) && ConfigOf(table, parts).Ok?
    ensures AllTyped(CertEntries(table, parts)) && AllTyped(TlsEntries(table, parts))
    ensures var c := ConfigOf(table, parts).value;
      && TypedFields(c.certOptions) && Summarises(c.certOptions, CertEntries(table, parts))
      && (c.rejectTls <==> Sets(TlsEntries(table, parts), RejectTls))
      && (c.requireClientCert <==> Sets(TlsEntries(table, parts), RequireClientCert))
      && c.alpnPreferences == Protocols(table, parts)
  {
    PartsMerge(table, parts);
    MergeExact(CertEntries(table, parts));
    MergeExact(TlsEntries(table, parts));
    PartsProtocols(table, parts);
    var entries := TlsEntries(table, parts);
    FlagRead(entries, RejectTls);
    FlagRead(entries, RequireClientCert);
  }

  lemma FlagRead(entries: seq<Entry>, k: Field)
    requires AllTyped(entries) && Compatible(entries) && (k == RejectTls || k == RequireClientCert)
    ensures var resolved := ResolveLevel(ResolveVersions(Merge(map[], entries).fields));
      Get(resolved, k) == Some(Flag(true)) <==> Sets(entries, k)
  {
    MergeExact(entries);
    var fields := Merge(map[], entries).fields;
    var on := Entry(k, Some(Flag(true)));
    if on in entries {
      OneValue(entries, k, on);
    }
    if k in fields {
      assert Totals(entries, k, fields[k]);
    }
    ResolutionKeeps(fields, k);
  }

  // --- TLS options ---

  /** The field has the value that the parts give it, and is absent where they give none. */
  ghost predicate AsGiven(fields: Fields, entries: seq<Entry>, k: Field) {
    match Get(fields, k)
    case Some(v) => Entry(k, Some(v)) in entries
    case None => !Mentions(entries, k)
  }

  lemma MergedAsGiven(entries: seq<Entry>, k: Field)
    requires AllTyped(entries) && Compatible(entries) && Exclusive(k)
    ensures AsGiven(Merge(map[], entries).fields, entries, k)
  {
    MergeExact(entries);
    var fields := Merge(map[], entries).fields;
    if k in fields {
      assert Totals(entries, k, fields[k]);
    }
  }

  /** The fields that are for the server itself, or are spelled out in others. */
  predicate Internal(k: Field) {
    k in {RejectTls, RequireClientCert, EnabledVersions, SecurityLevel}
  }

  /** The fields that resolution writes. */
  predicate Written(k: Field) {
    k in {SecureOptions, MinVersion, Ciphers}
  }

  lemma Removed(fields: Fields)
    requires TypedFields(fields)
    ensures SecurityLevel !in ResolveLevel(ResolveVersions(fields))
    ensures EnabledVersions !in ResolveLevel(ResolveVersions(fields))
  {
  }

  /** No field for the server itself is left, and every field that resolution does not write is as the parts give it. */
  lemma OtherFields(table: Table, parts: seq<string>, k: Field)
    requires TypedTable(table) && ConfigOf(table, parts).Ok? && !Written(k)
    ensures var out := ConfigOf(table, parts).value.tlsOptions;
      if Internal(k) then k !in out else AsGiven(out, TlsEntries(table, parts), k)
  {
    PartsMerge(table, parts);
    ConfigTls(table, parts);
    if !Internal(k) {
      var entries := TlsEntries(table, parts);
      MergedAsGiven(entries, k);
      ResolutionKeeps(Merge(map[], entries).fields, k);
    } else {
      Removed(Merge(map[], TlsEntries(table, parts)).fields);
    }
  }

  // The minimum version.

  ghost predicate LowestEnabled(entries: seq<Entry>, v: Version)
    requires AllTyped(entries)
  {
    Enables(entries, v) && forall w :: Enables(entries, w) ==> Rank(v) <= Rank(w)
  }

  lemma ResolvedMinimum(fields: Fields)
    requires TypedFields(fields)
    ensures Get(ResolveVersions(fields), MinVersion) ==
      if EnabledVersions in fields && Lowest(VERSION_ORDER, fields[EnabledVersions].versions).Some?
      then Some(Bound(Lowest(VERSION_ORDER, fields[EnabledVersions].versions).value))
      else Get(fields, MinVersion)
  {
  }

  /** The versions listed by any part, as the merge holds them. */
  lemma MergedVersions(entries: seq<Entry>, v: Version)
    requires AllTyped(entries) && Compatible(entries)
    ensures var fields := Merge(map[], entries).fields;
      Enables(entries, v) <==> EnabledVersions in fields && v in fields[EnabledVersions].versions
  {
    MergeExact(entries);
    var fields := Merge(map[], entries).fields;
    if Enables(entries, v) {
      assert Mentions(entries, EnabledVersions);
    }
    if EnabledVersions in fields {
      assert Totals(entries, EnabledVersions, fields[EnabledVersions]);
    }
  }

  /** The minimum is the lowest version listed, or as the parts give it where none is listed. */
  lemma MinimumExactly(table: Table, parts: seq<string>)
    requires TypedTable(table) && ConfigOf(table, parts).Ok? && AllTyped(TlsEntries(table, parts))
    ensures var (out, entries) := (ConfigOf(table, parts).value.tlsOptions, TlsEntries(table, parts));
      if exists v :: Enables(entries, v)
      then exists v :: LowestEnabled(entries, v) && Get(out, MinVersion) == Some(Bound(v))
      else AsGiven(out, entries, MinVersion)
  {
    var entries := TlsEntries(table, parts);
    ConfigTls(table, parts);
    MergedAsGiven(entries, MinVersion);
    var fields := Merge(map[], entries).fields;
    ResolvedMinimum(fields);
    FieldSurvives(ResolveVersions(fields), MinVersion);
    forall v
      ensures Enables(entries, v) <==> EnabledVersions in fields && v in fields[EnabledVersions].versions
    {
      MergedVersions(entries, v);
    }
    if EnabledVersions in fields {
      LowestIsLowest(fields[EnabledVersions].versions);
      var lowest := Lowest(VERSION_ORDER, fields[EnabledVersions].versions);
      assert lowest.Some? ==> LowestEnabled(entries, lowest.value);
    }
  }

  // The disable mask.

  const VERSION_FLAGS: bv32 := 0x3C00_0000

  /** The bits that have nothing to do with versions. */
  function OtherBits(mask: bv32): bv32 {
    mask & !VERSION_FLAGS
  }

  lemma FlagIsNoOther(mask: bv32, v: Version)
    ensures OtherBits(mask | DisableFlag(v)) == OtherBits(mask)
  {
  }

  lemma {:induction false} OthersKept(mask: bv32, order: seq<Version>, enabled: seq<Version>)
    ensures OtherBits(DisableOthers(mask, order, enabled)) == OtherBits(mask)
  {
    if order != [] {
      var before := order[..|order| - 1];
      OthersKept(mask, before, enabled);
      FlagIsNoOther(DisableOthers(mask, before, enabled), order[|order| - 1]);
    }
  }

  /** The mask that the parts give, 0 where they give none. */
  ghost predicate GivenMask(entries: seq<Entry>, mask: bv32) {
    Entry(SecureOptions, Some(Mask(mask))) in entries || (!Mentions(entries, SecureOptions) && mask == 0)
  }

  /**
   * With versions listed, a version's flag is set exactly when some part sets it or no part lists the version, and all
   * other bits are as the parts give them; with none listed the whole mask is.
   */
  ghost predicate MaskAs(out: Fields, entries: seq<Entry>)
    requires AllTyped(entries)
  {
    if Mentions(entries, EnabledVersions) then
      exists given, mask :: GivenMask(entries, given) && MaskFrom(given, mask, entries) &&
        Get(out, SecureOptions) == Some(Mask(mask))
    else AsGiven(out, entries, SecureOptions)
  }

  ghost predicate MaskFrom(given: bv32, mask: bv32, entries: seq<Entry>)
    requires AllTyped(entries)
  {
    OtherBits(mask) == OtherBits(given) && forall v :: IsSet(mask, v) <==> IsSet(given, v) || !Enables(entries, v)
  }

  lemma SetExactly(given: bv32, enabled: seq<Version>, v: Version)
    ensures IsSet(DisableOthers(given, VERSION_ORDER, enabled), v) <==> IsSet(given, v) || v !in enabled
  {
    DisabledExactly(given, VERSION_ORDER, enabled, v);
    InOrder(v);
  }

  lemma MaskOfListed(given: bv32, enabled: seq<Version>, entries: seq<Entry>)
    requires AllTyped(entries) && forall v :: Enables(entries, v) <==> v in enabled
    ensures MaskFrom(given, DisableOthers(given, VERSION_ORDER, enabled), entries)
  {
    OthersKept(given, VERSION_ORDER, enabled);
    var mask := DisableOthers(given, VERSION_ORDER, enabled);
    forall v
      ensures IsSet(mask, v) <==> IsSet(given, v) || !Enables(entries, v)
    {
      SetExactly(given, enabled, v);
    }
  }

  lemma ResolvedMask(entries: seq<Entry>)
    requires AllTyped(entries) && Compatible(entries) && Mentions(entries, EnabledVersions)
    ensures var fields := Merge(map[], entries).fields;
      EnabledVersions in fields &&
      MaskFrom(BaseMask(fields),
               DisableOthers(BaseMask(fields), VERSION_ORDER, fields[EnabledVersions].versions), entries)
  {
    MergeExact(entries);
    var fields := Merge(map[], entries).fields;
    var enabled := fields[EnabledVersions].versions;
    forall v
      ensures Enables(entries, v) <==> v in enabled
    {
      MergedVersions(entries, v);
    }
    MaskOfListed(BaseMask(fields), enabled, entries);
  }

  lemma MergedMaskGiven(entries: seq<Entry>)
    requires AllTyped(entries) && Compatible(entries)
    ensures GivenMask(entries, BaseMask(Merge(map[], entries).fields))
  {
    MergedAsGiven(entries, SecureOptions);
  }

  lemma MaskField(fields: Fields)
    requires TypedFields(fields)
    ensures Get(ResolveVersions(fields), SecureOptions) ==
      if EnabledVersions in fields
      then Some(Mask(DisableOthers(BaseMask(fields), VERSION_ORDER, fields[EnabledVersions].versions)))
      else Get(fields, SecureOptions)
  {
  }

  lemma MaskExactly(table: Table, parts: seq<string>)
    requires TypedTable(table) && ConfigOf(table, parts).Ok? && AllTyped(TlsEntries(table, parts))
    ensures MaskAs(ConfigOf(table, parts).value.tlsOptions, TlsEntries(table, parts))
  {
    var entries := TlsEntries(table, parts);
    ConfigTls(table, parts);
    var fields := Merge(map[], entries).fields;
    MergedAsGiven(entries, SecureOptions);
    MergedMaskGiven(entries);
    MaskField(fields);
    FieldSurvives(ResolveVersions(fields), SecureOptions);
    if Mentions(entries, EnabledVersions) {
      ResolvedMask(entries);
    } else {
      MergeExact(entries);
    }
  }

  /** The flags are OpenSSL's. */
  lemma Flags()
    ensures DisableFlag(TLSv1) == 0x0400_0000 && DisableFlag(TLSv1_1) == 0x1000_0000
    ensures DisableFlag(TLSv1_2) == 0x0800_0000 && DisableFlag(TLSv1_3) == 0x2000_0000
  {
  }

  // The cipher list.

  /** The list that a level is written behind: the one the parts give, or OpenSSL's default. */
  ghost predicate BaseList(entries: seq<Entry>, list: string) {
    Entry(Ciphers, Some(Text(list))) in entries || (!Mentions(entries, Ciphers) && list == "DEFAULT")
  }

  lemma LevelBehind(fields: Fields, list: string)
    requires TypedFields(fields) && SecurityLevel in fields
    requires Get(fields, Ciphers) == Some(Text(list)) || (Ciphers !in fields && list == "DEFAULT")
    ensures Get(ResolveLevel(fields) - {RejectTls, RequireClientCert}, Ciphers) ==
      Some(Text(StripLevels(list, "@SECLEVEL=") + ("@SECLEVEL=" + NumberText(fields[SecurityLevel].n))))
  {
  }

  lemma NoLevel(fields: Fields)
    requires TypedFields(fields) && SecurityLevel !in fields
    ensures Get(ResolveLevel(fields) - {RejectTls, RequireClientCert}, Ciphers) == Get(fields, Ciphers)
  {
  }

  /**
   * Where some part asks for a level or lists a legacy version, the list of the parts, or the default one, without
   * its levels, and then the lowest level; otherwise the list is as the parts give it.
   */
  ghost predicate CiphersAs(out: Fields, entries: seq<Entry>)
    requires AllTyped(entries)
  {
    if Mentions(entries, SecurityLevel) || Legacy(entries) then
      exists list, n :: BaseList(entries, list) && LowestRequested(entries, n) &&
        Get(out, Ciphers) == Some(Text(StripLevels(list, "@SECLEVEL=") + ("@SECLEVEL=" + NumberText(n))))
    else AsGiven(out, entries, Ciphers)
  }

  lemma CiphersMerged(entries: seq<Entry>) returns (list: string)
    requires AllTyped(entries) && Compatible(entries)
    ensures var ciphers := Get(ResolveVersions(Merge(map[], entries).fields), Ciphers);
      BaseList(entries, list) && (ciphers == Some(Text(list)) || (ciphers.None? && list == "DEFAULT"))
    ensures AsGiven(ResolveVersions(Merge(map[], entries).fields), entries, Ciphers)
  {
    MergedAsGiven(entries, Ciphers);
    var fields := Merge(map[], entries).fields;
    VersionsKeepCiphers(fields);
    list := if Ciphers in fields then fields[Ciphers].s else "DEFAULT";
  }

  lemma VersionsKeepCiphers(fields: Fields)
    requires TypedFields(fields)
    ensures Get(ResolveVersions(fields), Ciphers) == Get(fields, Ciphers)
  {
  }

  lemma CiphersExactly(table: Table, parts: seq<string>)
    requires TypedTable(table) && ConfigOf(table, parts).Ok? && AllTyped(TlsEntries(table, parts))
    ensures CiphersAs(ConfigOf(table, parts).value.tlsOptions, TlsEntries(table, parts))
  {
    var entries := TlsEntries(table, parts);
    ConfigTls(table, parts);
    LevelExactly(entries);
    var list := CiphersMerged(entries);
    var fields := ResolveVersions(Merge(map[], entries).fields);
    if SecurityLevel in fields {
      LevelBehind(fields, list);
    } else {
      NoLevel(fields);
    }
  }

  // --- Errors ---

  /** Refusals in the order of the checks: the number of parts, a repeated part, the first bad part, rejected TLS. */
  lemma RefusedExactly(table: Table, parts: seq<string>)
    requires TypedTable(table)
    ensures var r := ConfigOf(table, parts);
      && (r == Err(TooManyParts) <==> |parts| > 4)
      && (r == Err(DuplicateParts) <==> |parts| <= 4 && !Distinct(parts))
      && (r == Err(RejectTlsCombined) <==>
           && |parts| <= 4 && Distinct(parts) && AllKnown(table, parts) && RejectsTls(table, parts) && |parts| > 1
           && Compatible(CertEntries(table, parts)) && Compatible(TlsEntries(table, parts)))
  {
    PartsMerge(table, parts);
    MergeExact(CertEntries(table, parts));
    MergeExact(TlsEntries(table, parts));
    if MergeParts(table, parts).Ok? {
      RejectRead(table, parts);
    } else {
      MergeErrors(table, parts);
    }
  }

  lemma {:induction false} MergeErrors(table: Table, parts: seq<string>)
    requires TypedTable(table) && MergeParts(table, parts).Err?
    ensures MergeParts(table, parts).error.UnknownPart? || MergeParts(table, parts).error.Conflict?
  {
    if MergeParts(table, parts[..|parts| - 1]).Err? {
      MergeErrors(table, parts[..|parts| - 1]);
    }
  }

  /** Two of the entries give this field different values. */
  ghost predicate ClashOn(entries: seq<Entry>, k: Field) {
    exists a, b :: a in entries && b in entries && a.field == k && Clash(a, b)
  }

  /** The field at which a merge stops is one on which two entries clash. */
  lemma {:induction false} ConflictNamed(entries: seq<Entry>)
    requires AllTyped(entries) && Merge(map[], entries).conflict.Some?
    ensures ClashOn(entries, Merge(map[], entries).conflict.value)
  {
    var before, e := entries[..|entries| - 1], entries[|entries| - 1];
    assert entries == before + [e];
    var m := Merge(map[], before);
    if m.conflict.Some? {
      ConflictNamed(before);
      var a, b :| a in before && b in before && a.field == m.conflict.value && Clash(a, b);
      assert a in entries && b in entries;
    } else {
      MergeExact(before);
      var x := Entry(e.field, Some(m.fields[e.field]));
      assert Totals(before, e.field, m.fields[e.field]);
      assert x in entries && e in entries && Clash(x, e);
    }
  }

  /** The part at which merging stops: the parts before it are fine, and it is unknown, or clashes with them. */
  predicate StopsAt(table: Table, parts: seq<string>, i: nat)
    requires TypedTable(table)
  {
    i < |parts| && MergeParts(table, parts[..i]).Ok? && MergeParts(table, parts[..i + 1]).Err?
  }

  /** The error fits the last of the parts: it is unknown, or two of all their options clash on the field named. */
  ghost predicate Fits(table: Table, parts: seq<string>, error: ConfigError) {
    && parts != []
    && match error
       case UnknownPart(p) => p == parts[|parts| - 1] && FindEndpoint(table, p).None?
       case Conflict(k) => ClashOn(CertEntries(table, parts), k) || ClashOn(TlsEntries(table, parts), k)
       case _ => false
  }

  lemma StopKind(table: Table, before: seq<string>, part: string)
    requires TypedTable(table) && MergeParts(table, before).Ok? && MergeParts(table, before + [part]).Err?
    ensures Fits(table, before + [part], MergeParts(table, before + [part]).error)
  {
    var parts := before + [part];
    assert parts[..|parts| - 1] == before;
    PartsMerge(table, before);
    PartsMerge(table, parts);
    ContributionTyped(table, part);
    MergeThen(map[], CertEntries(table, before), CertOf(table, part));
    MergeThen(map[], TlsEntries(table, before), TlsOf(table, part));
    var cert, tls := Merge(map[], CertEntries(table, parts)), Merge(map[], TlsEntries(table, parts));
    if cert.conflict.Some? {
      ConflictNamed(CertEntries(table, parts));
    }
    if tls.conflict.Some? {
      ConflictNamed(TlsEntries(table, parts));
    }
  }

  lemma {:induction false} FirstStop(table: Table, parts: seq<string>) returns (i: nat)
    requires TypedTable(table) && MergeParts(table, parts).Err?
    ensures StopsAt(table, parts, i) && MergeParts(table, parts) == MergeParts(table, parts[..i + 1])
  {
    var n := |parts| - 1;
    if MergeParts(table, parts[..n]).Ok? {
      i := n;
      assert parts[..n + 1] == parts;
    } else {
      i := FirstStop(table, parts[..n]);
      assert parts[..n][..i] == parts[..i] && parts[..n][..i + 1] == parts[..i + 1];
    }
  }

  /** Any other refusal is that of the first part that is unknown or clashes, and says so. */
  lemma RefusedAt(table: Table, parts: seq<string>) returns (i: nat)
    requires TypedTable(table) && |parts| <= 4 && Distinct(parts)
    requires ConfigOf(table, parts).Err? && ConfigOf(table, parts) != Err(RejectTlsCombined)
    ensures StopsAt(table, parts, i)
    ensures Fits(table, parts[..i + 1], ConfigOf(table, parts).error)
  {
    i := FirstStop(table, parts);
    assert parts[..i + 1] == parts[..i] + [parts[i]];
    StopKind(table, parts[..i], parts[i]);
  }
}
