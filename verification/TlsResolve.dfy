/** From merged fields to OpenSSL options: disabled versions, minimum version, and the security level suffix. */
module TlsResolve {
  import opened Common
  import opened JsStrings
  import opened Numerals
  import opened TlsMerge

  const VERSION_ORDER := [TLSv1, TLSv1_1, TLSv1_2, TLSv1_3]

  /** OpenSSL's SSL_OP_NO_TLSv1, _1, _2 and _3. */
  function DisableFlag(v: Version): bv32 {
    match v
    case TLSv1 => 0x0400_0000
    case TLSv1_1 => 0x1000_0000
    case TLSv1_2 => 0x0800_0000
    case TLSv1_3 => 0x2000_0000
  }

  predicate IsSet(mask: bv32, v: Version) {
    mask & DisableFlag(v) != 0
  }

  function Rank(v: Version): nat {
    match v
    case TLSv1 => 0
    case TLSv1_1 => 1
    case TLSv1_2 => 2
    case TLSv1_3 => 3
  }

  function Get(fields: Fields, k: Field): Option<Value> {
    if k in fields then Some(fields[k]) else None
  }

  // --- resolveEnabledVersions ---

  function DisableOthers(mask: bv32, order: seq<Version>, enabled: seq<Version>): bv32 {
    if order == [] then mask
    else
      var m, v := DisableOthers(mask, order[..|order| - 1], enabled), order[|order| - 1];
      if v in enabled then m else m | DisableFlag(v)
  }

  function Lowest(order: seq<Version>, enabled: seq<Version>): Option<Version> {
    if order == [] then None
    else if order[0] in enabled then Some(order[0])
    else Lowest(order[1..], enabled)
  }

  function BaseMask(fields: Fields): bv32
    requires TypedFields(fields)
  {
    if SecureOptions in fields then fields[SecureOptions].bits else 0
  }

  function ResolveVersions(fields: Fields): (r: Fields)
    requires TypedFields(fields)
    ensures TypedFields(r)
  {
    if EnabledVersions !in fields then fields
    else
      var enabled := fields[EnabledVersions].versions;
      var mask := DisableOthers(BaseMask(fields), VERSION_ORDER, enabled);
      var disabled := (fields - {EnabledVersions})[SecureOptions := Mask(mask)];
      var lowest := Lowest(VERSION_ORDER, enabled);
      var bounded := if lowest.Some? then disabled[MinVersion := Bound(lowest.value)] else disabled;
      if lowest == Some(TLSv1) || lowest == Some(TLSv1_1) then
        bounded[SecurityLevel := Number(if SecurityLevel in fields then Min(fields[SecurityLevel].n, 0) else 0)]
      else bounded
  }

  /** The platform's minimum, tls.DEFAULT_MIN_VERSION, where the options set none. */
  const DEFAULT_MIN_VERSION := TLSv1_2

  function Minimum(fields: Fields): Version
    requires TypedFields(fields)
  {
    if MinVersion in fields then fields[MinVersion].version else DEFAULT_MIN_VERSION
  }

  /** OpenSSL may negotiate v: it is not disabled, not below the minimum and not above the maximum. */
  predicate Permitted(fields: Fields, v: Version)
    requires TypedFields(fields)
  {
    !IsSet(BaseMask(fields), v) && Rank(Minimum(fields)) <= Rank(v) && WithinMaximum(fields, v)
  }

  predicate WithinMaximum(fields: Fields, v: Version)
    requires TypedFields(fields)
  {
    MaxVersion in fields ==> Rank(v) <= Rank(fields[MaxVersion].version)
  }

  lemma Distributes(mask: bv32, a: bv32, b: bv32)
    ensures (mask | b) & a == (mask & a) | (b & a)
  {
  }

  lemma NeitherSet(x: bv32, y: bv32)
    ensures x | y == 0 <==> x == 0 && y == 0
  {
  }

  lemma FlagsApart(v: Version, w: Version)
    ensures DisableFlag(w) & DisableFlag(v) != 0 <==> v == w
  {
  }

  lemma FlagsAreDistinctBits(mask: bv32, v: Version, w: Version)
    ensures IsSet(mask | DisableFlag(w), v) <==> IsSet(mask, v) || v == w
  {
    var a, b := DisableFlag(v), DisableFlag(w);
    Distributes(mask, a, b);
    NeitherSet(mask & a, b & a);
    FlagsApart(v, w);
  }

  lemma OneMore(mask: bv32, w: Version, enabled: seq<Version>, v: Version)
    ensures IsSet(if w in enabled then mask else mask | DisableFlag(w), v) <==>
      IsSet(mask, v) || (v == w && w !in enabled)
  {
    FlagsAreDistinctBits(mask, v, w);
  }

  lemma {:induction false} DisabledExactly(mask: bv32, order: seq<Version>, enabled: seq<Version>, v: Version)
    ensures IsSet(DisableOthers(mask, order, enabled), v) <==> IsSet(mask, v) || (v in order && v !in enabled)
  {
    if order != [] {
      var before, last := order[..|order| - 1], order[|order| - 1];
      assert order == before + [last];
      DisabledExactly(mask, before, enabled, v);
      OneMore(DisableOthers(mask, before, enabled), last, enabled, v);
    }
  }

  lemma InOrder(v: Version)
    ensures v in VERSION_ORDER
  {
    assert VERSION_ORDER[Rank(v)] == v;
  }

  lemma LowestIsLowest(enabled: seq<Version>)
    ensures var lowest := Lowest(VERSION_ORDER, enabled);
      && (lowest.Some? ==> lowest.value in enabled)
      && (forall v :: v in enabled ==> lowest.Some? && Rank(lowest.value) <= Rank(v))
  {
    var o := VERSION_ORDER;
    DropDrop(o, 1);
    DropDrop(o, 2);
    DropDrop(o, 3);
    assert o[4..] == [];
    assert Lowest(o[3..], enabled) == if o[3] in enabled then Some(o[3]) else None;
    assert Lowest(o[2..], enabled) == if o[2] in enabled then Some(o[2]) else Lowest(o[3..], enabled);
    assert Lowest(o[1..], enabled) == if o[1] in enabled then Some(o[1]) else Lowest(o[2..], enabled);
    forall v | v in enabled
      ensures o[Rank(v)] == v
    {
      InOrder(v);
    }
  }

  /** After resolution exactly the listed versions are permitted, minus any that were disabled or capped out. */
  lemma PermittedExactly(fields: Fields, v: Version)
    requires TypedFields(fields) && EnabledVersions in fields
    ensures Permitted(ResolveVersions(fields), v) <==>
      v in fields[EnabledVersions].versions && !IsSet(BaseMask(fields), v) && WithinMaximum(fields, v)
  {
    var enabled := fields[EnabledVersions].versions;
    InOrder(v);
    LowestIsLowest(enabled);
    DisabledExactly(BaseMask(fields), VERSION_ORDER, enabled, v);
  }

  ghost predicate Legacy(entries: seq<Entry>)
    requires AllTyped(entries)
  {
    Enables(entries, TLSv1) || Enables(entries, TLSv1_1)
  }

  lemma LegacyExact(fields: Fields, entries: seq<Entry>)
    requires AllTyped(entries) && TypedFields(fields) && Summarises(fields, entries)
    ensures EnabledVersions in fields ==>
      (Legacy(entries) <==> Lowest(VERSION_ORDER, fields[EnabledVersions].versions) in {Some(TLSv1), Some(TLSv1_1)})
    ensures Legacy(entries) ==> EnabledVersions in fields
  {
    if Legacy(entries) {
      assert Mentions(entries, EnabledVersions);
    }
    if EnabledVersions in fields {
      var enabled := fields[EnabledVersions].versions;
      LowestIsLowest(enabled);
      assert Totals(entries, EnabledVersions, fields[EnabledVersions]);
      assert TLSv1 in enabled <==> Enables(entries, TLSv1);
      assert TLSv1_1 in enabled <==> Enables(entries, TLSv1_1);
    }
  }

  /** n is the lowest of the levels asked for, where a legacy version asks for 0. */
  ghost predicate LowestRequested(entries: seq<Entry>, n: int)
    requires AllTyped(entries)
  {
    && LowerBound(entries, n)
    && (Legacy(entries) ==> n <= 0)
    && (Entry(SecurityLevel, Some(Number(n))) in entries || (Legacy(entries) && n == 0))
  }

  lemma LevelExactly(entries: seq<Entry>)
    requires AllTyped(entries) && Compatible(entries)
    ensures var fields := ResolveVersions(Merge(map[], entries).fields);
      && (SecurityLevel in fields <==> Mentions(entries, SecurityLevel) || Legacy(entries))
      && (SecurityLevel in fields ==> LowestRequested(entries, fields[SecurityLevel].n))
  {
    MergeExact(entries);
    var fields := Merge(map[], entries).fields;
    LegacyExact(fields, entries);
    assert SecurityLevel in fields <==> Mentions(entries, SecurityLevel);
    if SecurityLevel in fields {
      assert Totals(entries, SecurityLevel, fields[SecurityLevel]);
    } else {
      forall e | e in entries && e.field == SecurityLevel
        ensures e.value.None?
      {
      }
    }
  }

  // --- resolveSecurityLevel ---

  const SECLEVEL := "@SECLEVEL="

  function AfterDigits(s: string): (r: string)
    ensures |r| <= |s|
  {
    if s != [] && '0' <= s[0] <= '9' then AfterDigits(s[1..]) else s
  }

  predicate LevelAt(s: string, marker: string) {
    StartsWith(s, marker) && |marker| < |s| && '0' <= s[|marker|] <= '9'
  }

  /** Every marker followed by digits is taken out. */
  function StripLevels(s: string, marker: string): string
    requires marker != ""
    decreases |s|
  {
    if s == "" then ""
    else if LevelAt(s, marker) then StripLevels(AfterDigits(s[|marker|..]), marker)
    else [s[0]] + StripLevels(s[1..], marker)
  }

  function NumberText(n: int): string {
    if n < 0 then "-" + Decimal(-n) else Decimal(n)
  }

  function ResolveLevel(fields: Fields): (r: Fields)
    requires TypedFields(fields)
    ensures TypedFields(r)
  {
    if SecurityLevel !in fields then fields
    else
      var base := StripLevels(if Ciphers in fields then fields[Ciphers].s else "DEFAULT", SECLEVEL);
      (fields - {SecurityLevel})[Ciphers := Text(base + (SECLEVEL + NumberText(fields[SecurityLevel].n)))]
  }

  lemma {:induction false} AfterAllDigits(digits: string)
    requires IsDecimal(digits)
    ensures AfterDigits(digits) == ""
  {
    if digits != "" {
      AfterAllDigits(digits[1..]);
    }
  }

  lemma OtherStart(s: string, marker: string)
    requires s != "" && marker != "" && s[0] != marker[0]
    ensures !StartsWith(s, marker)
  {
    assert |marker| <= |s| ==> s[..|marker|][0] == s[0];
  }

  /** A cipher list with at most one level, at its end, loses just that level. */
  lemma {:induction false} StripLast(list: string, marker: string, digits: string)
    requires marker != "" && marker[0] !in list && IsDecimal(digits)
    ensures StripLevels(list, marker) == list
    ensures digits != "" ==> StripLevels(list + (marker + digits), marker) == list
  {
    var s := list + (marker + digits);
    if list == "" {
      if digits != "" {
        assert s == marker + digits;
        assert s[..|marker|] == marker && s[|marker|..] == digits && s[|marker|] == digits[0];
        AfterAllDigits(digits);
      }
    } else {
      assert list[0] != marker[0];
      assert s[0] == list[0] && s[1..] == list[1..] + (marker + digits);
      StripLast(list[1..], marker, digits);
      assert list == [list[0]] + list[1..];
      OtherStart(s, marker);
      OtherStart(list, marker);
    }
  }

  /** In any text: what comes before the first level stays, the level goes, and so on; without one all stays. */
  lemma {:induction false} StripExactly(s: string, marker: string, i: nat)
    requires marker != "" && i <= |s| && forall j :: 0 <= j < i ==> !LevelAt(s[j..], marker)
    ensures LevelAt(s[i..], marker) ==>
      StripLevels(s, marker) == s[..i] + StripLevels(AfterDigits(s[i..][|marker|..]), marker)
    ensures i == |s| ==> StripLevels(s, marker) == s
    decreases i
  {
    assert s[0..] == s;
    if i > 0 {
      var rest := s[1..];
      forall j | 0 <= j < i - 1
        ensures !LevelAt(rest[j..], marker)
      {
        assert rest[j..] == s[j + 1..];
      }
      StripExactly(rest, marker, i - 1);
      assert !LevelAt(s[0..], marker);
      assert rest[i - 1..] == s[i..] && s[..i] == [s[0]] + rest[..i - 1];
      var onward := if LevelAt(s[i..], marker) then AfterDigits(s[i..][|marker|..]) else "";
      Assoc([s[0]], rest[..i - 1], StripLevels(onward, marker));
      assert s == [s[0]] + rest;
    }
  }

  /** The levels in the cipher list are replaced by the merged one; a single one at its end just changes. */
  lemma LevelReplaces(fields: Fields, list: string, digits: string)
    requires TypedFields(fields) && SecurityLevel in fields && Ciphers in fields
    ensures SecurityLevel !in ResolveLevel(fields)
    ensures Get(ResolveLevel(fields), Ciphers) ==
      Some(Text(StripLevels(fields[Ciphers].s, SECLEVEL) + (SECLEVEL + NumberText(fields[SecurityLevel].n))))
    ensures && '@' !in list && IsDecimal(digits)
            && fields[Ciphers].s == (if digits == "" then list else list + (SECLEVEL + digits))
            ==> StripLevels(fields[Ciphers].s, SECLEVEL) == list
  {
    if '@' !in list && IsDecimal(digits) {
      StripLast(list, SECLEVEL, digits);
    }
  }

  method DisableAllOthers(base: bv32, order: seq<Version>, enabled: seq<Version>) returns (secureOptions: bv32)
    ensures secureOptions == DisableOthers(base, order, enabled)
  {
    secureOptions := base;
    for i := 0 to |order|
      invariant secureOptions == DisableOthers(base, order[..i], enabled)
    {
      assert order[..i + 1][..i] == order[..i];
      if order[i] !in enabled {
        secureOptions := secureOptions | DisableFlag(order[i]);
      }
    }
    assert order[..|order|] == order;
  }

  // --- The record that endpoints contribute to ---

  class OptionsRecord {
    var fields: Fields

    constructor ()
      ensures fields == map[]
    {
      fields := map[];
    }

    method MergeContribution(contribution: Option<seq<Entry>>) returns (conflict: Option<Field>)
      requires TypedFields(fields) && AllTyped(contribution.GetOr([]))
      modifies this
      ensures TypedFields(fields)
      ensures Merged(fields, conflict) == Merge(old(fields), contribution.GetOr([]))
    {
      conflict := None;
      if contribution.None? {
        return;
      }
      var entries := contribution.value;
      for i := 0 to |entries|
        invariant TypedFields(fields)
        invariant AllTyped(entries[..i]) && Merge(old(fields), entries[..i]) == Merged(fields, None)
      {
        var key, value := entries[i].field, entries[i].value;
        assert entries[..i + 1][..i] == entries[..i];
        assert Typed(entries[i]);
        if value.Some? {
          if key !in fields {
            fields := fields[key := value.value];
          } else {
            var combined := Combine(key, fields[key], value.value);
            if combined.None? {
              conflict := Some(key);
              StopsAt(old(fields), entries, i + 1);
              return;
            }
            fields := fields[key := combined.value];
          }
        }
      }
      assert entries[..|entries|] == entries;
    }

    method ResolveEnabledVersions()
      requires TypedFields(fields)
      modifies this
      ensures TypedFields(fields) && fields == ResolveVersions(old(fields))
    {
      if EnabledVersions !in fields {
        return;
      }
      var enabled := fields[EnabledVersions].versions;
      var secureOptions := DisableAllOthers(BaseMask(fields), VERSION_ORDER, enabled);
      fields := (fields - {EnabledVersions})[SecureOptions := Mask(secureOptions)];
      var lowest := Lowest(VERSION_ORDER, enabled);
      if lowest.Some? {
        fields := fields[MinVersion := Bound(lowest.value)];
      }
      if lowest == Some(TLSv1) || lowest == Some(TLSv1_1) {
        var level := if SecurityLevel in fields then Min(fields[SecurityLevel].n, 0) else 0;
        fields := fields[SecurityLevel := Number(level)];
      }
    }

    method ResolveSecurityLevel()
      requires TypedFields(fields)
      modifies this
      ensures TypedFields(fields) && fields == ResolveLevel(old(fields))
    {
      if SecurityLevel !in fields {
        return;
      }
      var level := fields[SecurityLevel].n;
      fields := fields - {SecurityLevel};
      var base := StripLevels(if Ciphers in fields then fields[Ciphers].s else "DEFAULT", SECLEVEL);
      fields := fields[Ciphers := Text(base + (SECLEVEL + NumberText(level)))];
    }
  }

  /** A conflict among the first n entries stops the merge of all of them. */
  lemma {:induction false} StopsAt(fields: Fields, entries: seq<Entry>, n: nat)
    requires TypedFields(fields) && AllTyped(entries) && n <= |entries| && Merge(fields, entries[..n]).conflict.Some?
    ensures Merge(fields, entries) == Merge(fields, entries[..n])
  {
    MergeThen(fields, entries[..n], entries[n..]);
    assert entries == entries[..n] + entries[n..];
  }
}
