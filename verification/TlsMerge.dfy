/** Merging the options that endpoints contribute, field by field, and what the merged fields mean. */
module TlsMerge {
  import opened Common

  datatype Version = TLSv1 | TLSv1_1 | TLSv1_2 | TLSv1_3

  /** The fields the code names, and all others. */
  datatype Field =
    | EnabledVersions | SecurityLevel | SecureOptions | MinVersion | MaxVersion | Ciphers
    | RejectTls | RequireClientCert | RequiredType | SelfSigned
    | Named(name: string)

  datatype Value =
    | Text(s: string)
    | Number(n: int)
    | Flag(b: bool)
    | Versions(versions: seq<Version>)
    | Bound(version: Version)
    | Mask(bits: bv32)

  /** One property of a contribution. An absent value stands for undefined. */
  datatype Entry = Entry(field: Field, value: Option<Value>)

  type Fields = map<Field, Value>

  /** The declared type of a field, as far as the combiners rely on it. */
  predicate TypedAs(k: Field, v: Value) {
    match k
    case EnabledVersions => v.Versions?
    case SecurityLevel => v.Number?
    case SecureOptions => v.Mask?
    case MinVersion => v.Bound?
    case MaxVersion => v.Bound?
    case Ciphers => v.Text?
    case RejectTls => v.Flag?
    case RequireClientCert => v.Flag?
    case RequiredType => v.Text?
    case SelfSigned => v.Flag?
    case Named(_) => !v.Versions?
  }

  predicate Typed(e: Entry) {
    e.value.Some? ==> TypedAs(e.field, e.value.value)
  }

  predicate TypedFields(fields: Fields) {
    forall k :: k in fields ==> TypedAs(k, fields[k])
  }

  predicate AllTyped(entries: seq<Entry>) {
    forall e :: e in entries ==> Typed(e)
  }

  // --- mergeContribution ---

  function Min(a: int, b: int): int {
    if a <= b then a else b
  }

  predicate Exclusive(k: Field) {
    !k.EnabledVersions? && !k.SecurityLevel?
  }

  /** The value of a field already set, after another contribution to it; none if they conflict. */
  function Combine(k: Field, existing: Value, incoming: Value): Option<Value>
    requires TypedAs(k, existing) && TypedAs(k, incoming)
  {
    if k.EnabledVersions? then Some(Versions(existing.versions + incoming.versions))
    else if k.SecurityLevel? then Some(Number(Min(existing.n, incoming.n)))
    else if existing == incoming then Some(existing)
    else None
  }

  /** The accumulator, and the field at which merging stopped, if it did. */
  datatype Merged = Merged(fields: Fields, conflict: Option<Field>)

  function MergeEntry(fields: Fields, e: Entry): (m: Merged)
    requires TypedFields(fields) && Typed(e)
    ensures TypedFields(m.fields)
  {
    if e.value.None? then Merged(fields, None)
    else if e.field !in fields then Merged(fields[e.field := e.value.value], None)
    else
      var combined := Combine(e.field, fields[e.field], e.value.value);
      if combined.Some? then Merged(fields[e.field := combined.value], None) else Merged(fields, Some(e.field))
  }

  /** All entries in turn, up to the first conflict. */
  function Merge(fields: Fields, entries: seq<Entry>): (m: Merged)
    requires TypedFields(fields) && AllTyped(entries)
    ensures TypedFields(m.fields)
  {
    if entries == [] then Merged(fields, None)
    else
      var m := Merge(fields, entries[..|entries| - 1]);
      if m.conflict.Some? then m else MergeEntry(m.fields, entries[|entries| - 1])
  }

  // --- What a merge succeeds on, and what it yields ---

  ghost predicate Mentions(entries: seq<Entry>, k: Field) {
    exists e :: e in entries && e.field == k && e.value.Some?
  }

  /** No two entries give different values to a field that is not combinable. */
  ghost predicate Compatible(entries: seq<Entry>) {
    forall a, b :: a in entries && b in entries ==> !Clash(a, b)
  }

  ghost predicate Clash(a: Entry, b: Entry) {
    a.field == b.field && Exclusive(a.field) && a.value.Some? && b.value.Some? && a.value != b.value
  }

  /** v is the total of what the entries say about k. */
  ghost predicate Totals(entries: seq<Entry>, k: Field, v: Value)
    requires AllTyped(entries) && TypedAs(k, v)
  {
    match k
    case EnabledVersions => forall x :: x in v.versions <==> Enables(entries, x)
    case SecurityLevel => Entry(k, Some(v)) in entries && LowerBound(entries, v.n)
    case _ => Entry(k, Some(v)) in entries
  }

  ghost predicate Enables(entries: seq<Entry>, x: Version)
    requires AllTyped(entries)
  {
    exists e :: e in entries && e.field == EnabledVersions && e.value.Some? && x in e.value.value.versions
  }

  ghost predicate LowerBound(entries: seq<Entry>, n: int)
    requires AllTyped(entries)
  {
    forall e :: e in entries && e.field == SecurityLevel && e.value.Some? ==> n <= e.value.value.n
  }

  ghost predicate Summarises(fields: Fields, entries: seq<Entry>)
    requires TypedFields(fields) && AllTyped(entries)
  {
    forall k :: (k in fields <==> Mentions(entries, k)) && (k in fields ==> Totals(entries, k, fields[k]))
  }

  lemma MentionsSnoc(before: seq<Entry>, e: Entry, k: Field)
    ensures Mentions(before + [e], k) <==> Mentions(before, k) || (e.field == k && e.value.Some?)
  {
    if Mentions(before, k) {
      var x :| x in before && x.field == k && x.value.Some?;
      assert x in before + [e];
    }
    assert e in before + [e];
  }

  /** An entry that says nothing about k leaves its total as it is. */
  lemma TotalsOther(before: seq<Entry>, e: Entry, k: Field, v: Value)
    requires AllTyped(before + [e]) && AllTyped(before) && Typed(e) && TypedAs(k, v) && Totals(before, k, v)
    requires e.field != k || e.value.None?
    ensures Totals(before + [e], k, v)
  {
    if k.EnabledVersions? {
      forall x
        ensures x in v.versions <==> Enables(before + [e], x)
      {
        EnablesSnoc(before, e, x);
      }
    }
  }

  lemma EnablesSnoc(before: seq<Entry>, e: Entry, x: Version)
    requires AllTyped(before + [e]) && AllTyped(before) && Typed(e)
    ensures Enables(before + [e], x) <==>
      Enables(before, x) || (e.field == EnabledVersions && e.value.Some? && x in e.value.value.versions)
  {
    if Enables(before, x) {
      var y :| y in before && y.field == EnabledVersions && y.value.Some? && x in y.value.value.versions;
      assert y in before + [e];
    }
    assert e in before + [e];
  }

  lemma TotalsCombined(before: seq<Entry>, e: Entry, v: Value)
    requires AllTyped(before + [e]) && AllTyped(before) && Typed(e) && e.value.Some?
    requires TypedAs(e.field, v) && Totals(before, e.field, v) && Combine(e.field, v, e.value.value).Some?
    ensures Totals(before + [e], e.field, Combine(e.field, v, e.value.value).value)
  {
    if e.field.EnabledVersions? {
      forall x
        ensures x in v.versions + e.value.value.versions <==> Enables(before + [e], x)
      {
        EnablesSnoc(before, e, x);
      }
    }
    assert e in before + [e];
  }

  lemma TotalsFirst(before: seq<Entry>, e: Entry)
    requires AllTyped(before + [e]) && AllTyped(before) && Typed(e) && e.value.Some? && !Mentions(before, e.field)
    ensures Totals(before + [e], e.field, e.value.value)
  {
    assert e in before + [e];
    if e.field.EnabledVersions? {
      forall x
        ensures x in e.value.value.versions <==> Enables(before + [e], x)
      {
        EnablesSnoc(before, e, x);
      }
    }
  }

  lemma EntryMerged(before: seq<Entry>, fields: Fields, e: Entry)
    requires AllTyped(before + [e]) && AllTyped(before) && Typed(e) && TypedFields(fields) && Summarises(fields, before)
    requires MergeEntry(fields, e).conflict.None?
    ensures Summarises(MergeEntry(fields, e).fields, before + [e])
  {
    var after := MergeEntry(fields, e).fields;
    forall k
      ensures (k in after <==> Mentions(before + [e], k)) && (k in after ==> Totals(before + [e], k, after[k]))
    {
      MentionsSnoc(before, e, k);
      if k == e.field && e.value.Some? {
        if k in fields {
          TotalsCombined(before, e, fields[k]);
        } else {
          TotalsFirst(before, e);
        }
      } else if k in fields {
        TotalsOther(before, e, k, fields[k]);
      }
    }
  }

  lemma NoClash(before: seq<Entry>, fields: Fields, x: Entry, e: Entry)
    requires AllTyped(before) && Typed(e) && TypedFields(fields) && Summarises(fields, before) && Compatible(before)
    requires x in before && MergeEntry(fields, e).conflict.None?
    ensures !Clash(x, e) && !Clash(e, x)
  {
    if x.field == e.field && Exclusive(x.field) && x.value.Some? {
      assert Mentions(before, e.field);
      assert !Clash(x, Entry(e.field, Some(fields[e.field])));
    }
  }

  /** With the earlier entries merged, the next one conflicts exactly when it clashes with one of them. */
  lemma ConflictIsClash(before: seq<Entry>, fields: Fields, e: Entry)
    requires AllTyped(before + [e]) && AllTyped(before) && Typed(e) && TypedFields(fields)
    requires Summarises(fields, before) && Compatible(before)
    ensures MergeEntry(fields, e).conflict.None? <==> Compatible(before + [e])
  {
    assert e in before + [e];
    if MergeEntry(fields, e).conflict.None? {
      forall a, b | a in before + [e] && b in before + [e]
        ensures !Clash(a, b)
      {
        if a in before {
          NoClash(before, fields, a, e);
        }
        if b in before {
          NoClash(before, fields, b, e);
        }
      }
    } else {
      var x := Entry(e.field, Some(fields[e.field]));
      assert Totals(before, e.field, fields[e.field]);
      assert x in before + [e] && Clash(x, e);
    }
  }

  lemma CompatiblePrefix(before: seq<Entry>, e: Entry)
    requires Compatible(before + [e])
    ensures Compatible(before)
  {
    forall a, b | a in before && b in before
      ensures !Clash(a, b)
    {
      assert a in before + [e] && b in before + [e];
    }
  }

  /** Merging fails exactly when two entries clash, and otherwise yields the total of every field mentioned. */
  lemma {:induction false} MergeExact(entries: seq<Entry>)
    requires AllTyped(entries)
    ensures Merge(map[], entries).conflict.None? <==> Compatible(entries)
    ensures Compatible(entries) ==> Summarises(Merge(map[], entries).fields, entries)
  {
    if entries != [] {
      var before, e := entries[..|entries| - 1], entries[|entries| - 1];
      assert entries == before + [e];
      MergeExact(before);
      var m := Merge(map[], before);
      if Compatible(before) {
        ConflictIsClash(before, m.fields, e);
        if MergeEntry(m.fields, e).conflict.None? {
          EntryMerged(before, m.fields, e);
        }
      } else if Compatible(entries) {
        CompatiblePrefix(before, e);
      }
    }
  }

  lemma {:induction false} MergeThen(fields: Fields, first: seq<Entry>, second: seq<Entry>)
    requires TypedFields(fields) && AllTyped(first) && AllTyped(second)
    ensures AllTyped(first + second)
    ensures var m := Merge(fields, first);
            Merge(fields, first + second) == if m.conflict.Some? then m else Merge(m.fields, second)
  {
    if second == [] {
      assert first + second == first;
    } else {
      var n := |second| - 1;
      MergeThen(fields, first, second[..n]);
      assert (first + second)[..|first + second| - 1] == first + second[..n];
      assert (first + second)[|first + second| - 1] == second[n];
    }
  }

  // --- Order does not matter ---

  ghost predicate SameEntries(xs: seq<Entry>, ys: seq<Entry>) {
    forall e :: e in xs <==> e in ys
  }

  /** Equal but for the order and the repetitions of the enabled versions. */
  ghost predicate Equivalent(a: Fields, b: Fields)
    requires TypedFields(a) && TypedFields(b)
  {
    && (forall k :: k in a <==> k in b)
    && (forall k :: k in a && k != EnabledVersions ==> a[k] == b[k])
    && (EnabledVersions in a ==> forall x :: x in a[EnabledVersions].versions <==> x in b[EnabledVersions].versions)
  }

  lemma SameTotals(xs: seq<Entry>, ys: seq<Entry>, k: Field, v: Value, w: Value)
    requires AllTyped(xs) && AllTyped(ys) && SameEntries(xs, ys) && Compatible(xs) && TypedAs(k, v) && TypedAs(k, w)
    requires Totals(xs, k, v) && Totals(ys, k, w)
    ensures k != EnabledVersions ==> v == w
    ensures k == EnabledVersions ==> forall x :: x in v.versions <==> x in w.versions
  {
    if k.EnabledVersions? {
      forall x
        ensures x in v.versions <==> x in w.versions
      {
        assert Enables(xs, x) <==> Enables(ys, x);
      }
    } else if k.SecurityLevel? {
      assert v.n <= w.n && w.n <= v.n;
    } else {
      assert !Clash(Entry(k, Some(v)), Entry(k, Some(w)));
    }
  }

  /** Merging the same entries in another order conflicts in the same cases and yields equivalent fields. */
  lemma OrderDoesNotMatter(xs: seq<Entry>, ys: seq<Entry>)
    requires AllTyped(xs) && AllTyped(ys) && SameEntries(xs, ys)
    ensures var m, n := Merge(map[], xs), Merge(map[], ys);
      && (m.conflict.None? <==> n.conflict.None?)
      && (m.conflict.None? ==> Equivalent(m.fields, n.fields))
  {
    MergeExact(xs);
    MergeExact(ys);
    assert Compatible(xs) <==> Compatible(ys);
    if Compatible(xs) {
      var a, b := Merge(map[], xs).fields, Merge(map[], ys).fields;
      forall k
        ensures k in a <==> k in b
      {
        assert Mentions(xs, k) <==> Mentions(ys, k);
      }
      forall k | k in a
        ensures k != EnabledVersions ==> a[k] == b[k]
        ensures k == EnabledVersions ==> forall x :: x in a[k].versions <==> x in b[k].versions
      {
        SameTotals(xs, ys, k, a[k], b[k]);
      }
    }
  }
}
