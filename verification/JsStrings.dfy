/** The string operations the server relies on: indexOf, split and join, on any element type. */
module JsStrings {
  import opened Common

  predicate At<T(==)>(s: seq<T>, p: seq<T>, i: nat) {
    i + |p| <= |s| && s[i..i + |p|] == p
  }

  /** indexOf: the leftmost occurrence at or after `from`. */
  function Find<T(==)>(s: seq<T>, p: seq<T>, from: nat): (r: Option<nat>)
    ensures r.Some? ==> from <= r.value && At(s, p, r.value)
    decreases |s| - from
  {
    if from + |p| > |s| then None
    else if At(s, p, from) then Some(from)
    else Find(s, p, from + 1)
  }

  predicate Has<T(==)>(s: seq<T>, p: seq<T>) {
    Find(s, p, 0).Some?
  }

  predicate StartsWith<T(==)>(s: seq<T>, p: seq<T>) {
    |p| <= |s| && s[..|p|] == p
  }

  predicate EndsWith<T(==)>(s: seq<T>, p: seq<T>) {
    |p| <= |s| && s[|s| - |p|..] == p
  }

  function Split<T(==)>(s: seq<T>, sep: seq<T>): (parts: seq<seq<T>>)
    requires sep != []
    ensures parts != []
    decreases |s|
  {
    var i := Find(s, sep, 0);
    if i.None? then [s] else [s[..i.value]] + Split(s[i.value + |sep|..], sep)
  }

  function Join<T>(parts: seq<seq<T>>, sep: seq<T>): seq<T> {
    if parts == [] then []
    else if |parts| == 1 then parts[0]
    else parts[0] + (sep + Join(parts[1..], sep))
  }

  // --- Occurrences ---

  lemma {:induction false} FindNone<T>(s: seq<T>, p: seq<T>, from: nat)
    requires Find(s, p, from).None?
    ensures forall j: nat :: from <= j ==> !At(s, p, j)
    decreases |s| - from
  {
    if from + |p| <= |s| {
      FindNone(s, p, from + 1);
    }
  }

  lemma {:induction false} FindFirst<T>(s: seq<T>, p: seq<T>, from: nat)
    requires Find(s, p, from).Some?
    ensures forall j: nat :: from <= j < Find(s, p, from).value ==> !At(s, p, j)
    decreases |s| - from
  {
    if !At(s, p, from) {
      FindFirst(s, p, from + 1);
    }
  }

  lemma {:induction false} FindIs<T>(s: seq<T>, p: seq<T>, from: nat, k: nat)
    requires from <= k && At(s, p, k) && forall j: nat :: from <= j < k ==> !At(s, p, j)
    ensures Find(s, p, from) == Some(k)
    decreases k - from
  {
    if from < k {
      FindIs(s, p, from + 1, k);
    }
  }

  lemma {:induction false} FindAbsent<T>(s: seq<T>, p: seq<T>, from: nat)
    requires forall j: nat :: from <= j ==> !At(s, p, j)
    ensures Find(s, p, from).None?
    decreases |s| - from
  {
    if from + |p| <= |s| {
      FindAbsent(s, p, from + 1);
    }
  }

  lemma AtPrefix<T>(a: seq<T>, b: seq<T>, p: seq<T>, i: nat)
    requires i + |p| <= |a|
    ensures At(a + b, p, i) <==> At(a, p, i)
  {
    assert (a + b)[i..i + |p|] == a[i..i + |p|];
  }

  /** In `p` followed by a separator, no occurrence starts before the separator's own. */
  predicate Clean<T(==)>(p: seq<T>, sep: seq<T>)
    requires sep != []
  {
    Find(p + sep, sep, 0) == Some(|p|)
  }

  /** The first separator found in p + sep + rest is the one after `p` exactly when `p` is clean. */
  lemma CleanExact<T>(p: seq<T>, sep: seq<T>, rest: seq<T>)
    requires sep != []
    ensures Find(p + (sep + rest), sep, 0) == Some(|p|) <==> Clean(p, sep)
  {
    var s := p + (sep + rest);
    Assoc(p, sep, rest);
    forall i: nat | i <= |p|
      ensures At(s, sep, i) <==> At(p + sep, sep, i)
    {
      AtPrefix(p + sep, rest, sep, i);
    }
    assert At(p + sep, sep, |p|);
    if Clean(p, sep) {
      FindFirst(p + sep, sep, 0);
      FindIs(s, sep, 0, |p|);
    }
    if Find(s, sep, 0) == Some(|p|) {
      FindFirst(s, sep, 0);
      FindIs(p + sep, sep, 0, |p|);
    }
  }

  lemma DropHead<T>(p: seq<T>, sep: seq<T>, rest: seq<T>)
    ensures (p + (sep + rest))[..|p|] == p
    ensures (p + (sep + rest))[|p| + |sep|..] == rest
  {
  }

  lemma SplitHead<T>(p: seq<T>, sep: seq<T>, rest: seq<T>)
    requires sep != [] && Clean(p, sep)
    ensures Split(p + (sep + rest), sep) == [p] + Split(rest, sep)
  {
    var s := p + (sep + rest);
    CleanExact(p, sep, rest);
    DropHead(p, sep, rest);
    assert Split(s, sep) == [s[..|p|]] + Split(s[|p| + |sep|..], sep);
  }

  // --- Split inverts join, exactly when every separator printed is the first one read ---

  predicate Splittable<T(==)>(parts: seq<seq<T>>, sep: seq<T>)
    requires sep != []
  {
    if |parts| <= 1 then |parts| == 1 && !Has(parts[0], sep)
    else Clean(parts[0], sep) && Splittable(parts[1..], sep)
  }

  lemma {:induction false} SplitJoinExact<T>(parts: seq<seq<T>>, sep: seq<T>)
    requires sep != []
    ensures Split(Join(parts, sep), sep) == parts <==> Splittable(parts, sep)
    decreases |parts|
  {
    if |parts| > 1 {
      var p, rest := parts[0], Join(parts[1..], sep);
      CleanExact(p, sep, rest);
      DropHead(p, sep, rest);
      SplitJoinExact(parts[1..], sep);
      var s := p + (sep + rest);
      if Clean(p, sep) {
        SplitHead(p, sep, rest);
        assert Split(s, sep)[1..] == Split(rest, sep);
        assert parts == [p] + parts[1..];
      } else if Find(s, sep, 0).Some? {
        assert |Split(s, sep)[0]| == Find(s, sep, 0).value;
      }
    }
  }

  lemma {:induction false} JoinSplit<T>(s: seq<T>, sep: seq<T>)
    requires sep != []
    ensures Join(Split(s, sep), sep) == s
    decreases |s|
  {
    var f := Find(s, sep, 0);
    if f.Some? {
      var k := f.value;
      var t := s[k + |sep|..];
      JoinSplit(t, sep);
      JoinCons(s[..k], Split(t, sep), sep);
      assert s == s[..k] + (sep + t);
    }
  }

  lemma JoinCons<T>(p: seq<T>, parts: seq<seq<T>>, sep: seq<T>)
    requires parts != []
    ensures Join([p] + parts, sep) == p + (sep + Join(parts, sep))
  {
    assert ([p] + parts)[1..] == parts;
  }

  /** An element of the joined string comes from a part or from the separator. */
  lemma {:induction false} JoinElement<T>(parts: seq<seq<T>>, sep: seq<T>, c: T)
    requires c in Join(parts, sep) && c !in sep
    ensures exists i :: 0 <= i < |parts| && c in parts[i]
  {
    if |parts| > 1 && c !in parts[0] {
      JoinElement(parts[1..], sep, c);
      var i :| 0 <= i < |parts| - 1 && c in parts[1..][i];
      assert parts[i + 1] == parts[1..][i];
    }
  }

  // --- Separators of one character ---

  lemma {:induction false} HasOne<T>(s: seq<T>, c: T)
    ensures Has(s, [c]) <==> c in s
  {
    if Has(s, [c]) {
      var i := Find(s, [c], 0).value;
      assert s[i..i + 1][0] == c;
    } else {
      FindNone(s, [c], 0);
      forall i: nat | i < |s|
        ensures s[i] != c
      {
        assert !At(s, [c], i);
        assert s[i..i + 1] == [s[i]];
      }
    }
  }

  lemma CleanOne<T>(p: seq<T>, c: T)
    ensures Clean(p, [c]) <==> c !in p
  {
    var s := p + [c];
    if c !in p {
      forall j: nat | j < |p|
        ensures !At(s, [c], j)
      {
        assert s[j..j + 1] == [p[j]];
      }
      assert s[|p|..|p| + 1] == [c];
      FindIs(s, [c], 0, |p|);
    } else {
      var j :| 0 <= j < |p| && p[j] == c;
      assert s[j..j + 1] == [c];
      assert At(s, [c], j);
      if Clean(p, [c]) {
        FindFirst(s, [c], 0);
      }
    }
  }

  lemma {:induction false} SplittableOne<T>(parts: seq<seq<T>>, c: T)
    requires parts != [] && forall i :: 0 <= i < |parts| ==> c !in parts[i]
    ensures Splittable(parts, [c])
    decreases |parts|
  {
    if |parts| == 1 {
      HasOne(parts[0], c);
    } else {
      CleanOne(parts[0], c);
      forall i | 0 <= i < |parts| - 1
        ensures c !in parts[1..][i]
      {
        assert parts[1..][i] == parts[i + 1];
      }
      SplittableOne(parts[1..], c);
    }
  }

  lemma {:induction false} SplitOneAppend<T>(a: seq<T>, c: T, b: seq<T>)
    ensures Split(a + ([c] + b), [c]) == Split(a, [c]) + Split(b, [c])
    decreases |a|
  {
    HasOne(a, c);
    if c !in a {
      CleanOne(a, c);
      SplitHead(a, [c], b);
    } else {
      var i := Find(a, [c], 0).value;
      var p, t := a[..i], a[i + 1..];
      FindFirst(a, [c], 0);
      forall j: nat | j < i
        ensures p[j] != c
      {
        assert !At(a, [c], j);
        assert a[j..j + 1] == [p[j]];
      }
      CleanOne(p, c);
      assert a[i..i + 1][0] == c;
      assert a == p + ([c] + t);
      Assoc(p, [c] + t, [c] + b);
      Assoc([c], t, [c] + b);
      SplitHead(p, [c], t + ([c] + b));
      SplitOneAppend(t, c, b);
      Assoc([p], Split(t, [c]), Split(b, [c]));
    }
  }

  /** Every piece of a split is a piece of the string. */
  lemma {:induction false} PieceAt<T>(s: seq<T>, sep: seq<T>, piece: seq<T>) returns (i: nat)
    requires sep != [] && piece in Split(s, sep)
    ensures At(s, piece, i)
    decreases |s|
  {
    var f := Find(s, sep, 0);
    if f.None? {
      i := 0;
    } else if piece == s[..f.value] {
      i := 0;
    } else {
      var t := s[f.value + |sep|..];
      var j := PieceAt(t, sep, piece);
      i := f.value + |sep| + j;
      assert s[i..i + |piece|] == t[j..j + |piece|];
    }
  }

  lemma HasWithin<T>(s: seq<T>, piece: seq<T>, i: nat, p: seq<T>)
    requires At(s, piece, i) && Has(piece, p)
    ensures Has(s, p)
  {
    var j := Find(piece, p, 0).value;
    assert s[i + j..i + j + |p|] == piece[j..j + |p|];
    if !Has(s, p) {
      FindNone(s, p, 0);
      assert At(s, p, i + j);
    }
  }

  // --- The separator "--" ---

  lemma EarlyDashes(p: string) returns (i: nat)
    requires Has(p, "--") || EndsWith(p, "-")
    ensures i < |p| && At(p + "--", "--", i)
  {
    if Has(p, "--") {
      i := Find(p, "--", 0).value;
      AtPrefix(p, "--", "--", i);
    } else {
      i := |p| - 1;
      assert p[i..][0] == '-';
      assert (p + "--")[i..i + 2] == "--";
    }
  }

  lemma CleanDashes(p: string)
    ensures Clean(p, "--") <==> !Has(p, "--") && !EndsWith(p, "-")
  {
    var s := p + "--";
    if Has(p, "--") || EndsWith(p, "-") {
      var i := EarlyDashes(p);
      if Clean(p, "--") {
        FindFirst(s, "--", 0);
      }
    } else {
      FindNone(p, "--", 0);
      forall j: nat | j < |p|
        ensures !At(s, "--", j)
      {
        if j + 2 <= |p| {
          AtPrefix(p, "--", "--", j);
        } else {
          assert p[|p| - 1..] == [p[j]];
          assert s[j..j + 2][0] == p[j];
        }
      }
      assert s[|p|..|p| + 2] == "--";
      FindIs(s, "--", 0, |p|);
    }
  }
}
