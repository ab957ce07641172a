/** Small vocabulary shared by every model: optional values, results, bytes, and concatenation of pieces. */
module Common {

  datatype Option<+T> = None | Some(value: T)
  {
    function GetOr(default: T): T {
      if Some? then value else default
    }
  }

  datatype Result<+T, +E> = Ok(value: T) | Err(error: E)

  newtype Byte = x: int | 0 <= x < 256

  type Buffer = seq<Byte>

  // The source assembles integers from bytes with shifts and ORs. On bytes the shifted values do not
  // overlap and stay below 2^31, so each is the sum below.

  /** (a << 8) | b */
  function Join2(a: Byte, b: Byte): (n: nat)
    ensures n < 0x1_0000
  {
    a as int * 0x100 + b as int
  }

  /** (a << 16) | (b << 8) | c */
  function Join3(a: Byte, b: Byte, c: Byte): (n: nat)
    ensures n < 0x100_0000
  {
    a as int * 0x1_0000 + b as int * 0x100 + c as int
  }

  /** ((a & 0x7f) << 24) | (b << 16) | (c << 8) | d */
  function Join31(a: Byte, b: Byte, c: Byte, d: Byte): (n: nat)
    ensures n < 0x8000_0000
  {
    a as int % 0x80 * 0x100_0000 + b as int * 0x1_0000 + c as int * 0x100 + d as int
  }

  /** Buffer.concat: the pieces end to end. */
  function Concat<T>(parts: seq<seq<T>>): seq<T> {
    if parts == [] then [] else parts[0] + Concat(parts[1..])
  }

  /** `a` followed by `b`, where an empty `a` leaves `b` itself. */
  function Glue<T>(a: seq<T>, b: seq<T>): seq<T> {
    if |a| > 0 then a + b else b
  }

  lemma GlueIs<T>(a: seq<T>, b: seq<T>)
    ensures Glue(a, b) == a + b
  {
  }

  lemma Assoc<T>(a: seq<T>, b: seq<T>, c: seq<T>)
    ensures a + b + c == a + (b + c)
  {
  }

  lemma SliceOfTake<T>(s: seq<T>, n: nat, i: nat, j: nat)
    requires i <= j <= n <= |s|
    ensures s[..n][i..j] == s[i..j]
  {
  }

  lemma DropDrop<T>(s: seq<T>, n: nat)
    requires n < |s|
    ensures s[n..][1..] == s[n + 1..]
  {
  }

  lemma SplitAt<T>(s: seq<T>, n: nat)
    requires n <= |s|
    ensures s[..n] + s[n..] == s
  {
  }

  lemma {:induction false} ConcatAppend<T>(a: seq<seq<T>>, b: seq<seq<T>>)
    ensures Concat(a + b) == Concat(a) + Concat(b)
  {
    if a == [] {
      assert a + b == b;
    } else {
      ConcatAppend(a[1..], b);
      assert (a + b)[1..] == a[1..] + b;
      Assoc(a[0], Concat(a[1..]), Concat(b));
    }
  }

  lemma ConcatSnoc<T>(a: seq<seq<T>>, x: seq<T>)
    ensures Concat(a + [x]) == Concat(a) + x
  {
    ConcatAppend(a, [x]);
    assert Concat([x]) == x + Concat([]);
  }

  lemma ConcatTwo<T>(x: seq<T>, y: seq<T>)
    ensures Concat([x, y]) == x + y
  {
    assert [x, y] == [x] + [y];
    ConcatSnoc([x], y);
    assert Concat([x]) == x + Concat([]);
  }
}
