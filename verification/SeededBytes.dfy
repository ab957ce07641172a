/** The two loops that generate deterministic bytes from a seed, and when they agree. */
module SeededBytes {
  import opened Common
  import opened Numerals

  /** SHA-256 as far as the loops use it: some function of the text. */
  type Digest = string -> Buffer

  const HASH_LENGTH := 32

  ghost predicate IsHash(digest: Digest) {
    forall text: string :: |digest(text)| == HASH_LENGTH
  }

  function HashInput(seed: string, counter: nat): string {
    seed + (":" + Decimal(counter))
  }

  /** The first n bytes of the hashes from `counter` on. */
  function KeyStream(digest: Digest, seed: string, counter: nat, n: nat): (s: Buffer)
    requires IsHash(digest)
    ensures |s| == n
    decreases n
  {
    var hash := digest(HashInput(seed, counter));
    if n <= HASH_LENGTH then hash[..n] else hash + KeyStream(digest, seed, counter + 1, n - HASH_LENGTH)
  }

  /** How many hashes it takes to make n bytes. */
  function HashesFor(n: nat): nat {
    if n == 0 then 0 else if n <= HASH_LENGTH then 1 else HashesFor(n - HASH_LENGTH) + 1
  }

  lemma {:induction false} HashesExact(n: nat)
    ensures HashesFor(n) == n / HASH_LENGTH + if n % HASH_LENGTH == 0 then 0 else 1
  {
    if n > HASH_LENGTH {
      HashesExact(n - HASH_LENGTH);
    }
  }

  // --- /bytes ---

  method Bytes(digest: Digest, seed: string, n: nat) returns (data: Buffer)
    requires IsHash(digest)
    ensures data == KeyStream(digest, seed, 0, n)
  {
    var counter;
    data, counter := Hashes(digest, seed, 0, n);
  }

  /** What is still to be made: the last subtraction may overshoot. */
  function Left(remaining: int): nat {
    if remaining > 0 then remaining else 0
  }

  function Part(hash: Buffer, remaining: int): Buffer
    requires remaining > 0
  {
    hash[..if remaining < |hash| then remaining else |hash|]
  }

  lemma HashStep(digest: Digest, seed: string, chunks: seq<Buffer>, counter: nat, remaining: int)
    requires IsHash(digest) && remaining > 0
    ensures var part := Part(digest(HashInput(seed, counter)), remaining);
      Concat(chunks) + KeyStream(digest, seed, counter, remaining) ==
      Concat(chunks + [part]) + KeyStream(digest, seed, counter + 1, Left(remaining - HASH_LENGTH))
  {
    var hash := digest(HashInput(seed, counter));
    var part := Part(hash, remaining);
    ConcatSnoc(chunks, part);
    var rest := KeyStream(digest, seed, counter + 1, Left(remaining - HASH_LENGTH));
    Assoc(Concat(chunks), part, rest);
    if remaining > HASH_LENGTH {
      assert part == hash;
    } else {
      assert rest == [] && part + rest == part;
    }
  }

  /** The loop that both endpoints contain: whole hashes, the last one cut to size. */
  method Hashes(digest: Digest, seed: string, start: nat, n: nat) returns (data: Buffer, counter: nat)
    requires IsHash(digest)
    ensures data == KeyStream(digest, seed, start, n)
    ensures counter == start + HashesFor(n)
  {
    var chunks: seq<Buffer> := [];
    var remaining: int := n;
    counter := start;
    ghost var whole := KeyStream(digest, seed, start, n);
    assert whole == Concat(chunks) + whole;
    while remaining > 0
      invariant counter + HashesFor(Left(remaining)) == start + HashesFor(n)
      invariant whole == Concat(chunks) + KeyStream(digest, seed, counter, Left(remaining))
    {
      HashStep(digest, seed, chunks, counter, remaining);
      var hash := digest(HashInput(seed, counter));
      chunks := chunks + [Part(hash, remaining)];
      counter := counter + 1;
      remaining := remaining - |hash|;
    }
    data := Concat(chunks);
    assert KeyStream(digest, seed, counter, 0) == [] && data + [] == data;
  }

  // --- /stream-bytes ---

  /** The chunks written: each starts on a fresh hash. */
  function Chunks(digest: Digest, seed: string, counter: nat, n: nat, chunkSize: nat): seq<Buffer>
    requires IsHash(digest) && chunkSize > 0
    decreases n
  {
    if n == 0 then []
    else
      var size := if n < chunkSize then n else chunkSize;
      [KeyStream(digest, seed, counter, size)] + Chunks(digest, seed, counter + HashesFor(size), n - size, chunkSize)
  }

  method StreamBytes(digest: Digest, seed: string, n: nat, requested: int) returns (written: seq<Buffer>)
    requires IsHash(digest)
    ensures written == Chunks(digest, seed, 0, n, if requested < 1 then 1 else requested)
  {
    var chunkSize := if requested < 1 then 1 else requested;
    var remaining := n;
    var counter := 0;
    written := [];
    ghost var whole := Chunks(digest, seed, 0, n, chunkSize);
    assert whole == written + whole;
    while remaining > 0
      invariant 0 <= remaining <= n
      invariant whole == written + Chunks(digest, seed, counter, remaining, chunkSize)
    {
      var size := if remaining < chunkSize then remaining else chunkSize;
      ChunkStep(digest, seed, written, counter, remaining, chunkSize);
      var chunk;
      chunk, counter := Hashes(digest, seed, counter, size);
      written := written + [chunk];
      remaining := remaining - size;
    }
    assert written + [] == written;
  }

  lemma ChunkStep(digest: Digest, seed: string, written: seq<Buffer>, counter: nat, remaining: nat, chunkSize: nat)
    requires IsHash(digest) && chunkSize > 0 && remaining > 0
    ensures var size := if remaining < chunkSize then remaining else chunkSize;
      written + Chunks(digest, seed, counter, remaining, chunkSize) ==
      written + [KeyStream(digest, seed, counter, size)]
        + Chunks(digest, seed, counter + HashesFor(size), remaining - size, chunkSize)
  {
    var size := if remaining < chunkSize then remaining else chunkSize;
    Assoc(written, [KeyStream(digest, seed, counter, size)],
          Chunks(digest, seed, counter + HashesFor(size), remaining - size, chunkSize));
  }

  lemma ConcatHead(head: Buffer, rest: seq<Buffer>)
    ensures Concat([head] + rest) == head + Concat(rest)
  {
    assert ([head] + rest)[1..] == rest;
  }

  /** What is streamed has the requested length, whatever the chunk size. */
  lemma {:induction false} ChunksLength(digest: Digest, seed: string, counter: nat, n: nat, chunkSize: nat)
    requires IsHash(digest) && chunkSize > 0
    ensures |Concat(Chunks(digest, seed, counter, n, chunkSize))| == n
    decreases n
  {
    if n > 0 {
      var size := if n < chunkSize then n else chunkSize;
      ChunksLength(digest, seed, counter + HashesFor(size), n - size, chunkSize);
      var rest := Chunks(digest, seed, counter + HashesFor(size), n - size, chunkSize);
      ConcatHead(KeyStream(digest, seed, counter, size), rest);
    }
  }

  // --- When the two agree ---

  /** The stream can be cut at any whole number of hashes. */
  lemma {:induction false} CutAtHash(digest: Digest, seed: string, counter: nat, hashes: nat, n: nat)
    requires IsHash(digest)
    ensures KeyStream(digest, seed, counter, hashes * HASH_LENGTH + n) ==
      KeyStream(digest, seed, counter, hashes * HASH_LENGTH) + KeyStream(digest, seed, counter + hashes, n)
    decreases hashes
  {
    var hash := digest(HashInput(seed, counter));
    if hashes == 0 {
      assert KeyStream(digest, seed, counter, 0) == [];
    } else {
      CutAtHash(digest, seed, counter + 1, hashes - 1, n);
      var rest := hashes * HASH_LENGTH - HASH_LENGTH;
      assert rest == (hashes - 1) * HASH_LENGTH;
      WholeHash(digest, seed, counter, rest + n);
      WholeHash(digest, seed, counter, rest);
      Assoc(hash, KeyStream(digest, seed, counter + 1, rest), KeyStream(digest, seed, counter + hashes, n));
    }
  }

  lemma WholeHash(digest: Digest, seed: string, counter: nat, n: nat)
    requires IsHash(digest)
    ensures KeyStream(digest, seed, counter, HASH_LENGTH + n) ==
      digest(HashInput(seed, counter)) + KeyStream(digest, seed, counter + 1, n)
  {
    var hash := digest(HashInput(seed, counter));
    if n == 0 {
      assert hash[..HASH_LENGTH] == hash;
      assert hash + [] == hash;
    }
  }

  lemma OneChunk(digest: Digest, seed: string, counter: nat, n: nat, chunkSize: nat)
    requires IsHash(digest) && chunkSize > 0 && n <= chunkSize
    ensures Concat(Chunks(digest, seed, counter, n, chunkSize)) == KeyStream(digest, seed, counter, n)
  {
    if n > 0 {
      var head := KeyStream(digest, seed, counter, n);
      assert Chunks(digest, seed, counter, n, chunkSize) == [head] + [];
      assert Concat([head]) == head + Concat([]);
    }
  }

  /** With chunks of whole hashes the concatenated stream is the byte sequence itself. */
  lemma {:induction false} WholeChunks(digest: Digest, seed: string, counter: nat, n: nat, chunkSize: nat)
    requires IsHash(digest) && chunkSize > 0 && chunkSize % HASH_LENGTH == 0
    ensures Concat(Chunks(digest, seed, counter, n, chunkSize)) == KeyStream(digest, seed, counter, n)
    decreases n
  {
    if n <= chunkSize {
      OneChunk(digest, seed, counter, n, chunkSize);
    } else {
      var next := counter + HashesFor(chunkSize);
      WholeChunks(digest, seed, next, n - chunkSize, chunkSize);
      ConcatHead(KeyStream(digest, seed, counter, chunkSize), Chunks(digest, seed, next, n - chunkSize, chunkSize));
      CutAtChunk(digest, seed, counter, chunkSize, n - chunkSize);
    }
  }

  lemma CutAtChunk(digest: Digest, seed: string, counter: nat, chunkSize: nat, n: nat)
    requires IsHash(digest) && chunkSize % HASH_LENGTH == 0
    ensures KeyStream(digest, seed, counter, chunkSize + n) ==
      KeyStream(digest, seed, counter, chunkSize) + KeyStream(digest, seed, counter + HashesFor(chunkSize), n)
  {
    HashesExact(chunkSize);
    CutAtHash(digest, seed, counter, chunkSize / HASH_LENGTH, n);
  }

  lemma {:induction false} KeyStreamAt(digest: Digest, seed: string, counter: nat, n: nat, i: nat)
    requires IsHash(digest) && i < n
    ensures KeyStream(digest, seed, counter, n)[i] ==
      digest(HashInput(seed, counter + i / HASH_LENGTH))[i % HASH_LENGTH]
    decreases n
  {
    if i >= HASH_LENGTH {
      KeyStreamAt(digest, seed, counter + 1, n - HASH_LENGTH, i - HASH_LENGTH);
    }
  }

  /** Byte i of /bytes, by the text that is hashed: the seed, a colon and the number of the hash. */
  lemma ByteAt(digest: Digest, seed: string, n: nat, i: nat)
    requires IsHash(digest) && i < n
    ensures KeyStream(digest, seed, 0, n)[i] == digest(seed + (":" + Decimal(i / 32)))[i % 32]
  {
    KeyStreamAt(digest, seed, 0, n, i);
  }

  /** k times x, added up. */
  function Times(k: nat, x: nat): (p: nat)
  {
    if k == 0 then 0 else x + Times(k - 1, x)
  }

  lemma {:induction false} TimesIs(k: nat, x: nat)
    ensures Times(k, x) == k * x
  {
    if k > 0 {
      TimesIs(k - 1, x);
      assert k * x == (k - 1) * x + x;
    }
  }

  lemma FirstChunk(digest: Digest, seed: string, counter: nat, size: nat)
    requires IsHash(digest)
    ensures forall i :: 0 <= i < size ==>
      KeyStream(digest, seed, counter, size)[i] == digest(seed + (":" + Decimal(counter + i / 32)))[i % 32]
  {
    forall i | 0 <= i < size
      ensures KeyStream(digest, seed, counter, size)[i] == digest(seed + (":" + Decimal(counter + i / 32)))[i % 32]
    {
      KeyStreamAt(digest, seed, counter, size, i);
    }
  }

  /** Byte i of a chunk is byte i of the hashes from `first` on. */
  ghost predicate IsChunk(chunk: Buffer, digest: Digest, seed: string, first: nat, size: nat)
    requires IsHash(digest)
  {
    && |chunk| == size
    && forall i :: 0 <= i < size ==> chunk[i] == digest(seed + (":" + Decimal(first + i / 32)))[i % 32]
  }

  lemma AfterFirst(digest: Digest, seed: string, counter: nat, n: nat, chunkSize: nat, k: nat)
    requires IsHash(digest) && 0 < chunkSize < n && k > 0
    ensures var (chunks, rest) := (Chunks(digest, seed, counter, n, chunkSize),
                                   Chunks(digest, seed, counter + HashesFor(chunkSize), n - chunkSize, chunkSize));
      |chunks| == |rest| + 1 && (k <= |rest| ==> chunks[k] == rest[k - 1])
  {
  }

  lemma {:induction false} ChunkFrom(digest: Digest, seed: string, counter: nat, n: nat, chunkSize: nat, k: nat)
    requires IsHash(digest) && 0 < chunkSize && Times(k, chunkSize) < n
    ensures var (chunks, left) := (Chunks(digest, seed, counter, n, chunkSize), n - Times(k, chunkSize));
      k < |chunks| && IsChunk(chunks[k], digest, seed, counter + Times(k, HashesFor(chunkSize)),
                              if left < chunkSize then left else chunkSize)
    decreases k
  {
    if k == 0 {
      FirstChunk(digest, seed, counter, if n < chunkSize then n else chunkSize);
    } else {
      var next := counter + HashesFor(chunkSize);
      ChunkFrom(digest, seed, next, n - chunkSize, chunkSize, k - 1);
      AfterFirst(digest, seed, counter, n, chunkSize, k);
      assert next + Times(k - 1, HashesFor(chunkSize)) == counter + Times(k, HashesFor(chunkSize));
      assert n - chunkSize - Times(k - 1, chunkSize) == n - Times(k, chunkSize);
    }
  }

  /** Chunk k of /stream-bytes: its length, and its bytes, where each chunk before it has used up whole hashes. */
  lemma ChunkAt(digest: Digest, seed: string, n: nat, chunkSize: nat, k: nat)
    requires IsHash(digest) && 0 < chunkSize && k * chunkSize < n
    ensures var (chunks, left) := (Chunks(digest, seed, 0, n, chunkSize), n - k * chunkSize);
      k < |chunks| && IsChunk(chunks[k], digest, seed, k * HashesFor(chunkSize),
                              if left < chunkSize then left else chunkSize)
  {
    TimesIs(k, chunkSize);
    TimesIs(k, HashesFor(chunkSize));
    ChunkFrom(digest, seed, 0, n, chunkSize, k);
  }

  lemma SameInput(seed: string, a: nat, b: nat)
    requires HashInput(seed, a) == HashInput(seed, b)
    ensures a == b
  {
    assert HashInput(seed, a)[|seed| + 1..] == Decimal(a);
    assert HashInput(seed, b)[|seed| + 1..] == Decimal(b);
    DecimalRoundTrip(a);
    DecimalRoundTrip(b);
  }

  /** A hash function that is one on a single input and zero elsewhere. */
  function Marker(input: string): Digest {
    text => if text == input then seq(HASH_LENGTH, _ => 1) else seq(HASH_LENGTH, _ => 0)
  }

  /** The first byte of the second chunk is the first byte of the next unused hash. */
  lemma SecondChunk(digest: Digest, seed: string, n: nat, chunkSize: nat)
    requires IsHash(digest) && 0 < chunkSize < n
    ensures var s := Concat(Chunks(digest, seed, 0, n, chunkSize));
            |s| > chunkSize && s[chunkSize] == digest(HashInput(seed, HashesFor(chunkSize)))[0]
  {
    var next, left := HashesFor(chunkSize), n - chunkSize;
    var size := if left < chunkSize then left else chunkSize;
    var head, rest := KeyStream(digest, seed, 0, chunkSize), Chunks(digest, seed, next, left, chunkSize);
    var second := KeyStream(digest, seed, next, size);
    var more := Chunks(digest, seed, next + HashesFor(size), left - size, chunkSize);
    ConcatHead(head, rest);
    ConcatHead(second, more);
    KeyStreamAt(digest, seed, next, size, 0);
    assert Concat(rest)[0] == second[0];
    assert (head + Concat(rest))[|head|] == Concat(rest)[0];
  }

  /** A chunk that ends inside a hash leaves the rest of that hash out: the next byte is another one. */
  lemma CutInsideHash(seed: string, n: nat, chunkSize: nat)
    requires 0 < chunkSize < n && chunkSize % HASH_LENGTH != 0
    ensures !Agree(Marker(HashInput(seed, chunkSize / HASH_LENGTH + 1)), seed, n, chunkSize)
  {
    var q := chunkSize / HASH_LENGTH;
    var digest := Marker(HashInput(seed, q + 1));
    HashesExact(chunkSize);
    SecondChunk(digest, seed, n, chunkSize);
    KeyStreamAt(digest, seed, 0, n, chunkSize);
    if HashInput(seed, q) == HashInput(seed, q + 1) {
      SameInput(seed, q, q + 1);
    }
    assert Concat(Chunks(digest, seed, 0, n, chunkSize))[chunkSize] == 1;
    assert KeyStream(digest, seed, 0, n)[chunkSize] == 0;
  }

  ghost predicate Agree(digest: Digest, seed: string, n: nat, chunkSize: nat)
    requires chunkSize > 0
  {
    IsHash(digest) ==> Concat(Chunks(digest, seed, 0, n, chunkSize)) == KeyStream(digest, seed, 0, n)
  }

  /**
   * Streamed and plain bytes are the same for every hash function exactly when the chunk size is a multiple of
   * the hash length or one chunk is enough.
   */
  lemma StreamAgreesExactly(seed: string, n: nat, chunkSize: nat)
    requires chunkSize > 0
    ensures (forall digest: Digest :: Agree(digest, seed, n, chunkSize)) <==>
      chunkSize % HASH_LENGTH == 0 || n <= chunkSize
  {
    if chunkSize % HASH_LENGTH == 0 {
      forall digest: Digest
        ensures Agree(digest, seed, n, chunkSize)
      {
        if IsHash(digest) {
          WholeChunks(digest, seed, 0, n, chunkSize);
        }
      }
    } else if n <= chunkSize {
      forall digest: Digest
        ensures Agree(digest, seed, n, chunkSize)
      {
        if IsHash(digest) {
          OneChunk(digest, seed, 0, n, chunkSize);
        }
      }
    } else {
      CutInsideHash(seed, n, chunkSize);
    }
  }
}
