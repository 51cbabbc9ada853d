/** Properties of the reference definitions in IsaacSpec: what the seed buffers hold
    and what a regeneration cycle reads and writes. */
module IsaacLemmas {
  import opened IsaacSpec

  // ---------------------------------------------------------------------------
  // seeding from words
  // ---------------------------------------------------------------------------

  /** seed(const uint32_t*, size_t) leaves the result table holding the first
      min(seedlen, 256) seed words followed by zeros; a null pointer leaves it all zero. */
  lemma WordSeedLayout(seedArr: Option<seq<bv32>>, seedlen: nat)
    requires Readable(seedArr, Min(seedlen, RandSize))
    ensures forall k :: 0 <= k < RandSize ==>
      WordSeedBuffer(seedArr, seedlen)[k] == if k < WordCount(seedArr, seedlen) then seedArr.value[k] else 0
  {
  }

  /** Seed words past the 256th, and words past seedlen, have no effect. */
  lemma WordSeedTruncates(v: seq<bv32>, seedlen: nat)
    requires Min(seedlen, RandSize) <= |v|
    ensures WordSeedBuffer(Some(v), seedlen) == WordSeedBuffer(Some(v[..Min(seedlen, RandSize)]), Min(seedlen, RandSize))
  {
    var n := Min(seedlen, RandSize);
    var b1, b2 := WordSeedBuffer(Some(v), seedlen), WordSeedBuffer(Some(v[..n]), n);
    assert forall k :: 0 <= k < RandSize ==> b1[k] == b2[k];
  }

  /** A null pointer seeds exactly as a seed of 256 zero words does. */
  lemma NullSeedIsZeroSeed()
    ensures WordSeedBuffer(None, 0) == WordSeedBuffer(Some(Zeros(RandSize)), RandSize)
  {
    var b := WordSeedBuffer(Some(Zeros(RandSize)), RandSize);
    assert forall k :: 0 <= k < RandSize ==> b[k] == 0;
  }

  /** An empty seed (a non-null pointer with length 0) seeds as a null pointer does. */
  lemma EmptySeedIsNullSeed(v: seq<bv32>)
    ensures WordSeedBuffer(Some(v), 0) == WordSeedBuffer(None, 0)
  {
    var b := WordSeedBuffer(Some(v), 0);
    assert forall k :: 0 <= k < RandSize ==> b[k] == 0;
  }

  /** seed() of the engine, a null pointer, seeds the generator exactly as a seed of
      256 zero words does. */
  lemma NullSeedAsZeroWords(s: State)
    requires WellFormed(s)
    ensures SeedWords(s, None, 0) == SeedWords(s, Some(Zeros(RandSize)), RandSize)
  {
    NullSeedIsZeroSeed();
  }

  /** Seeding with more than 256 words gives the state that seeding with only the
      first 256 gives. */
  lemma LongWordSeedTruncates(s: State, v: seq<bv32>)
    requires WellFormed(s) && RandSize <= |v|
    ensures SeedWords(s, Some(v), |v|) == SeedWords(s, Some(v[..RandSize]), RandSize)
  {
    WordSeedTruncates(v, |v|);
  }

  // ---------------------------------------------------------------------------
  // seeding from bytes
  // ---------------------------------------------------------------------------

  /** The four bytes of word j of the byte-seeded result table. */
  lemma ByteSeedWord(seedArr: Option<seq<bv8>>, seedlen: nat, j: nat)
    requires Readable(seedArr, Min(seedlen, RandBytes)) && j < RandSize
    ensures ByteOf(ByteSeedBuffer(seedArr, seedlen)[j], 0) == SeedByte(seedArr, seedlen, 4 * j)
    ensures ByteOf(ByteSeedBuffer(seedArr, seedlen)[j], 1) == SeedByte(seedArr, seedlen, 4 * j + 1)
    ensures ByteOf(ByteSeedBuffer(seedArr, seedlen)[j], 2) == SeedByte(seedArr, seedlen, 4 * j + 2)
    ensures ByteOf(ByteSeedBuffer(seedArr, seedlen)[j], 3) == SeedByte(seedArr, seedlen, 4 * j + 3)
  {
    ByteOfZero();
    if seedArr.Some? {
      var n := Min(seedlen, RandBytes);
      if 4 * j < n {
        var src := seedArr.value;
        UnpackPack(CopiedByte(0, src, n, j, 0), CopiedByte(0, src, n, j, 1),
                   CopiedByte(0, src, n, j, 2), CopiedByte(0, src, n, j, 3));
      }
    }
  }

  /** seed(const char*, size_t) with little-endian words: byte 4j + k of the seed lands
      in word j at byte position k when it is among the first min(seedlen, 1024) bytes,
      and every other byte of the result table is zero. */
  lemma ByteSeedLayout(seedArr: Option<seq<bv8>>, seedlen: nat)
    requires Readable(seedArr, Min(seedlen, RandBytes))
    ensures forall j, k :: 0 <= j < RandSize && 0 <= k < 4 ==>
      ByteOf(ByteSeedBuffer(seedArr, seedlen)[j], k) == SeedByte(seedArr, seedlen, 4 * j + k)
  {
    forall j, k | 0 <= j < RandSize && 0 <= k < 4
      ensures ByteOf(ByteSeedBuffer(seedArr, seedlen)[j], k) == SeedByte(seedArr, seedlen, 4 * j + k)
    {
      ByteSeedByte(seedArr, seedlen, j, k);
    }
  }

  /** Byte k of word j of the byte-seeded result table is seed byte 4j + k. */
  lemma ByteSeedByte(seedArr: Option<seq<bv8>>, seedlen: nat, j: nat, k: nat)
    requires Readable(seedArr, Min(seedlen, RandBytes)) && j < RandSize && k < 4
    ensures ByteOf(ByteSeedBuffer(seedArr, seedlen)[j], k) == SeedByte(seedArr, seedlen, 4 * j + k)
  {
    ByteSeedWord(seedArr, seedlen, j);
    match k
    case 0 =>
    case 1 =>
    case 2 =>
    case 3 =>
  }

  /** Seed bytes past the 1024th, and bytes past seedlen, have no effect. */
  lemma ByteSeedTruncates(v: seq<bv8>, seedlen: nat)
    requires Min(seedlen, RandBytes) <= |v|
    ensures ByteSeedBuffer(Some(v), seedlen) == ByteSeedBuffer(Some(v[..Min(seedlen, RandBytes)]), Min(seedlen, RandBytes))
  {
    var n := Min(seedlen, RandBytes);
    var b1, b2 := ByteSeedBuffer(Some(v), seedlen), ByteSeedBuffer(Some(v[..n]), n);
    forall j | 0 <= j < RandSize
      ensures b1[j] == b2[j]
    {
      if 4 * j < n {
        assert MemcpyWord(0, v, n, j) == MemcpyWord(0, v[..n], n, j);
      }
    }
  }

  /** Seeding with more than 1024 bytes gives the state that seeding with only the
      first 1024 gives. */
  lemma LongByteSeedTruncates(s: State, v: seq<bv8>)
    requires WellFormed(s) && RandBytes <= |v|
    ensures SeedBytes(s, Some(v), |v|) == SeedBytes(s, Some(v[..RandBytes]), RandBytes)
  {
    ByteSeedTruncates(v, |v|);
  }

  /** The little-endian bytes of a sequence of words, lowest address first. */
  function LittleEndian(w: seq<bv32>): (bytes: seq<bv8>)
    ensures |bytes| == 4 * |w|
  {
    if |w| == 0 then []
    else [ByteOf(w[0], 0), ByteOf(w[0], 1), ByteOf(w[0], 2), ByteOf(w[0], 3)] + LittleEndian(w[1..])
  }

  /** Byte 4j + k of LittleEndian(w) is byte k of word j. */
  lemma {:induction false} LittleEndianAt(w: seq<bv32>, j: nat, k: nat)
    requires j < |w| && k < 4
    ensures LittleEndian(w)[4 * j + k] == ByteOf(w[j], k)
  {
    if j > 0 {
      LittleEndianAt(w[1..], j - 1, k);
      assert LittleEndian(w)[4 * j + k] == LittleEndian(w[1..])[4 * (j - 1) + k];
    }
  }

  /** Seeding with the bytes of up to 256 words in little-endian order gives the same
      result table as seeding with the words themselves. */
  lemma BytesOfWordsSeedAsWords(w: seq<bv32>)
    requires |w| <= RandSize
    ensures ByteSeedBuffer(Some(LittleEndian(w)), 4 * |w|) == WordSeedBuffer(Some(w), |w|)
  {
    forall j | 0 <= j < RandSize
      ensures ByteSeedBuffer(Some(LittleEndian(w)), 4 * |w|)[j] == WordSeedBuffer(Some(w), |w|)[j]
    {
      BytesOfWordAsWord(w, j);
    }
  }

  /** Word j of the byte seed made of LittleEndian(w) is word j of the word seed w. */
  lemma BytesOfWordAsWord(w: seq<bv32>, j: nat)
    requires |w| <= RandSize && j < RandSize
    ensures ByteSeedBuffer(Some(LittleEndian(w)), 4 * |w|)[j] == WordSeedBuffer(Some(w), |w|)[j]
  {
    var bytes := LittleEndian(w);
    if j < |w| {
      assert ByteSeedBuffer(Some(bytes), 4 * |w|)[j] == MemcpyWord(0, bytes, 4 * |w|, j);
      PackedBytesOfWord(w, j);
    }
  }

  /** The four little-endian bytes of w[j], packed again, give w[j]. */
  lemma PackedBytesOfWord(w: seq<bv32>, j: nat)
    requires |w| <= RandSize && j < |w|
    ensures MemcpyWord(0, LittleEndian(w), 4 * |w|, j) == w[j]
  {
    CopiedLittleEndian(w, j, 0);
    CopiedLittleEndian(w, j, 1);
    CopiedLittleEndian(w, j, 2);
    CopiedLittleEndian(w, j, 3);
    PackUnpack(w[j]);
  }

  /** The byte that memcpy copies from LittleEndian(w) into byte k of word j is byte k
      of w[j]. */
  lemma CopiedLittleEndian(w: seq<bv32>, j: nat, k: nat)
    requires j < |w| && k < 4
    ensures CopiedByte(0, LittleEndian(w), 4 * |w|, j, k) == ByteOf(w[j], k)
  {
    LittleEndianAt(w, j, k);
  }

  // ---------------------------------------------------------------------------
  // regeneration
  // ---------------------------------------------------------------------------

  /** The first n rngsteps leave result slots n .. 255 as they were. */
  lemma {:induction false} StepsKeepLaterResults(r: Regen, n: nat)
    requires RegenOk(r) && n <= RandSize
    ensures forall k :: n <= k < RandSize ==> Steps(r, n).randrsl[k] == r.randrsl[k]
  {
    if n > 0 {
      StepsKeepLaterResults(r, n - 1);
    }
  }

  /** Once rngstep k has written result slot k, the later steps leave it alone. */
  lemma {:induction false} StepsKeepResult(r: Regen, n: nat, k: nat)
    requires RegenOk(r) && k < n <= RandSize
    ensures Steps(r, n).randrsl[k] == Steps(r, k + 1).randrsl[k]
  {
    if n == k + 1 {
    } else {
      StepsKeepResult(r, n - 1, k);
      LastStepKeepsResult(r, n, k);
    }
  }

  /** Step n - 1 of a cycle leaves every result slot but n - 1 as it was. */
  lemma LastStepKeepsResult(r: Regen, n: nat, k: nat)
    requires RegenOk(r) && 0 < n <= RandSize && k < RandSize && k != n - 1
    ensures Steps(r, n).randrsl[k] == Steps(r, n - 1).randrsl[k]
  {
    RngStepWritesOneResult(Steps(r, n - 1), n - 1, k);
  }

  /** rngstep at slot m writes result slot m and no other. */
  lemma RngStepWritesOneResult(r: Regen, m: nat, k: nat)
    requires RegenOk(r) && m < RandSize && k < RandSize && k != m
    ensures RngStep(r, m).randrsl[k] == r.randrsl[k]
  {
  }

  /** The runs of StepsIgnoreResults agree after m steps. */
  predicate RunsAgree(p1: Regen, p2: Regen, m: nat)
  {
    RegenOk(p1) && RegenOk(p2) && m <= RandSize &&
    p1.randmem == p2.randmem && p1.a == p2.a && p1.b == p2.b &&
    forall k :: 0 <= k < m ==> p1.randrsl[k] == p2.randrsl[k]
  }

  /** rngstep does not read the result table, and writes only slot m of it. */
  lemma RngStepIgnoresResults(p1: Regen, p2: Regen, m: nat)
    requires RunsAgree(p1, p2, m) && m < RandSize
    ensures RunsAgree(RngStep(p1, m), RngStep(p2, m), m + 1)
  {
    forall k | 0 <= k < m
      ensures RngStep(p1, m).randrsl[k] == RngStep(p2, m).randrsl[k]
    {
      RngStepWritesOneResult(p1, m, k);
      RngStepWritesOneResult(p2, m, k);
    }
  }

  /** The rngsteps never read the result table: runs from two result tables agree on
      the internal table, a and b, and every result slot written so far. */
  lemma {:induction false} StepsIgnoreResults(r1: Regen, r2: Regen, n: nat)
    requires RunsAgree(r1, r2, 0) && n <= RandSize
    ensures RunsAgree(Steps(r1, n), Steps(r2, n), n)
  {
    if n > 0 {
      StepsIgnoreResults(r1, r2, n - 1);
      NextStepIgnoresResults(r1, r2, n);
    }
  }

  /** Step n - 1 of StepsIgnoreResults: agreement after n - 1 steps carries to n. */
  lemma NextStepIgnoresResults(r1: Regen, r2: Regen, n: nat)
    requires RegenOk(r1) && RegenOk(r2) && 0 < n <= RandSize
    requires RunsAgree(Steps(r1, n - 1), Steps(r2, n - 1), n - 1)
    ensures RunsAgree(Steps(r1, n), Steps(r2, n), n)
  {
    var p1, p2 := Steps(r1, n - 1), Steps(r2, n - 1);
    RngStepIgnoresResults(p1, p2, n - 1);
    assert Steps(r1, n) == RngStep(p1, n - 1) && Steps(r2, n) == RngStep(p2, n - 1);
  }

  /** isaac() rewrites all 256 result slots without reading them: its outcome does not
      depend on what the result table held. */
  lemma RegenerateIgnoresResults(s: State, rsl: seq<bv32>)
    requires WellFormed(s) && |rsl| == RandSize
    ensures Regenerate(s.(randrsl := rsl)) == Regenerate(s)
  {
    var l1, l2 := LoadRegisters(s.(randrsl := rsl)), LoadRegisters(s);
    var r1 := Regen(l1.randmem, l1.randrsl, l1.acc.a, l1.acc.b);
    var r2 := Regen(l2.randmem, l2.randrsl, l2.acc.a, l2.acc.b);
    StepsIgnoreResults(r1, r2, RandSize);
    assert Steps(r1, RandSize).randrsl == Steps(r2, RandSize).randrsl;
  }
}
