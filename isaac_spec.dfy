/** Reference definitions of the ISAAC generator (Robert J. Jenkins Jr.'s algorithm,
    as adapted in isaac.h) as pure functions on a value of the whole generator state.
    The class in isaac.dfy runs the same algorithm step by step on arrays, and each of
    its methods is proved equal to one of these functions. All arithmetic is on
    32-bit words (bv32), so additions wrap around modulo 2^32 as uint32_t does. */
module IsaacSpec {

  /** kRandSizeBits and kRandSize: the two tables hold 2^8 = 256 words. */
  const RandSizeBits: bv32 := 8
  const RandSize: nat := 256
  /** kRandSize / 2: the slots of each of the two loops of a regeneration. */
  const HalfSize: nat := 128
  /** kRandSize / 8: the groups of 8 slots that randinit's passes work through. */
  const Groups: nat := 32
  /** Bytes in the result table (kRandSize * sizeof(uint32_t)). */
  const RandBytes: nat := 1024
  /** The golden-ratio constant the constructors load into a..h. */
  const Golden: bv32 := 0x9e3779b9

  datatype Option<T> = None | Some(value: T)

  /** std::min on sizes. */
  function Min(x: nat, y: nat): nat { if x < y then x else y }

  function Zeros(n: nat): (z: seq<bv32>)
    ensures |z| == n && forall j :: 0 <= j < n ==> z[j] == 0
  {
    seq(n, _ => 0)
  }

  /** The eight mixing accumulators a..h. */
  datatype Acc = Acc(a: bv32, b: bv32, c: bv32, d: bv32, e: bv32, f: bv32, g: bv32, h: bv32)

  /** The whole generator state: the cursor, the result table, the internal table,
      the three carry words and the eight accumulators. */
  datatype State = State(
    randcnt: nat,
    randrsl: seq<bv32>,
    randmem: seq<bv32>,
    randa: bv32,
    randb: bv32,
    randc: bv32,
    acc: Acc)

  /** Both tables hold exactly 256 words and the cursor never exceeds 256. */
  predicate WellFormed(s: State)
  {
    |s.randrsl| == RandSize && |s.randmem| == RandSize && s.randcnt <= RandSize
  }

  /** The values the constructors give the fields before seeding. The tables and the
      cursor are not initialised by the constructors; any value will do, since seeding
      rewrites all of them before reading them (RandInitIgnoresTableAndCursor). */
  function Initial(): (s: State)
    ensures WellFormed(s)
  {
    State(0, Zeros(RandSize), Zeros(RandSize), 0, 0, 0,
          Acc(Golden, Golden, Golden, Golden, Golden, Golden, Golden, Golden))
  }

  // ---------------------------------------------------------------------------
  // mix
  // ---------------------------------------------------------------------------

  // The word operations of the algorithm, named once so that the reference
  // definitions and the imperative methods are built from the very same terms.

  /** uint32_t addition: wraps around modulo 2^32. */
  function Add(x: bv32, y: bv32): bv32 { x + y }

  function Xor(x: bv32, y: bv32): bv32 { x ^ y }

  /** Left shift of a uint32_t; bits shifted past bit 31 are lost. */
  function Shl(x: bv32, n: bv32): bv32
    requires n < 32
  {
    x << n
  }

  /** Logical right shift of a uint32_t. */
  function Shr(x: bv32, n: bv32): bv32
    requires n < 32
  {
    x >> n
  }

  /** The 24-step add/xor/shift network; each step uses the value the previous
      steps left in the accumulators. */
  function Mix(s: Acc): Acc
  {
    var a := Xor(s.a, Shl(s.b, 11));
    var d := Add(s.d, a);
    var b := Add(s.b, s.c);
    var b := Xor(b, Shr(s.c, 2));
    var e := Add(s.e, b);
    var c := Add(s.c, d);
    var c := Xor(c, Shl(d, 8));
    var f := Add(s.f, c);
    var d := Add(d, e);
    var d := Xor(d, Shr(e, 16));
    var g := Add(s.g, d);
    var e := Add(e, f);
    var e := Xor(e, Shl(f, 10));
    var h := Add(s.h, e);
    var f := Add(f, g);
    var f := Xor(f, Shr(g, 4));
    var a := Add(a, f);
    var g := Add(g, h);
    var g := Xor(g, Shl(h, 8));
    var b := Add(b, g);
    var h := Add(h, a);
    var h := Xor(h, Shr(a, 9));
    var c := Add(c, h);
    var a := Add(a, b);
    Acc(a, b, c, d, e, f, g, h)
  }

  /** n applications of Mix. */
  function MixTimes(s: Acc, n: nat): Acc
  {
    if n == 0 then s else Mix(MixTimes(s, n - 1))
  }

  // ---------------------------------------------------------------------------
  // ind and rngstep: one regeneration cycle (isaac)
  // ---------------------------------------------------------------------------

  /** The word index that ind selects: bits 2 .. 9 of x read as a number, which is
      the byte offset x & ((kRandSize - 1) << 2) divided by the word size. */
  function Slot(x: bv32): (i: nat)
    ensures i < RandSize
  {
    ((x >> 2) & 255) as int
  }

  /** ind(mm, x): the word of mm found at byte offset x & ((kRandSize - 1) << 2). The
      offset is a multiple of 4 below 1024, so the read is one whole, in-bounds word. */
  function Ind(mm: seq<bv32>, x: bv32): (r: bv32)
    requires |mm| == RandSize
    ensures r in mm
  {
    mm[Slot(x)]
  }

  /** The masked byte offset is 4 times the slot, so ind reads exactly the word at
      index Slot(x). */
  lemma OffsetIsSlot(x: bv32)
    ensures (x & (((RandSize - 1) as bv32) << 2)) as int / 4 == Slot(x)
    ensures (x & (((RandSize - 1) as bv32) << 2)) as int % 4 == 0
  {
    MaskIsShiftedIndex(x);
    ShiftTwoAsInt((x >> 2) & 255);
  }

  /** The mask keeps bits 2 .. 9 of x in place: it is the index (x >> 2) & 255 shifted
      back left by 2. */
  lemma MaskIsShiftedIndex(x: bv32)
    ensures x & (((RandSize - 1) as bv32) << 2) == ((x >> 2) & 255) << 2
  {
  }

  /** For a word below 256, shifting left by 2 multiplies by 4. */
  lemma ShiftTwoAsInt(v: bv32)
    requires v < 256
    ensures (v << 2) as int == 4 * v as int
  {
  }

  /** The registers and tables a regeneration cycle works on. */
  datatype Regen = Regen(randmem: seq<bv32>, randrsl: seq<bv32>, a: bv32, b: bv32)

  predicate RegenOk(r: Regen)
  {
    |r.randmem| == RandSize && |r.randrsl| == RandSize
  }

  /** The shift rngstep applies to a before mixing it in: a << n or a >> n. */
  datatype Shift = Left(n: bv32) | Right(n: bv32)

  /** The shift used at step m: <<13, >>6, <<2, >>16, cycling four steps per
      unrolled loop iteration. */
  function MixShift(m: nat): (s: Shift)
    ensures s.n < 32
  {
    match m % 4
    case 0 => Left(13)
    case 1 => Right(6)
    case 2 => Left(2)
    case _ => Right(16)
  }

  /** a shifted as s says. */
  function Shifted(a: bv32, s: Shift): bv32
    requires s.n < 32
  {
    match s
    case Left(n) => Shl(a, n)
    case Right(n) => Shr(a, n)
  }

  /** The value mixed into a at step m. */
  function Mixit(a: bv32, m: nat): bv32
  {
    Shifted(a, MixShift(m))
  }

  /** The slot paired with m: the first half-pass pairs m with m + 128, the second
      pairs m with m - 128 (the second loop restarts m2 at the table's start). */
  function Partner(m: nat): (p: nat)
    requires m < RandSize
    ensures p < RandSize && p != m
    ensures (m < HalfSize) == (HalfSize <= p)
  {
    if m < HalfSize then m + HalfSize else m - HalfSize
  }

  /** rngstep at slot m (the result pointer r always equals m). The table is updated
      in place: the second ind reads the table after slot m has been rewritten. */
  function RngStep(r: Regen, m: nat): (q: Regen)
    requires RegenOk(r) && m < RandSize
    ensures RegenOk(q) && q.randrsl == r.randrsl[m := q.b]
    ensures q.randmem == r.randmem[m := q.randmem[m]]
  {
    var x := r.randmem[m];
    var a := Add(Xor(r.a, Mixit(r.a, m)), r.randmem[Partner(m)]);
    var y := Add(Add(Ind(r.randmem, x), a), r.b);
    var mem := r.randmem[m := y];
    var b := Add(Ind(mem, Shr(y, RandSizeBits)), x);
    Regen(mem, r.randrsl[m := b], a, b)
  }

  /** The first n rngsteps of a cycle, at slots 0 .. n-1. */
  function Steps(r: Regen, n: nat): (q: Regen)
    requires RegenOk(r) && n <= RandSize
    ensures RegenOk(q)
  {
    if n == 0 then r else RngStep(Steps(r, n - 1), n - 1)
  }

  /** The start of isaac(): ++randc, a = randa, b = randb + randc. */
  function LoadRegisters(s: State): (t: State)
    requires WellFormed(s)
    ensures WellFormed(t)
  {
    var c := Add(s.randc, 1);
    s.(randc := c, acc := s.acc.(a := s.randa, b := Add(s.randb, c)))
  }

  /** The two loops of isaac(): the 256 rngsteps over the tables, with the member
      accumulators a and b as the working registers. */
  function RunSteps(s: State): (t: State)
    requires WellFormed(s)
    ensures WellFormed(t)
  {
    // |s.randmem| is RandSize: the loops run once over the whole table.
    var r := Steps(Regen(s.randmem, s.randrsl, s.acc.a, s.acc.b), |s.randmem|);
    s.(randrsl := r.randrsl, randmem := r.randmem, acc := s.acc.(a := r.a, b := r.b))
  }

  /** The end of isaac(): randb = b, randa = a. */
  function SaveRegisters(s: State): (t: State)
    ensures t.randa == t.acc.a && t.randb == t.acc.b
    ensures t.(randa := s.randa, randb := s.randb) == s
  {
    s.(randa := s.acc.a, randb := s.acc.b)
  }

  /** isaac(): one regeneration cycle. Since a and b are the working registers, they
      end equal to randa and randb; c..h and the cursor are kept. */
  function Regenerate(s: State): (t: State)
    requires WellFormed(s)
    ensures WellFormed(t)
    ensures t.randc == Add(s.randc, 1) && t.randcnt == s.randcnt
    ensures t.acc.a == t.randa && t.acc.b == t.randb
    ensures t.acc.(a := s.acc.a, b := s.acc.b) == s.acc
  {
    SaveRegisters(RunSteps(LoadRegisters(s)))
  }

  // ---------------------------------------------------------------------------
  // randinit
  // ---------------------------------------------------------------------------

  /** The accumulators together with the internal table, as randinit updates them. */
  datatype Table = Table(acc: Acc, randmem: seq<bv32>)

  /** Adds the 8 words w[i .. i+8] into a..h. */
  function AddGroup(acc: Acc, w: seq<bv32>, i: nat): Acc
    requires i + 8 <= |w|
  {
    Acc(Add(acc.a, w[i]), Add(acc.b, w[i + 1]), Add(acc.c, w[i + 2]), Add(acc.d, w[i + 3]),
        Add(acc.e, w[i + 4]), Add(acc.f, w[i + 5]), Add(acc.g, w[i + 6]), Add(acc.h, w[i + 7]))
  }

  /** Accumulator j of a..h (0 = a). */
  function Word(acc: Acc, j: nat): bv32
    requires j < 8
  {
    match j
    case 0 => acc.a
    case 1 => acc.b
    case 2 => acc.c
    case 3 => acc.d
    case 4 => acc.e
    case 5 => acc.f
    case 6 => acc.g
    case _ => acc.h
  }

  /** The table with a..h written into its 8 slots i .. i+7 and every other slot kept. */
  function StoreGroup(mem: seq<bv32>, i: nat, acc: Acc): (m: seq<bv32>)
    requires i + 8 <= |mem|
  {
    seq(|mem|, k requires 0 <= k < |mem| => if i <= k < i + 8 then Word(acc, k - i) else mem[k])
  }

  /** The same table written one slot at a time, a first and h last, as randinit does. */
  function Stores(mem: seq<bv32>, i: nat, acc: Acc): seq<bv32>
    requires i + 8 <= |mem|
  {
    mem[i := acc.a][i + 1 := acc.b][i + 2 := acc.c][i + 3 := acc.d]
       [i + 4 := acc.e][i + 5 := acc.f][i + 6 := acc.g][i + 7 := acc.h]
  }

  /** The eight single-slot writes leave exactly the group store. */
  lemma StoresAreGroup(mem: seq<bv32>, i: nat, acc: Acc)
    requires i + 8 <= |mem|
    ensures Stores(mem, i, acc) == StoreGroup(mem, i, acc)
  {
    forall k | 0 <= k < |mem|
      ensures Stores(mem, i, acc)[k] == StoreGroup(mem, i, acc)[k]
    {
      StoresAt(mem, i, acc, k);
    }
  }

  /** Slot k after the eight single-slot writes: word k - i of a..h inside the group,
      the old word outside it. */
  lemma StoresAt(mem: seq<bv32>, i: nat, acc: Acc, k: nat)
    requires i + 8 <= |mem| && k < |mem|
    ensures Stores(mem, i, acc)[k] == if i <= k < i + 8 then Word(acc, k - i) else mem[k]
  {
    if k < i || i + 8 <= k {
    } else if k == i {
    } else if k == i + 1 {
    } else if k == i + 2 {
    } else if k == i + 3 {
    } else if k == i + 4 {
    } else if k == i + 5 {
    } else if k == i + 6 {
    } else {
      assert k == i + 7;
    }
  }

  /** One group of the first absorption pass, at slots i .. i+7: add the 8 seed words
      into a..h, mix, and store a..h into the group's slots. */
  function SeedGroup(p: Table, seed: seq<bv32>, i: nat): (u: Table)
    requires i + 8 <= |seed| && i + 8 <= |p.randmem|
    ensures |u.randmem| == |p.randmem|
  {
    var acc := Mix(AddGroup(p.acc, seed, i));
    Table(acc, StoreGroup(p.randmem, i, acc))
  }

  /** One group of the second absorption pass: the same, adding the group's own words
      as they stand in the internal table. */
  function TableGroup(p: Table, i: nat): (u: Table)
    requires i + 8 <= |p.randmem|
    ensures |u.randmem| == |p.randmem|
  {
    var acc := Mix(AddGroup(p.acc, p.randmem, i));
    Table(acc, StoreGroup(p.randmem, i, acc))
  }

  /** One group of the fill pass of randinit(false): mix, then store, with no input. */
  function FillGroup(p: Table, i: nat): (u: Table)
    requires i + 8 <= |p.randmem|
    ensures |u.randmem| == |p.randmem|
  {
    var acc := Mix(p.acc);
    Table(acc, StoreGroup(p.randmem, i, acc))
  }

  /** The first absorption pass over groups 0 .. n-1. */
  function SeedPass(t: Table, seed: seq<bv32>, n: nat): (u: Table)
    requires |t.randmem| == RandSize && |seed| == RandSize && n <= Groups
    ensures |u.randmem| == RandSize
  {
    if n == 0 then t else SeedGroup(SeedPass(t, seed, n - 1), seed, 8 * (n - 1))
  }

  /** The second absorption pass over groups 0 .. n-1. */
  function TablePass(t: Table, n: nat): (u: Table)
    requires |t.randmem| == RandSize && n <= Groups
    ensures |u.randmem| == RandSize
  {
    if n == 0 then t else TableGroup(TablePass(t, n - 1), 8 * (n - 1))
  }

  /** One more group of the second pass. */
  lemma TablePassStep(t: Table, n: nat)
    requires |t.randmem| == RandSize && n < Groups
    ensures TablePass(t, n + 1) == TableGroup(TablePass(t, n), 8 * n)
  {
  }

  /** The fill pass over groups 0 .. n-1. */
  function FillPass(t: Table, n: nat): (u: Table)
    requires |t.randmem| == RandSize && n <= Groups
    ensures |u.randmem| == RandSize
  {
    if n == 0 then t else FillGroup(FillPass(t, n - 1), 8 * (n - 1))
  }

  /** The passes of randinit after the scrambling mixes: with flag, the seed pass
      over the result table and then the pass over the internal table; without it,
      the fill pass. There is one group per 8 table slots. */
  function Absorb(t: Table, seed: seq<bv32>, flag: bool): (u: Table)
    requires |t.randmem| == RandSize && |seed| == RandSize
    ensures |u.randmem| == RandSize
  {
    if flag then TablePass(SeedPass(t, seed, Groups), Groups) else FillPass(t, Groups)
  }

  /** The state after the passes: the accumulators and the internal table as Absorb
      leaves them, everything else as it was. */
  function Absorbed(s: State, flag: bool): (t: State)
    requires WellFormed(s)
    ensures WellFormed(t)
    ensures t.(acc := s.acc, randmem := s.randmem) == s
  {
    var u := Absorb(Table(s.acc, s.randmem), s.randrsl, flag);
    s.(acc := u.acc, randmem := u.randmem)
  }

  /** randinit(flag): four scrambling mixes, then the passes, then one regeneration,
      and the cursor set to 256. It starts from the CURRENT accumulators and carry
      words: nothing here resets them. */
  function RandInit(s: State, flag: bool): (t: State)
    requires WellFormed(s)
    ensures WellFormed(t) && t.randcnt == RandSize
  {
    Regenerate(Absorbed(s.(acc := MixTimes(s.acc, 4)), flag)).(randcnt := RandSize)
  }

  // ---------------------------------------------------------------------------
  // seeding
  // ---------------------------------------------------------------------------

  /** A seed pointer may be null; when it is not, it must give access to the words
      (or bytes) the seeding copies. */
  predicate Readable<T>(seedArr: Option<seq<T>>, count: nat)
  {
    seedArr.Some? ==> count <= |seedArr.value|
  }

  /** How many words seed(const uint32_t*, size_t) copies. */
  function WordCount(seedArr: Option<seq<bv32>>, seedlen: nat): nat
  {
    if seedArr.Some? then Min(seedlen, RandSize) else 0
  }

  /** std::copy of the first n words of src over the start of t. */
  function CopyPrefix(t: seq<bv32>, src: seq<bv32>, n: nat): (u: seq<bv32>)
    requires n <= |src| && n <= |t|
    ensures |u| == |t|
    ensures forall k :: 0 <= k < n ==> u[k] == src[k]
    ensures forall k :: n <= k < |t| ==> u[k] == t[k]
  {
    seq(|t|, k requires 0 <= k < |t| => if k < n then src[k] else t[k])
  }

  /** The result table after the zero-fill and the copy of seed(const uint32_t*, size_t). */
  function WordSeedBuffer(seedArr: Option<seq<bv32>>, seedlen: nat): (buf: seq<bv32>)
    requires Readable(seedArr, Min(seedlen, RandSize))
    ensures |buf| == RandSize
  {
    if seedArr.Some? then CopyPrefix(Zeros(RandSize), seedArr.value, Min(seedlen, RandSize))
    else Zeros(RandSize)
  }

  /** seed(const uint32_t*, size_t). */
  function SeedWords(s: State, seedArr: Option<seq<bv32>>, seedlen: nat): (t: State)
    requires WellFormed(s) && Readable(seedArr, Min(seedlen, RandSize))
    ensures WellFormed(t) && t.randcnt == RandSize
  {
    RandInit(s.(randrsl := WordSeedBuffer(seedArr, seedlen)), true)
  }

  /** How many bytes seed(const char*, size_t) copies. */
  function ByteCount(seedArr: Option<seq<bv8>>, seedlen: nat): nat
  {
    if seedArr.Some? then Min(seedlen, RandBytes) else 0
  }

  /** Byte i of the result table after the zero-fill and the memcpy. */
  function SeedByte(seedArr: Option<seq<bv8>>, seedlen: nat, i: nat): bv8
    requires Readable(seedArr, Min(seedlen, RandBytes))
  {
    if i < ByteCount(seedArr, seedlen) then seedArr.value[i] else 0
  }

  /** The word whose bytes, lowest address first, are b0..b3 (little-endian order). */
  function PackLE(b0: bv8, b1: bv8, b2: bv8, b3: bv8): bv32
  {
    (b0 as bv32) | ((b1 as bv32) << 8) | ((b2 as bv32) << 16) | ((b3 as bv32) << 24)
  }

  /** Byte k (0 = lowest address) of a word stored little-endian. */
  function ByteOf(w: bv32, k: nat): bv8
    requires k < 4
  {
    match k
    case 0 => (w & 0xff) as bv8
    case 1 => ((w >> 8) & 0xff) as bv8
    case 2 => ((w >> 16) & 0xff) as bv8
    case _ => (w >> 24) as bv8
  }

  /** Byte k of word j of a table after the first tlen bytes of src were copied over
      it: the source byte 4j + k when it is among those copied, else the byte the word
      already had. */
  function CopiedByte(w: bv32, src: seq<bv8>, tlen: nat, j: nat, k: nat): bv8
    requires tlen <= |src| && k < 4
  {
    if 4 * j + k < tlen then src[4 * j + k] else ByteOf(w, k)
  }

  /** Word j of a table, previously w, after memcpy of the first tlen bytes of src
      over the table's bytes. */
  function MemcpyWord(w: bv32, src: seq<bv8>, tlen: nat, j: nat): bv32
    requires tlen <= |src|
  {
    PackLE(CopiedByte(w, src, tlen, j, 0), CopiedByte(w, src, tlen, j, 1),
           CopiedByte(w, src, tlen, j, 2), CopiedByte(w, src, tlen, j, 3))
  }

  /** Every byte of the zero word is zero. */
  lemma ByteOfZero()
    ensures ByteOf(0, 0) == 0 && ByteOf(0, 1) == 0 && ByteOf(0, 2) == 0 && ByteOf(0, 3) == 0
  {
  }

  /** Reading back the bytes of a packed word gives the bytes it was packed from. */
  lemma UnpackPack(b0: bv8, b1: bv8, b2: bv8, b3: bv8)
    ensures ByteOf(PackLE(b0, b1, b2, b3), 0) == b0 && ByteOf(PackLE(b0, b1, b2, b3), 1) == b1
    ensures ByteOf(PackLE(b0, b1, b2, b3), 2) == b2 && ByteOf(PackLE(b0, b1, b2, b3), 3) == b3
  {
  }

  /** Packing the four bytes of a word gives the word back. */
  lemma PackUnpack(w: bv32)
    ensures PackLE(ByteOf(w, 0), ByteOf(w, 1), ByteOf(w, 2), ByteOf(w, 3)) == w
  {
  }

  /** memcpy of the first tlen bytes of src over the bytes of the table t: every word
      the copy reaches takes its copied bytes and keeps the others. */
  function MemcpyTable(t: seq<bv32>, src: seq<bv8>, tlen: nat): (u: seq<bv32>)
    requires tlen <= |src|
    ensures |u| == |t|
    ensures forall j :: 0 <= j < |t| && tlen <= 4 * j ==> u[j] == t[j]
  {
    seq(|t|, j requires 0 <= j < |t| => if 4 * j < tlen then MemcpyWord(t[j], src, tlen, j) else t[j])
  }

  /** The result table after the zero-fill and the memcpy of seed(const char*, size_t). */
  function ByteSeedBuffer(seedArr: Option<seq<bv8>>, seedlen: nat): (buf: seq<bv32>)
    requires Readable(seedArr, Min(seedlen, RandBytes))
    ensures |buf| == RandSize
  {
    if seedArr.Some? then MemcpyTable(Zeros(RandSize), seedArr.value, Min(seedlen, RandBytes))
    else Zeros(RandSize)
  }

  /** seed(const char*, size_t). */
  function SeedBytes(s: State, seedArr: Option<seq<bv8>>, seedlen: nat): (t: State)
    requires WellFormed(s) && Readable(seedArr, Min(seedlen, RandBytes))
    ensures WellFormed(t) && t.randcnt == RandSize
  {
    RandInit(s.(randrsl := ByteSeedBuffer(seedArr, seedlen)), true)
  }

  /** seed(std::random_device&), with the device's 256 draws given as a sequence. */
  function SeedDraws(s: State, draws: seq<bv32>): (t: State)
    requires WellFormed(s) && |draws| == RandSize
    ensures WellFormed(t) && t.randcnt == RandSize
  {
    RandInit(s.(randrsl := draws), true)
  }

  // ---------------------------------------------------------------------------
  // rand and equality
  // ---------------------------------------------------------------------------

  /** The state after a call of rand() and the value it returns. */
  datatype Draw = Draw(state: State, value: bv32)

  /** rand(): when the cursor is 0, regenerate and restart it at 255; otherwise step it
      down by one. The value is the result word under the new cursor. */
  function Rand(s: State): (d: Draw)
    requires WellFormed(s)
    ensures WellFormed(d.state) && d.state.randcnt < RandSize
    ensures d.value == d.state.randrsl[d.state.randcnt]
  {
    if s.randcnt == 0 then
      var t := Regenerate(s).(randcnt := RandSize - 1);
      Draw(t, t.randrsl[t.randcnt])
    else
      var t := s.(randcnt := s.randcnt - 1);
      Draw(t, t.randrsl[t.randcnt])
  }

  /** operator==: the cursor, a..h, randa/randb/randc and the result table agree.
      The internal table is not compared. */
  function Equal(s: State, t: State): (r: bool)
    ensures r <==> s.(randmem := t.randmem) == t
  {
    s.randcnt == t.randcnt && s.acc.a == t.acc.a && s.acc.b == t.acc.b && s.acc.c == t.acc.c &&
    s.acc.d == t.acc.d && s.acc.e == t.acc.e && s.acc.f == t.acc.f && s.acc.g == t.acc.g &&
    s.acc.h == t.acc.h && s.randa == t.randa && s.randb == t.randb && s.randc == t.randc &&
    s.randrsl == t.randrsl
  }

  // ---------------------------------------------------------------------------
  // lemmas used by the imperative model
  // ---------------------------------------------------------------------------

  /** The first absorption pass rewrites every table slot it passes, so its result
      does not depend on what the table held before. */
  lemma {:induction false} SeedPassOverwrites(t1: Table, t2: Table, seed: seq<bv32>, n: nat)
    requires |t1.randmem| == RandSize && |t2.randmem| == RandSize && |seed| == RandSize
    requires n <= Groups && t1.acc == t2.acc
    ensures SeedPass(t1, seed, n).acc == SeedPass(t2, seed, n).acc
    ensures forall k :: 0 <= k < 8 * n ==> SeedPass(t1, seed, n).randmem[k] == SeedPass(t2, seed, n).randmem[k]
  {
    if n > 0 {
      SeedPassOverwrites(t1, t2, seed, n - 1);
    }
  }

  /** The same for the fill pass of randinit(false). */
  lemma {:induction false} FillPassOverwrites(t1: Table, t2: Table, n: nat)
    requires |t1.randmem| == RandSize && |t2.randmem| == RandSize
    requires n <= Groups && t1.acc == t2.acc
    ensures FillPass(t1, n).acc == FillPass(t2, n).acc
    ensures forall k :: 0 <= k < 8 * n ==> FillPass(t1, n).randmem[k] == FillPass(t2, n).randmem[k]
  {
    if n > 0 {
      FillPassOverwrites(t1, t2, n - 1);
    }
  }

  /** The passes rewrite every slot of the internal table before reading it, so their
      result does not depend on what the table held before. */
  lemma AbsorbIgnoresTable(acc: Acc, mem1: seq<bv32>, mem2: seq<bv32>, seed: seq<bv32>, flag: bool)
    requires |mem1| == RandSize && |mem2| == RandSize && |seed| == RandSize
    ensures Absorb(Table(acc, mem1), seed, flag) == Absorb(Table(acc, mem2), seed, flag)
  {
    var t1, t2 := Table(acc, mem1), Table(acc, mem2);
    if flag {
      SeedPassOverwrites(t1, t2, seed, Groups);
      assert SeedPass(t1, seed, Groups).randmem == SeedPass(t2, seed, Groups).randmem;
    } else {
      FillPassOverwrites(t1, t2, Groups);
      assert FillPass(t1, Groups).randmem == FillPass(t2, Groups).randmem;
    }
  }

  /** A regeneration neither reads nor writes the cursor. */
  lemma RegenerateIgnoresCursor(s: State, cnt: nat)
    requires WellFormed(s) && cnt <= RandSize
    ensures Regenerate(s.(randcnt := cnt)) == Regenerate(s).(randcnt := cnt)
  {
  }

  /** Seeding reads neither the internal table nor the cursor before rewriting them:
      randinit's result is the same whatever they held. This is why the constructors
      may leave both uninitialised. */
  lemma RandInitIgnoresTableAndCursor(s: State, mem: seq<bv32>, cnt: nat, flag: bool)
    requires WellFormed(s) && |mem| == RandSize && cnt <= RandSize
    ensures RandInit(s.(randmem := mem, randcnt := cnt), flag) == RandInit(s, flag)
  {
    var acc := MixTimes(s.acc, 4);
    AbsorbIgnoresTable(acc, mem, s.randmem, s.randrsl, flag);
    var u := Absorb(Table(acc, s.randmem), s.randrsl, flag);
    RegenerateIgnoresCursor(s.(acc := u.acc, randmem := u.randmem), cnt);
  }

  /** A state the member initialisers can leave before seeding: carry words zero,
      accumulators at the golden ratio, the tables and the cursor holding anything. */
  predicate Unseeded(s: State)
  {
    WellFormed(s) && s.randa == 0 && s.randb == 0 && s.randc == 0 && s.acc == Initial().acc
  }

  /** randinit from any unseeded state gives what it gives from Initial(). */
  lemma RandInitFromUnseeded(s: State, rsl: seq<bv32>, flag: bool)
    requires Unseeded(s) && |rsl| == RandSize
    ensures RandInit(s.(randrsl := rsl), flag) == RandInit(Initial().(randrsl := rsl), flag)
  {
    RandInitIgnoresTableAndCursor(Initial().(randrsl := rsl), s.randmem, s.randcnt, flag);
    assert s.(randrsl := rsl) == Initial().(randrsl := rsl).(randmem := s.randmem, randcnt := s.randcnt);
  }

  /** A constructor seeding from words ends in the same state whatever its tables
      and cursor held before. */
  lemma SeedWordsFromUnseeded(s: State, seedArr: Option<seq<bv32>>, seedlen: nat)
    requires Unseeded(s) && Readable(seedArr, Min(seedlen, RandSize))
    ensures SeedWords(s, seedArr, seedlen) == SeedWords(Initial(), seedArr, seedlen)
  {
    RandInitFromUnseeded(s, WordSeedBuffer(seedArr, seedlen), true);
  }

  /** The same for a constructor seeding from bytes. */
  lemma SeedBytesFromUnseeded(s: State, seedArr: Option<seq<bv8>>, seedlen: nat)
    requires Unseeded(s) && Readable(seedArr, Min(seedlen, RandBytes))
    ensures SeedBytes(s, seedArr, seedlen) == SeedBytes(Initial(), seedArr, seedlen)
  {
    RandInitFromUnseeded(s, ByteSeedBuffer(seedArr, seedlen), true);
  }

  /** The same for a constructor seeding from a random device. */
  lemma SeedDrawsFromUnseeded(s: State, draws: seq<bv32>)
    requires Unseeded(s) && |draws| == RandSize
    ensures SeedDraws(s, draws) == SeedDraws(Initial(), draws)
  {
    RandInitFromUnseeded(s, draws, true);
  }
}
