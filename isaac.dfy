/** The generator class of isaac.h: two fixed 256-word tables, three carry words,
    eight accumulators and a cursor, updated in place. Every method is proved to
    leave the state that the matching function of IsaacSpec computes from the old
    state. */
module Isaac {
  import opened IsaacSpec

  class Isaac {
    /** randrsl: the block of results, consumed from the top down. */
    const randrsl: array<bv32>
    /** randmem: the internal table. */
    const randmem: array<bv32>
    /** randcnt: how many results of the current block are still unread. */
    var randcnt: nat
    var randa: bv32
    var randb: bv32
    var randc: bv32
    var a: bv32
    var b: bv32
    var c: bv32
    var d: bv32
    var e: bv32
    var f: bv32
    var g: bv32
    var h: bv32

    ghost predicate Valid()
      reads this`randcnt
    {
      randrsl.Length == RandSize && randmem.Length == RandSize && randrsl != randmem &&
      randcnt <= RandSize
    }

    /** The state as a value. */
    ghost function Model(): (s: State)
      reads this, randrsl, randmem
      requires Valid()
      ensures WellFormed(s)
    {
      State(randcnt, randrsl[..], randmem[..], randa, randb, randc, AccOf())
    }

    /** The eight accumulators as a value. */
    ghost function AccOf(): Acc
      reads this
    {
      Acc(a, b, c, d, e, f, g, h)
    }

    /** The accumulators and the internal table, the part of the state randinit's
        passes work on. */
    ghost function TableView(): Table
      reads this, randmem
    {
      Table(AccOf(), randmem[..])
    }

    /** The part of the state a regeneration cycle works on. */
    ghost function RegenView(): Regen
      reads this, randrsl, randmem
    {
      Regen(randmem[..], randrsl[..], a, b)
    }

    /** Isaac(): the same as Isaac(nullptr, 0). The member initialisers leave the tables
        and the cursor uninitialised; seeding does not read them, so every constructor
        ends in the state its seeding gives from any unseeded state. */
    constructor ()
      ensures Valid() && fresh(randrsl) && fresh(randmem)
      ensures forall s :: Unseeded(s) ==> Model() == IsaacSpec.SeedWords(s, None, 0)
    {
      randrsl := new bv32[RandSize];
      randmem := new bv32[RandSize];
      randa, randb, randc := 0, 0, 0;
      a, b, c, d := Golden, Golden, Golden, Golden;
      e, f, g, h := Golden, Golden, Golden, Golden;
      randcnt := 0;
      new;
      ghost var s0 := Model();
      SeedWords(None, 0);
      forall s | Unseeded(s) ensures Model() == IsaacSpec.SeedWords(s, None, 0) {
        SeedWordsFromUnseeded(s0, None, 0);
        SeedWordsFromUnseeded(s, None, 0);
      }
    }

    /** Isaac(const uint32_t*, size_t): constructor followed by word seeding. */
    constructor FromWords(seedArr: Option<seq<bv32>>, seedlen: nat)
      requires Readable(seedArr, Min(seedlen, RandSize))
      ensures Valid() && fresh(randrsl) && fresh(randmem)
      ensures forall s :: Unseeded(s) ==> Model() == IsaacSpec.SeedWords(s, seedArr, seedlen)
    {
      randrsl := new bv32[RandSize];
      randmem := new bv32[RandSize];
      randa, randb, randc := 0, 0, 0;
      a, b, c, d := Golden, Golden, Golden, Golden;
      e, f, g, h := Golden, Golden, Golden, Golden;
      randcnt := 0;
      new;
      ghost var s0 := Model();
      SeedWords(seedArr, seedlen);
      forall s | Unseeded(s) ensures Model() == IsaacSpec.SeedWords(s, seedArr, seedlen) {
        SeedWordsFromUnseeded(s0, seedArr, seedlen);
        SeedWordsFromUnseeded(s, seedArr, seedlen);
      }
    }

    /** Isaac(const char*, size_t): constructor followed by byte seeding. */
    constructor FromBytes(seedArr: Option<seq<bv8>>, seedlen: nat)
      requires Readable(seedArr, Min(seedlen, RandBytes))
      ensures Valid() && fresh(randrsl) && fresh(randmem)
      ensures forall s :: Unseeded(s) ==> Model() == IsaacSpec.SeedBytes(s, seedArr, seedlen)
    {
      randrsl := new bv32[RandSize];
      randmem := new bv32[RandSize];
      randa, randb, randc := 0, 0, 0;
      a, b, c, d := Golden, Golden, Golden, Golden;
      e, f, g, h := Golden, Golden, Golden, Golden;
      randcnt := 0;
      new;
      ghost var s0 := Model();
      SeedBytes(seedArr, seedlen);
      forall s | Unseeded(s) ensures Model() == IsaacSpec.SeedBytes(s, seedArr, seedlen) {
        SeedBytesFromUnseeded(s0, seedArr, seedlen);
        SeedBytesFromUnseeded(s, seedArr, seedlen);
      }
    }

    /** Isaac(std::random_device&), with the device's 256 draws given in order. */
    constructor FromDraws(draws: seq<bv32>)
      requires |draws| == RandSize
      ensures Valid() && fresh(randrsl) && fresh(randmem)
      ensures forall s :: Unseeded(s) ==> Model() == IsaacSpec.SeedDraws(s, draws)
    {
      randrsl := new bv32[RandSize];
      randmem := new bv32[RandSize];
      randa, randb, randc := 0, 0, 0;
      a, b, c, d := Golden, Golden, Golden, Golden;
      e, f, g, h := Golden, Golden, Golden, Golden;
      randcnt := 0;
      new;
      ghost var s0 := Model();
      SeedDraws(draws);
      forall s | Unseeded(s) ensures Model() == IsaacSpec.SeedDraws(s, draws) {
        SeedDrawsFromUnseeded(s0, draws);
        SeedDrawsFromUnseeded(s, draws);
      }
    }

    /** The implicit copy constructor: every member copied, tables element by element. */
    constructor Copy(other: Isaac)
      requires other.Valid()
      ensures Valid() && fresh(randrsl) && fresh(randmem)
      ensures Model() == other.Model()
    {
      randrsl := new bv32[RandSize];
      randmem := new bv32[RandSize];
      randcnt := other.randcnt;
      randa, randb, randc := other.randa, other.randb, other.randc;
      a, b, c, d := other.a, other.b, other.c, other.d;
      e, f, g, h := other.e, other.f, other.g, other.h;
      new;
      CopyTables(other);
    }

    /** The element-wise copy of both tables that the copy constructor makes. */
    method CopyTables(other: Isaac)
      requires Valid() && other.Valid() && other.randrsl != randrsl && other.randmem != randmem
      requires other.randrsl != randmem && other.randmem != randrsl
      modifies randrsl, randmem
      ensures randrsl[..] == other.randrsl[..] && randmem[..] == other.randmem[..]
    {
      for j := 0 to RandSize
        invariant randrsl[..j] == other.randrsl[..j] && randmem[..j] == other.randmem[..j]
      {
        randrsl[j] := other.randrsl[j];
        randmem[j] := other.randmem[j];
      }
    }

    /** seed(const uint32_t*, size_t): zero the result table, copy in the first
        min(seedlen, 256) words unless the pointer is null, then randinit(true). */
    method SeedWords(seedArr: Option<seq<bv32>>, seedlen: nat)
      requires Valid() && Readable(seedArr, Min(seedlen, RandSize))
      modifies this, randrsl, randmem
      ensures Valid() && Model() == IsaacSpec.SeedWords(old(Model()), seedArr, seedlen)
    {
      FillResults();
      if seedArr.Some? {
        CopyWords(seedArr.value, Min(seedlen, RandSize));
      }
      RandInit(true);
    }

    /** std::copy of the first tlen words of src to the start of the result table. */
    method CopyWords(src: seq<bv32>, tlen: nat)
      requires Valid() && tlen <= |src| && tlen <= RandSize
      modifies randrsl
      ensures Valid() && Model() == old(Model()).(randrsl := CopyPrefix(old(Model()).randrsl, src, tlen))
    {
      for j := 0 to tlen
        invariant forall k :: 0 <= k < RandSize ==> randrsl[k] == if k < j then src[k] else old(randrsl[k])
      {
        randrsl[j] := src[j];
      }
    }

    /** seed(const char*, size_t): zero the result table, copy the first
        min(seedlen, 1024) bytes over the table's bytes unless the pointer is null,
        then randinit(true). */
    method SeedBytes(seedArr: Option<seq<bv8>>, seedlen: nat)
      requires Valid() && Readable(seedArr, Min(seedlen, RandBytes))
      modifies this, randrsl, randmem
      ensures Valid() && Model() == IsaacSpec.SeedBytes(old(Model()), seedArr, seedlen)
    {
      FillResults();
      if seedArr.Some? {
        CopyBytes(seedArr.value, Min(seedlen, RandBytes));
      }
      RandInit(true);
    }

    /** std::memcpy of the first tlen bytes of src over the bytes of the result table,
        whose words are laid out little-endian. It is modelled word by word over the
        words the copy reaches: each receives its copied bytes and keeps the others. */
    method CopyBytes(src: seq<bv8>, tlen: nat)
      requires Valid() && tlen <= |src| && tlen <= RandBytes
      modifies randrsl
      ensures Valid() && Model() == old(Model()).(randrsl := MemcpyTable(old(Model()).randrsl, src, tlen))
    {
      var j := 0;
      while j < RandSize && 4 * j < tlen
        invariant 0 <= j <= RandSize
        invariant forall k :: 0 <= k < RandSize ==>
          randrsl[k] == if k < j then MemcpyWord(old(randrsl[k]), src, tlen, k) else old(randrsl[k])
      {
        randrsl[j] := MemcpyWord(randrsl[j], src, tlen, j);
        j := j + 1;
      }
      ghost var u := MemcpyTable(old(randrsl[..]), src, tlen);
      forall k | 0 <= k < RandSize
        ensures randrsl[k] == u[k]
      {
        if j <= k {
          assert tlen <= 4 * k;
        }
      }
      assert randrsl[..] == u;
    }

    /** seed(std::random_device&): the 256 draws become the result table. */
    method SeedDraws(draws: seq<bv32>)
      requires Valid() && |draws| == RandSize
      modifies this, randrsl, randmem
      ensures Valid() && Model() == IsaacSpec.SeedDraws(old(Model()), draws)
    {
      Generate(draws);
      RandInit(true);
    }

    /** std::generate over the result table, slot j receiving draw j. */
    method Generate(draws: seq<bv32>)
      requires Valid() && |draws| == RandSize
      modifies randrsl
      ensures Valid() && Model() == old(Model()).(randrsl := draws)
    {
      for j := 0 to RandSize
        invariant randrsl[..j] == draws[..j]
      {
        randrsl[j] := draws[j];
      }
    }

    /** std::fill(randrsl, randrsl + kRandSize, 0). */
    method FillResults()
      requires Valid()
      modifies randrsl
      ensures Valid() && Model() == old(Model()).(randrsl := Zeros(RandSize))
    {
      for j := 0 to RandSize
        invariant forall k :: 0 <= k < j ==> randrsl[k] == 0
      {
        randrsl[j] := 0;
      }
    }

    /** rand(): when the cursor is 0, regenerate and restart it at 255, otherwise step
        it down; return the result word under the cursor. */
    method Rand() returns (r: bv32)
      requires Valid()
      modifies this, randrsl, randmem
      ensures Valid() && Draw(Model(), r) == IsaacSpec.Rand(old(Model()))
    {
      if randcnt == 0 {
        Regenerate();
        SetCursor(RandSize - 1);
      } else {
        SetCursor(randcnt - 1);
      }
      r := randrsl[randcnt];
    }

    /** isaac(): one regeneration cycle, in three parts: load the working registers,
        run the two loops, save the registers. */
    method Regenerate()
      requires Valid()
      modifies this`a, this`b, this`randa, this`randb, this`randc, randmem, randrsl
      ensures Valid() && Model() == IsaacSpec.Regenerate(old(Model()))
    {
      LoadRegisters();
      Cycle();
      SaveRegisters();
    }

    /** a = randa; b = randb + (++randc); */
    method LoadRegisters()
      requires Valid()
      modifies this`a, this`b, this`randc
      ensures Valid() && Model() == IsaacSpec.LoadRegisters(old(Model()))
    {
      randc := Add(randc, 1);
      a, b := randa, Add(randb, randc);
    }

    /** The two loops of isaac(): all 256 rngsteps. */
    method Cycle()
      requires Valid()
      modifies this`a, this`b, randmem, randrsl
      ensures Valid() && Model() == RunSteps(old(Model()))
    {
      ghost var r0 := RegenView();
      FirstHalf();
      SecondHalf(r0);
      KeepsAllButRegen(r0);
    }

    /** The tables and a, b after the first n rngsteps of a cycle that started from
        r0. */
    ghost predicate StepsDone(r0: Regen, n: nat)
      reads this, randrsl, randmem
    {
      RegenOk(r0) && n <= RandSize && RegenView() == Steps(r0, n)
    }

    /** After the two loops, which change only a, b and the two tables, the state is
        the old one with the 256 rngsteps applied. */
    twostate lemma KeepsAllButRegen(r0: Regen)
      requires old(Valid()) && Valid() && r0 == old(RegenView()) && StepsDone(r0, RandSize)
      requires old(randcnt) == randcnt && old(randa) == randa && old(randb) == randb
      requires old(randc) == randc && old(c) == c && old(d) == d && old(e) == e
      requires old(f) == f && old(g) == g && old(h) == h
      ensures Model() == RunSteps(old(Model()))
    {
    }

    /** randb = b; randa = a; */
    method SaveRegisters()
      requires Valid()
      modifies this`randa, this`randb
      ensures Valid() && Model() == IsaacSpec.SaveRegisters(old(Model()))
    {
      randb, randa := b, a;
    }

    /** The first loop of isaac(): slots 0 .. 127, each paired with the slot 128
        places later. */
    method FirstHalf()
      requires Valid()
      modifies this`a, this`b, randmem, randrsl
      ensures StepsDone(old(RegenView()), HalfSize)
    {
      ghost var r0 := RegenView();
      var m := 0;
      while m < HalfSize
        invariant m <= HalfSize
        invariant RegenView() == Steps(r0, m)
      {
        RngStep(MixShift(m), m, m + HalfSize);
        m := m + 1;
      }
    }

    /** The second loop of isaac(): slots 128 .. 255, the paired pointer restarting at
        slot 0. */
    method SecondHalf(ghost r0: Regen)
      requires Valid() && StepsDone(r0, HalfSize)
      modifies this`a, this`b, randmem, randrsl
      ensures StepsDone(r0, RandSize)
    {
      var m, m2 := HalfSize, 0;
      while m2 < HalfSize
        invariant m2 <= HalfSize && m == m2 + HalfSize
        invariant RegenView() == Steps(r0, m)
      {
        RngStep(MixShift(m), m, m2);
        m, m2 := m + 1, m2 + 1;
      }
    }

    /** rngstep at slot m, mixing in a shifted as shift says and the paired word at
        m2; the result pointer advances with m, so the result lands in slot m. */
    method RngStep(shift: Shift, m: nat, m2: nat)
      requires Valid() && m < RandSize && m2 == Partner(m) && shift == MixShift(m)
      modifies this`a, this`b, randmem, randrsl
      ensures RegenView() == IsaacSpec.RngStep(old(RegenView()), m)
    {
      var x := randmem[m];
      a := Add(Xor(a, Shifted(a, shift)), randmem[m2]);
      var y := Add(Add(Ind(randmem, x), a), b);
      randmem[m] := y;
      b := Add(Ind(randmem, Shr(y, RandSizeBits)), x);
      randrsl[m] := b;
    }

    /** ind(mm, x): the word at byte offset x & ((kRandSize - 1) << 2) of mm, that is
        at word index offset / 4. */
    function Ind(mm: array<bv32>, x: bv32): (r: bv32)
      reads mm
      requires mm.Length == RandSize
      ensures r == IsaacSpec.Ind(mm[..], x)
    {
      var offset := x & (((RandSize - 1) as bv32) << 2);
      OffsetIsSlot(x);
      mm[offset as int / 4]
    }

    /** randinit(flag): four scrambling mixes; then the absorption passes; then one
        regeneration and a full cursor. The accumulators and carry words are NOT
        reset here. */
    method RandInit(flag: bool)
      requires Valid()
      modifies this, randmem, randrsl
      ensures Valid() && Model() == IsaacSpec.RandInit(old(Model()), flag)
    {
      Scramble();
      Passes(flag);
      Regenerate();
      SetCursor(RandSize);
    }

    /** randcnt = n; */
    method SetCursor(n: nat)
      requires Valid() && n <= RandSize
      modifies this`randcnt
      ensures Valid() && Model() == old(Model()).(randcnt := n)
    {
      randcnt := n;
    }

    /** for (i = 0; i < 4; ++i) mix(); */
    method Scramble()
      requires Valid()
      modifies this`a, this`b, this`c, this`d, this`e, this`f, this`g, this`h
      ensures Valid() && Model() == old(Model()).(acc := MixTimes(old(Model()).acc, 4))
    {
      for i := 0 to 4
        invariant AccOf() == MixTimes(old(AccOf()), i)
      {
        Mix();
      }
    }

    /** With flag, two absorption passes (seed words from the result table, then the
        internal table's own words); without it, one fill pass. */
    method Passes(flag: bool)
      requires Valid()
      modifies this`a, this`b, this`c, this`d, this`e, this`f, this`g, this`h, randmem
      ensures Valid() && Model() == Absorbed(old(Model()), flag)
    {
      if flag {
        SeedPasses();
      } else {
        FillPasses();
      }
    }

    /** The two passes of randinit(true). */
    method SeedPasses()
      requires Valid()
      modifies this`a, this`b, this`c, this`d, this`e, this`f, this`g, this`h, randmem
      ensures Valid() && Model() == Absorbed(old(Model()), true)
    {
      SeedPassLoop();
      ghost var t1 := TableView();
      TablePassLoop();
      SeedPassesDone(t1);
    }

    /** The single pass of randinit(false). */
    method FillPasses()
      requires Valid()
      modifies this`a, this`b, this`c, this`d, this`e, this`f, this`g, this`h, randmem
      ensures Valid() && Model() == Absorbed(old(Model()), false)
    {
      FillPassLoop();
      FillPassesDone();
    }

    /** After the two passes of randinit(true), which change only the accumulators and
        the internal table, the state is the old one with those two replaced. */
    twostate lemma SeedPassesDone(t1: Table)
      requires old(Valid()) && Valid() && unchanged(randrsl)
      requires old(randcnt) == randcnt && old(randa) == randa && old(randb) == randb
      requires old(randc) == randc
      requires SeedPassed(old(TableView()), t1) && TablePassed(t1)
      ensures Valid() && Model() == Absorbed(old(Model()), true)
    {
    }

    /** The same for the single pass of randinit(false). */
    twostate lemma FillPassesDone()
      requires old(Valid()) && Valid() && unchanged(randrsl)
      requires old(randcnt) == randcnt && old(randa) == randa && old(randb) == randb
      requires old(randc) == randc
      requires FillPassed(old(TableView()))
      ensures Valid() && Model() == Absorbed(old(Model()), false)
    {
    }

    /** t1 is t0 after the whole first pass over the seed words in randrsl. */
    ghost predicate SeedPassed(t0: Table, t1: Table)
      reads randrsl
    {
      randrsl.Length == RandSize && |t0.randmem| == RandSize &&
      t1 == SeedPass(t0, randrsl[..], Groups)
    }

    /** The first pass of randinit(true), over the groups of 8 slots; group n starts at
        slot i = 8 n. */
    method SeedPassLoop()
      requires Valid()
      modifies this`a, this`b, this`c, this`d, this`e, this`f, this`g, this`h, randmem
      ensures Valid() && SeedPassed(old(TableView()), TableView())
    {
      ghost var t0 := TableView();
      for n := 0 to Groups
        invariant TableView() == SeedPass(t0, randrsl[..], n)
      {
        SeedGroupStep(8 * n);
      }
    }

    /** One iteration of the first pass: a += r[i]; ... h += r[i + 7]; mix(); then
        the stores. */
    method SeedGroupStep(i: nat)
      requires Valid() && i + 8 <= RandSize
      modifies this`a, this`b, this`c, this`d, this`e, this`f, this`g, this`h, randmem
      ensures TableView() == SeedGroup(old(TableView()), randrsl[..], i)
    {
      AddWords(randrsl, i);
      Mix();
      StoreAccumulators(i);
    }

    /** The second pass of randinit(true), over the groups of 8 slots; group n starts at
        slot i = 8 n. */
    method TablePassLoop()
      requires Valid()
      modifies this`a, this`b, this`c, this`d, this`e, this`f, this`g, this`h, randmem
      ensures TablePassed(old(TableView()))
    {
      ghost var t0 := TableView();
      for n := 0 to Groups
        invariant TablePassDone(t0, n)
      {
        TablePassGroup(t0, n);
      }
    }

    /** The accumulators and the internal table are those after the whole second pass
        started from t0. */
    ghost predicate TablePassed(t0: Table)
      reads this, randmem
    {
      Valid() && |t0.randmem| == RandSize && TableView() == TablePass(t0, Groups)
    }

    /** The accumulators and the internal table are those after groups 0 .. n-1 of the
        second pass started from t0. */
    ghost predicate TablePassDone(t0: Table, n: nat)
      reads this, randmem
    {
      Valid() && |t0.randmem| == RandSize && n <= Groups && TableView() == TablePass(t0, n)
    }

    /** Group n of the second pass, given groups 0 .. n-1. */
    method TablePassGroup(ghost t0: Table, n: nat)
      requires TablePassDone(t0, n) && n < Groups
      modifies this`a, this`b, this`c, this`d, this`e, this`f, this`g, this`h, randmem
      ensures TablePassDone(t0, n + 1)
    {
      TableGroupStep(8 * n, TablePass(t0, n));
      TablePassStep(t0, n);
    }

    /** One iteration of the second pass: a += m[i]; ... h += m[i + 7]; mix(); then
        the stores. */
    method TableGroupStep(i: nat, ghost t: Table)
      requires Valid() && i + 8 <= RandSize && TableView() == t
      modifies this`a, this`b, this`c, this`d, this`e, this`f, this`g, this`h, randmem
      ensures TableView() == TableGroup(t, i)
    {
      AddWords(randmem, i);
      Mix();
      StoreAccumulators(i);
    }

    /** The pass of randinit(false), over the groups of 8 slots; group n starts at
        slot i = 8 n. */
    method FillPassLoop()
      requires Valid()
      modifies this`a, this`b, this`c, this`d, this`e, this`f, this`g, this`h, randmem
      ensures FillPassed(old(TableView()))
    {
      ghost var t0 := TableView();
      for n := 0 to Groups
        invariant FillPassDone(t0, n)
      {
        FillGroupStep(8 * n);
      }
    }

    /** The accumulators and the internal table are those after the whole fill pass
        started from t0. */
    ghost predicate FillPassed(t0: Table)
      reads this, randmem
    {
      Valid() && |t0.randmem| == RandSize && TableView() == FillPass(t0, Groups)
    }

    /** The accumulators and the internal table are those after groups 0 .. n-1 of the
        fill pass started from t0. */
    ghost predicate FillPassDone(t0: Table, n: nat)
      reads this, randmem
    {
      Valid() && |t0.randmem| == RandSize && n <= Groups && TableView() == FillPass(t0, n)
    }

    /** One iteration of the fill pass: mix(); then the stores. */
    method FillGroupStep(i: nat)
      requires Valid() && i + 8 <= RandSize
      modifies this`a, this`b, this`c, this`d, this`e, this`f, this`g, this`h, randmem
      ensures TableView() == FillGroup(old(TableView()), i)
    {
      Mix();
      StoreAccumulators(i);
    }

    /** a += w[i]; b += w[i + 1]; ... h += w[i + 7]; */
    method AddWords(w: array<bv32>, i: nat)
      requires i + 8 <= w.Length
      modifies this`a, this`b, this`c, this`d, this`e, this`f, this`g, this`h
      ensures AccOf() == AddGroup(old(AccOf()), w[..], i)
    {
      a, b, c, d := Add(a, w[i]), Add(b, w[i + 1]), Add(c, w[i + 2]), Add(d, w[i + 3]);
      e, f, g, h := Add(e, w[i + 4]), Add(f, w[i + 5]), Add(g, w[i + 6]), Add(h, w[i + 7]);
    }

    /** m[i] = a; ... m[i + 7] = h; as randinit writes each group. */
    method StoreAccumulators(i: nat)
      requires Valid() && i + 8 <= RandSize
      modifies randmem
      ensures randmem[..] == StoreGroup(old(randmem[..]), i, AccOf())
    {
      randmem[i] := a;
      randmem[i + 1] := b;
      randmem[i + 2] := c;
      randmem[i + 3] := d;
      randmem[i + 4] := e;
      randmem[i + 5] := f;
      randmem[i + 6] := g;
      randmem[i + 7] := h;
      StoresAreGroup(old(randmem[..]), i, AccOf());
    }

    /** mix(): the 24-step network on a..h; nothing else changes. The accumulators
        are worked on in locals and written back once. */
    method Mix()
      modifies this`a, this`b, this`c, this`d, this`e, this`f, this`g, this`h
      ensures AccOf() == IsaacSpec.Mix(old(AccOf()))
    {
      var a, b, c, d, e, f, g, h := this.a, this.b, this.c, this.d, this.e, this.f, this.g, this.h;
      a := Xor(a, Shl(b, 11));
      d := Add(d, a);
      b := Add(b, c);
      b := Xor(b, Shr(c, 2));
      e := Add(e, b);
      c := Add(c, d);
      c := Xor(c, Shl(d, 8));
      f := Add(f, c);
      d := Add(d, e);
      d := Xor(d, Shr(e, 16));
      g := Add(g, d);
      e := Add(e, f);
      e := Xor(e, Shl(f, 10));
      h := Add(h, e);
      f := Add(f, g);
      f := Xor(f, Shr(g, 4));
      a := Add(a, f);
      g := Add(g, h);
      g := Xor(g, Shl(h, 8));
      b := Add(b, g);
      h := Add(h, a);
      h := Xor(h, Shr(a, 9));
      c := Add(c, h);
      a := Add(a, b);
      this.a, this.b, this.c, this.d, this.e, this.f, this.g, this.h := a, b, c, d, e, f, g, h;
    }

    /** operator==: field-wise over the cursor, a..h, randa/randb/randc and the result
        table; the internal table is not compared. */
    function Equals(other: Isaac): (r: bool)
      reads this, randrsl, randmem, other, other.randrsl, other.randmem
      requires Valid() && other.Valid()
      ensures r == Equal(Model(), other.Model())
    {
      randcnt == other.randcnt && a == other.a && b == other.b && c == other.c && d == other.d &&
      e == other.e && f == other.f && g == other.g && h == other.h && randa == other.randa &&
      randb == other.randb && randc == other.randc && randrsl[..] == other.randrsl[..]
    }

    /** operator!=: the negation of operator==. */
    function NotEquals(other: Isaac): (r: bool)
      reads this, randrsl, randmem, other, other.randrsl, other.randmem
      requires Valid() && other.Valid()
      ensures r <==> !Equal(Model(), other.Model())
    {
      !Equals(other)
    }
  }
}
