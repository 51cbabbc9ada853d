/** The engine wrapper of isaac_engine.h: one Isaac generator behind the interface of
    a standard uniform random bit generator. Its outputs are those of rand(), and
    discard(n) is n calls of operator(). */
module IsaacEngine {
  import opened IsaacSpec
  import opened IsaacLemmas
  import Isaac

  // ---------------------------------------------------------------------------
  // sequences of draws
  // ---------------------------------------------------------------------------

  /** The state after one call of rand(). */
  function Step(s: State): State
  {
    if WellFormed(s) then Rand(s).state else s
  }

  /** The value one call of rand() returns. */
  function Value(s: State): bv32
  {
    if WellFormed(s) then Rand(s).value else 0
  }

  /** n applications of f, starting from s. */
  function Iterate(f: State -> State, s: State, n: nat): State
    decreases n
  {
    if n == 0 then s else Iterate(f, f(s), n - 1)
  }

  /** v at each of the first n states of the f-orbit of s, first state first. */
  function Trace(f: State -> State, v: State -> bv32, s: State, n: nat): (out: seq<bv32>)
    ensures |out| == n
    decreases n
  {
    if n == 0 then [] else [v(s)] + Trace(f, v, f(s), n - 1)
  }

  /** m applications of f and then n more are m + n applications. */
  lemma {:induction false} IterateAdditive(f: State -> State, s: State, m: nat, n: nat)
    ensures Iterate(f, s, m + n) == Iterate(f, Iterate(f, s, m), n)
    decreases m
  {
    if m > 0 {
      IterateAdditive(f, f(s), m - 1, n);
    }
  }

  /** The trace of m + n steps is that of the first m followed by that of the next n. */
  lemma {:induction false} TraceAdditive(f: State -> State, v: State -> bv32, s: State, m: nat, n: nat)
    ensures Trace(f, v, s, m + n) == Trace(f, v, s, m) + Trace(f, v, Iterate(f, s, m), n)
    decreases m
  {
    if m > 0 {
      TraceAdditive(f, v, f(s), m - 1, n);
    }
  }

  /** rand() keeps a state well formed, however many times it is called. */
  lemma {:induction false} IterateWellFormed(s: State, n: nat)
    requires WellFormed(s)
    ensures WellFormed(Iterate(Step, s, n))
    decreases n
  {
    if n > 0 {
      IterateWellFormed(Step(s), n - 1);
    }
  }

  /** The state after n calls of rand(). */
  function Advance(s: State, n: nat): (t: State)
    requires WellFormed(s)
    ensures WellFormed(t)
  {
    IterateWellFormed(s, n);
    Iterate(Step, s, n)
  }

  /** The values of n successive calls of rand(), first call first. */
  function Outputs(s: State, n: nat): (out: seq<bv32>)
    requires WellFormed(s)
    ensures |out| == n
  {
    Trace(Step, Value, s, n)
  }

  /** m calls and then n more are m + n calls. */
  lemma AdvanceAdditive(s: State, m: nat, n: nat)
    requires WellFormed(s)
    ensures Advance(s, m + n) == Advance(Advance(s, m), n)
  {
    IterateAdditive(Step, s, m, n);
  }

  /** The values of m + n calls are those of the first m calls followed by those of
      the next n. */
  lemma OutputsAdditive(s: State, m: nat, n: nat)
    requires WellFormed(s)
    ensures Outputs(s, m + n) == Outputs(s, m) + Outputs(Advance(s, m), n)
  {
    TraceAdditive(Step, Value, s, m, n);
  }

  /** discard(n) followed by operator(): the call leaves the state of n + 1 calls and
      returns the last of the n + 1 values. */
  lemma DiscardThenNext(s: State, n: nat)
    requires WellFormed(s)
    ensures Rand(Advance(s, n)).state == Advance(s, n + 1)
    ensures Rand(Advance(s, n)).value == Outputs(s, n + 1)[n]
  {
    AdvanceAdditive(s, n, 1);
    OutputsAdditive(s, n, 1);
  }

  /** One call with the cursor above 0: the cursor steps down and the call returns the
      result word under it. */
  lemma CursorCall(s: State)
    requires WellFormed(s) && s.randcnt > 0
    ensures Advance(s, 1) == s.(randcnt := s.randcnt - 1)
    ensures Outputs(s, 1) == [s.randrsl[s.randcnt - 1]]
  {
  }

  /** One call with the cursor at 0: a regeneration, after which the cursor is 255 and
      the call returns result word 255. */
  lemma RefillCall(s: State)
    requires WellFormed(s) && s.randcnt == 0
    ensures Advance(s, 1) == Regenerate(s).(randcnt := RandSize - 1)
    ensures Outputs(s, 1) == [Regenerate(s).randrsl[RandSize - 1]]
  {
  }

  /** While the cursor stays above zero no regeneration runs: n calls only step the
      cursor down by n, and call j returns the result word j places below the cursor. */
  lemma {:induction false} WithinBlock(s: State, n: nat)
    requires WellFormed(s) && n <= s.randcnt
    ensures Advance(s, n) == s.(randcnt := s.randcnt - n)
    ensures forall j :: 0 <= j < n ==> Outputs(s, n)[j] == s.randrsl[s.randcnt - 1 - j]
    decreases n
  {
    if n > 0 {
      var t := s.(randcnt := s.randcnt - 1);
      CursorCall(s);
      AdvanceAdditive(s, 1, n - 1);
      OutputsAdditive(s, 1, n - 1);
      WithinBlock(t, n - 1);
      SplitFirst(Outputs(s, n), s.randrsl[s.randcnt - 1], Outputs(t, n - 1));
    }
  }

  /** Element j of [x] + rest is x for j = 0 and rest[j - 1] after it. */
  lemma SplitFirst(out: seq<bv32>, x: bv32, rest: seq<bv32>)
    requires out == [x] + rest
    ensures |out| == |rest| + 1 && out[0] == x
    ensures forall j :: 0 < j < |out| ==> out[j] == rest[j - 1]
  {
  }

  /** After a seeding (cursor 256) the next 256 calls return the result table read from
      the top down, slot 255 first, and leave the cursor at 0. */
  lemma FreshBlock(s: State)
    requires WellFormed(s) && s.randcnt == RandSize
    ensures Advance(s, RandSize) == s.(randcnt := 0)
    ensures forall j :: 0 <= j < RandSize ==> Outputs(s, RandSize)[j] == s.randrsl[RandSize - 1 - j]
  {
    WithinBlock(s, RandSize);
  }

  /** With the cursor at 0, the next 256 calls run one regeneration and return its
      results from slot 255 down to slot 0, leaving the cursor at 0 again. */
  lemma FullBlock(s: State)
    requires WellFormed(s) && s.randcnt == 0
    ensures Advance(s, RandSize) == Regenerate(s).(randcnt := 0)
    ensures forall j :: 0 <= j < RandSize ==> Outputs(s, RandSize)[j] == Regenerate(s).randrsl[RandSize - 1 - j]
  {
    var t := Regenerate(s).(randcnt := RandSize - 1);
    RefillCall(s);
    AdvanceAdditive(s, 1, RandSize - 1);
    OutputsAdditive(s, 1, RandSize - 1);
    WithinBlock(t, RandSize - 1);
    SplitFirst(Outputs(s, RandSize), t.randrsl[RandSize - 1], Outputs(t, RandSize - 1));
  }

  /** Two generators that operator== calls equal return the same values for as long as
      their cursor lasts. */
  lemma EqualAgreeWithinBlock(s: State, t: State, n: nat)
    requires WellFormed(s) && WellFormed(t) && Equal(s, t) && n <= s.randcnt
    ensures Outputs(s, n) == Outputs(t, n)
  {
    WithinBlock(s, n);
    WithinBlock(t, n);
  }

  // ---------------------------------------------------------------------------
  // operator== and the internal table
  // ---------------------------------------------------------------------------

  /** Two states that operator== calls equal but whose internal tables differ in slot
      128: the cursor is 0, the carry words are 0 and the tables are zero elsewhere. */
  function DivergentPair(): (p: (State, State))
    ensures WellFormed(p.0) && WellFormed(p.1) && Equal(p.0, p.1)
    ensures p.0.randmem[HalfSize] != p.1.randmem[HalfSize]
  {
    var s := Initial();
    (s, s.(randmem := Zeros(RandSize)[HalfSize := 1]))
  }

  /** operator== ignores the internal table, yet the table decides the next block: the
      two states of DivergentPair compare equal while the 256th value they return
      differs (1 against 2), since rngstep 0 adds slot 128 into a. */
  lemma EqualStatesDiverge()
    ensures Outputs(DivergentPair().0, RandSize)[RandSize - 1] == 1
    ensures Outputs(DivergentPair().1, RandSize)[RandSize - 1] == 2
  {
    var (s, t) := DivergentPair();
    FullBlock(s);
    FullBlock(t);
    FirstResultFromZero(s);
    FirstResultFromZero(t);
  }

  /** With the carry words and slot 0 of the internal table at zero, result slot 0 of
      the next regeneration is slot 128 plus one: rngstep 0 sets a to slot 128, b to 1,
      and y = a + b lands, small enough for the second ind to read slot 0 again. */
  lemma FirstResultFromZero(s: State)
    requires WellFormed(s) && s.randa == 0 && s.randb == 0 && s.randc == 0
    requires s.randmem[0] == 0 && s.randmem[HalfSize] < 1023
    ensures Regenerate(s).randrsl[0] == s.randmem[HalfSize] + 1
  {
    FirstResult(s);
    StepZeroFromZero(Regen(s.randmem, s.randrsl, s.randa, Add(s.randb, Add(s.randc, 1))));
  }

  /** rngstep 0 with a = 0, b = 1 and slot 0 at zero writes slot 128 plus one. */
  lemma StepZeroFromZero(r: Regen)
    requires RegenOk(r) && r.a == 0 && r.b == 1
    requires r.randmem[0] == 0 && r.randmem[HalfSize] < 1023
    ensures RngStep(r, 0).randrsl[0] == r.randmem[HalfSize] + 1
  {
    StepZeroStores(r);
    SlotOfSmall(Shr(r.randmem[HalfSize] + 1, RandSizeBits));
  }

  /** Under the same conditions the word y that rngstep 0 stores into slot 0 of the
      internal table is slot 128 plus one: a becomes slot 128, and the first ind reads
      slot 0. */
  lemma StepZeroStores(r: Regen)
    requires RegenOk(r) && r.a == 0 && r.b == 1
    requires r.randmem[0] == 0 && r.randmem[HalfSize] < 1023
    ensures Add(Add(Ind(r.randmem, r.randmem[0]), Add(Xor(r.a, Mixit(r.a, 0)), r.randmem[Partner(0)])), r.b)
      == r.randmem[HalfSize] + 1
  {
    SlotOfSmall(0);
    assert Mixit(0, 0) == 0;
  }

  /** A word below 4 has bits 2 .. 9 clear: ind reads slot 0 for it. */
  lemma SlotOfSmall(x: bv32)
    requires x < 4
    ensures Slot(x) == 0
  {
  }

  /** Result slot 0 of a regeneration is written by rngstep 0 alone. */
  lemma FirstResult(s: State)
    requires WellFormed(s)
    ensures Regenerate(s).randrsl[0] ==
      RngStep(Regen(s.randmem, s.randrsl, s.randa, Add(s.randb, Add(s.randc, 1))), 0).randrsl[0]
  {
    var l := LoadRegisters(s);
    StepsKeepResult(Regen(l.randmem, l.randrsl, l.acc.a, l.acc.b), RandSize, 0);
  }

  /** Equality of the whole state, the internal table included: what operator== would
      compare to decide that two generators return the same values from now on. */
  function SameState(s: State, t: State): (r: bool)
    ensures r <==> s == t
  {
    Equal(s, t) && s.randmem == t.randmem
  }

  // ---------------------------------------------------------------------------
  // the engine
  // ---------------------------------------------------------------------------

  class IsaacEngine {
    /** The wrapped generator. */
    const prng: Isaac.Isaac

    ghost predicate Valid()
      reads prng`randcnt
    {
      prng.Valid()
    }

    /** The state of the wrapped generator as a value. */
    ghost function Model(): State
      reads prng, prng.randrsl, prng.randmem
      requires Valid()
    {
      prng.Model()
    }

    /** min(): the smallest value operator() can return. */
    static function Min(): (r: bv32)
      ensures r as int == 0
    {
      0
    }

    /** max(): the largest value operator() can return, UINT32_MAX. */
    static function Max(): (r: bv32)
      ensures r as int == 0x1_0000_0000 - 1
    {
      0xffff_ffff
    }

    /** IsaacEngine(): the default-constructed generator, seeded with a null pointer. */
    constructor ()
      ensures Valid() && fresh(prng) && fresh(prng.randrsl) && fresh(prng.randmem)
      ensures forall s :: Unseeded(s) ==> Model() == SeedWords(s, None, 0)
    {
      prng := new Isaac.Isaac();
    }

    /** IsaacEngine(std::random_device&), with the device's 256 draws given in order. */
    constructor FromDraws(draws: seq<bv32>)
      requires |draws| == RandSize
      ensures Valid() && fresh(prng) && fresh(prng.randrsl) && fresh(prng.randmem)
      ensures forall s :: Unseeded(s) ==> Model() == SeedDraws(s, draws)
    {
      prng := new Isaac.Isaac.FromDraws(draws);
    }

    /** The implicit copy constructor: a generator of its own in the same state. */
    constructor Copy(other: IsaacEngine)
      requires other.Valid()
      ensures Valid() && fresh(prng) && fresh(prng.randrsl) && fresh(prng.randmem)
      ensures Model() == other.Model()
    {
      prng := new Isaac.Isaac.Copy(other.prng);
    }

    /** seed(): seeding with a null pointer. */
    method Seed()
      requires Valid()
      modifies prng, prng.randrsl, prng.randmem
      ensures Valid() && Model() == SeedWords(old(Model()), None, 0)
    {
      prng.SeedWords(None, 0);
    }

    /** seed(std::random_device&), with the device's 256 draws given in order. */
    method SeedDevice(draws: seq<bv32>)
      requires Valid() && |draws| == RandSize
      modifies prng, prng.randrsl, prng.randmem
      ensures Valid() && Model() == SeedDraws(old(Model()), draws)
    {
      prng.SeedDraws(draws);
    }

    /** seed(std::vector<uint32_t>&): all size() words of the vector. */
    method SeedVector(seedVec: seq<bv32>)
      requires Valid()
      modifies prng, prng.randrsl, prng.randmem
      ensures Valid() && Model() == SeedWords(old(Model()), Some(seedVec), |seedVec|)
    {
      prng.SeedWords(Some(seedVec), |seedVec|);
    }

    /** seed(const std::string&): exactly the length() bytes of the string, no
        terminator. */
    method SeedString(seedStr: seq<bv8>)
      requires Valid()
      modifies prng, prng.randrsl, prng.randmem
      ensures Valid() && Model() == SeedBytes(old(Model()), Some(seedStr), |seedStr|)
    {
      prng.SeedBytes(Some(seedStr), |seedStr|);
    }

    /** operator(): one call of rand(), whose value lies in [min(), max()]. */
    method Next() returns (r: bv32)
      requires Valid()
      modifies prng, prng.randrsl, prng.randmem
      ensures Valid() && Draw(Model(), r) == Rand(old(Model()))
      ensures Min() <= r <= Max()
    {
      r := prng.Rand();
    }

    /** discard(n): n calls of operator(), their values dropped. */
    method Discard(n: nat)
      requires Valid()
      modifies prng, prng.randrsl, prng.randmem
      ensures Valid() && Model() == Advance(old(Model()), n)
    {
      ghost var s0 := Model();
      for i := 0 to n
        invariant Valid() && Model() == Advance(s0, i)
      {
        var r := Next();
        AdvanceAdditive(s0, i, 1);
      }
    }

    /** operator==: delegated to the wrapped generators. */
    function Equals(other: IsaacEngine): (r: bool)
      reads prng, prng.randrsl, prng.randmem, other.prng, other.prng.randrsl, other.prng.randmem
      requires Valid() && other.Valid()
      ensures r == Equal(Model(), other.Model())
    {
      prng.Equals(other.prng)
    }

    /** operator!=: the negation of operator==. */
    function NotEquals(other: IsaacEngine): (r: bool)
      reads prng, prng.randrsl, prng.randmem, other.prng, other.prng.randrsl, other.prng.randmem
      requires Valid() && other.Valid()
      ensures r <==> !Equal(Model(), other.Model())
    {
      !prng.Equals(other.prng)
    }
  }

  // ---------------------------------------------------------------------------
  // copies
  // ---------------------------------------------------------------------------

  /** The value of one call of rand() is the only value of Outputs for one call. */
  lemma OutputsOne(s: State)
    requires WellFormed(s)
    ensures Outputs(s, 1) == [Rand(s).value]
  {
  }

  /** Two engines that share no object and are in the same state, called alternately
      n times: neither call disturbs the other engine, so both return the same n
      values, the n values either would have returned on its own. */
  method RunBoth(e1: IsaacEngine, e2: IsaacEngine, n: nat) returns (xs: seq<bv32>, ys: seq<bv32>)
    requires e1.Valid() && e2.Valid() && e1.Model() == e2.Model()
    requires {e1.prng, e1.prng.randrsl, e1.prng.randmem} !! {e2.prng, e2.prng.randrsl, e2.prng.randmem}
    modifies e1.prng, e1.prng.randrsl, e1.prng.randmem, e2.prng, e2.prng.randrsl, e2.prng.randmem
    ensures xs == ys && xs == Outputs(old(e1.Model()), n)
  {
    ghost var s0 := e1.Model();
    xs, ys := [], [];
    for i := 0 to n
      invariant e1.Valid() && e2.Valid()
      invariant e1.Model() == Advance(s0, i) && e2.Model() == Advance(s0, i)
      invariant xs == ys == Outputs(s0, i)
    {
      ghost var t := Advance(s0, i);
      var x := e1.Next();
      var y := e2.Next();
      AdvanceAdditive(s0, i, 1);
      OutputsAdditive(s0, i, 1);
      OutputsOne(t);
      xs, ys := xs + [x], ys + [y];
    }
  }

  /** The copy-constructor test: copy isa, then call the original and the copy
      alternately n times; both return the n values the original would have
      returned on its own. */
  method CopyAgrees(isa: IsaacEngine, n: nat) returns (xs: seq<bv32>, ys: seq<bv32>)
    requires isa.Valid()
    modifies isa.prng, isa.prng.randrsl, isa.prng.randmem
    ensures xs == ys && xs == Outputs(old(isa.Model()), n)
  {
    var isb := new IsaacEngine.Copy(isa);
    xs, ys := RunBoth(isa, isb, n);
  }

  /** Two states that both are the zero-seeded state are one state. */
  lemma DefaultsAgree(m1: State, m2: State)
    requires forall s :: Unseeded(s) ==> m1 == SeedWords(s, None, 0)
    requires forall s :: Unseeded(s) ==> m2 == SeedWords(s, None, 0)
    ensures m1 == m2
  {
    assert Unseeded(Initial());
  }

  /** Outputs that every unseeded state yields under the zero seed are those of the
      zero-seeded Initial() state. */
  lemma ZeroSeedOutputs(xs: seq<bv32>, n: nat)
    requires forall s :: Unseeded(s) ==> xs == Outputs(SeedWords(s, None, 0), n)
    ensures xs == Outputs(SeedWords(Initial(), None, 0), n)
  {
    assert Unseeded(Initial());
  }

  /** Determinism: two engines constructed apart, each with the default zero seed and
      called alternately n times, return the same n values, those of n calls of
      rand() from the zero-seeded state. */
  method Deterministic(n: nat) returns (xs: seq<bv32>, ys: seq<bv32>)
    ensures xs == ys && forall s :: Unseeded(s) ==> xs == Outputs(SeedWords(s, None, 0), n)
    ensures xs == Outputs(SeedWords(Initial(), None, 0), n)
  {
    var e1 := new IsaacEngine();
    var e2 := new IsaacEngine();
    DefaultsAgree(e1.Model(), e2.Model());
    xs, ys := RunBoth(e1, e2, n);
    ZeroSeedOutputs(xs, n);
  }
}
