# ISAAC generator and engine wrapper, modelled in Dafny

This project models the ISAAC pseudo-random generator of `isaac.h` (class
`Isaac::Isaac`, Robert J. Jenkins Jr.'s algorithm as adapted by David Gillies) and the
thin wrapper of `isaac_engine.h` (class `IsaacEngine::IsaacEngine`) that gives it the
interface of a standard uniform random bit generator.

- `isaac_spec.dfy`, module `IsaacSpec`: reference definitions as pure functions on a
  value `State` holding the whole generator: the cursor `randcnt`, the tables `randrsl`
  and `randmem`, the carry words `randa/randb/randc` and the accumulators `a..h`. It
  defines `mix`, `ind`, `rngstep`, one regeneration (`isaac()`), the passes of
  `randinit`, the three seed buffers, `rand()` and `operator==`. All words are `bv32`,
  so every addition wraps modulo 2^32 as `uint32_t` does.
- `isaac.dfy`, module `Isaac`, class `Isaac`: the generator as the source has it, two
  256-word `array<bv32>` tables updated in place by step-by-step methods. The operations
  of `isaac.h` (seeding, `randinit`, `isaac()`, `rand()`, the scrambling mixes and the
  passes) are proved to leave `Model() == F(old(Model()))` for the matching reference
  function `F`. Their helper steps (one rngstep, one loop of `isaac()`, one group of a
  pass, `mix()`, the word copies) are proved against the part of the state they work on
  (`RegenView()`, `TableView()`, `AccOf()` or a table), and their `modifies` frames keep
  the rest.
  Pointers become indices: `m` and `m2` of `isaac()` are indices into `randmem`, the
  result pointer `r`, which advances in step with `m`, is `m` itself, and
  `ind(mm, x)` reads the word at byte offset `x & ((256 - 1) << 2)`, which is proved to be
  the whole word at index `(x >> 2) & 255`.
- `isaac_lemmas.dfy`, module `IsaacLemmas`: the layout of the seed buffers, truncation
  of long seeds, and what a regeneration reads and writes.
- `isaac_engine.dfy`, module `IsaacEngine`: the engine class over one `Isaac`, plus
  `Advance(s, n)` and `Outputs(s, n)` (the state after, and the values of, n calls of
  `rand()`) with the lemmas about `discard`, block structure and equality.

Byte seeding fixes little-endian word layout: seed byte `4j + k` becomes byte `k` (bits
`8k .. 8k+7`) of result word `j`.

Two behaviours of this code are easy to misread, and the model follows the code in both:

- `randinit` does not reset `a..h` to `0x9e3779b9` or `randa/randb/randc` to 0; only the
  constructors do (isaac.h:41-52), whereas Jenkins' own `randinit` starts from fresh
  golden-ratio values each time. A reseed therefore starts from the values the previous
  seeding and regenerations left, and `RandInit` is defined on the current state.
- `operator==` compares `randcnt`, `a..h`, `randa/randb/randc` and `randrsl`, but not
  `randmem` (isaac.h:300-304). `IsaacEngine.EqualStatesDiverge` shows two states that it
  calls equal and whose 256th next value differs. Equality that also compares `randmem`
  is identity of the whole state (`IsaacEngine.SameState`), on which the values of
  `rand()` depend alone.

## Model

| member | source | states |
|---|---|---|
| `Isaac.Isaac.constructor` | isaac.h:39-54 | `Isaac()` ends in the state of seeding a null pointer from the constructor's initial values (accumulators `0x9e3779b9`, carry words 0), whatever the uninitialised tables and cursor held |
| `Isaac.Isaac.FromWords` | isaac.h:41-54 | the word-seeding constructor ends in the state `SeedWords` gives from the initial values |
| `Isaac.Isaac.FromBytes` | isaac.h:56-69 | the byte-seeding constructor ends in the state `SeedBytes` gives from the initial values |
| `Isaac.Isaac.FromDraws` | isaac.h:71-84 | the device constructor, with the device's 256 draws given in order, ends in the state `SeedDraws` gives from the initial values |
| `Isaac.Isaac.Copy` | isaac.h:283-287 | the implicit copy constructor yields fresh tables and a state equal to the original's in every field, `randmem` included |
| `Isaac.Isaac.SeedWords` | isaac.h:86-99 | `seed(const uint32_t*, size_t)`: result table zeroed, the first `min(seedlen, 256)` words copied unless the pointer is null, then `randinit(true)` |
| `Isaac.Isaac.FillResults` | isaac.h:88 | every slot of `randrsl` becomes 0 and nothing else changes |
| `Isaac.Isaac.CopyWords` | isaac.h:90-91 | slots below `tlen` take the source words, all other slots and fields are kept |
| `Isaac.Isaac.SeedBytes` | isaac.h:117-131 | `seed(const char*, size_t)`: result table zeroed, the first `min(seedlen, 1024)` bytes copied over its bytes unless the pointer is null, then `randinit(true)` |
| `Isaac.Isaac.CopyBytes` | isaac.h:121-122 | the `memcpy` of `tlen` bytes: each word reached takes its copied bytes and keeps its others, words past the copy are kept |
| `Isaac.Isaac.SeedDraws` | isaac.h:140-143 | `seed(std::random_device&)` with the draws given: the draws become the result table, then `randinit(true)` |
| `Isaac.Isaac.Generate` | isaac.h:141 | slot j of `randrsl` receives draw j; nothing else changes |
| `IsaacSpec.Initial` | isaac.h:42-52 | the member initialisers: carry words 0, `a..h` at `0x9e3779b9`; a well-formed state |
| `IsaacSpec.Mix` | isaac.h:256-281 | the reference 24-step add/xor/shift network on `a..h`, each step using the values the previous steps left |
| `IsaacSpec.Ind` | isaac.h:245-247 | the reference `ind`: the word of the table at index `Slot(x)`, always one of the table's own words |
| `IsaacSpec.Partner` | isaac.h:161-172 | the slot paired with m is in bounds and other than m, in the second half for the first loop and in the first half for the second |
| `IsaacSpec.RngStep` | isaac.h:249-254 | the reference rngstep writes result slot m with the new `b` and changes no other slot of either table |
| `IsaacSpec.Steps` | isaac.h:161-172 | the first n rngsteps, at slots 0 .. n-1, keep both tables at 256 words |
| `IsaacSpec.LoadRegisters` | isaac.h:159-160 | the reference start of `isaac()`; the state stays well formed |
| `IsaacSpec.RunSteps` | isaac.h:161-172 | the reference two loops, all 256 rngsteps with `a` and `b` as the registers; the state stays well formed |
| `IsaacSpec.SaveRegisters` | isaac.h:173-174 | the reference end of `isaac()`: `randa` and `randb` take `a` and `b`, and nothing else changes |
| `IsaacSpec.SeedPass` | isaac.h:186-204 | the reference first pass over groups 0 .. n-1; the table keeps 256 words |
| `IsaacSpec.TablePass` | isaac.h:207-225 | the reference second pass over groups 0 .. n-1; the table keeps 256 words |
| `IsaacSpec.FillPass` | isaac.h:228-238 | the reference fill pass over groups 0 .. n-1; the table keeps 256 words |
| `IsaacSpec.Absorb` | isaac.h:184-239 | both passes for `flag`, the fill pass otherwise; the table keeps 256 words |
| `IsaacSpec.WordSeedBuffer` | isaac.h:88-92 | the reference result table after word seeding's fill and copy, 256 words (contents in `WordSeedLayout`) |
| `IsaacSpec.ByteSeedBuffer` | isaac.h:119-123 | the reference result table after byte seeding's fill and memcpy, 256 words (contents in `ByteSeedLayout`) |
| `IsaacSpec.MemcpyTable` | isaac.h:122 | the memcpy keeps the table's length and leaves every word at or past byte `tlen` unchanged |
| `IsaacSpec.SeedWords` | isaac.h:86-99 | reference word seeding: after it the cursor is 256 and the state well formed |
| `IsaacSpec.SeedBytes` | isaac.h:117-131 | reference byte seeding: after it the cursor is 256 and the state well formed |
| `IsaacSpec.SeedDraws` | isaac.h:140-143 | reference device seeding: after it the cursor is 256 and the state well formed |
| `IsaacEngine.Advance` | isaac_engine.h:27-31 | the state after n calls of `operator()`, which stays well formed |
| `IsaacEngine.Outputs` | isaac_engine.h:27-31 | the values of n calls of `operator()`, exactly n of them |
| `Isaac.Isaac.CopyTables` | isaac.h:283-285 | the copy constructor's element-wise copy: both tables equal the other generator's |
| `Isaac.Isaac.SetCursor` | isaac.h:148 | `randcnt = n` (used with 255 in `rand()` and 256 at the end of `randinit`), all else kept |
| `Isaac.Isaac.Rand` | isaac.h:145-151 | `rand()`: the new state and returned value are those of `IsaacSpec.Rand` on the old state |
| `IsaacSpec.Rand` | isaac.h:145-151 | the new cursor is below 256 and the value is the result word under the new cursor, so every read is in bounds |
| `Isaac.Isaac.Regenerate` | isaac.h:154-175 | `isaac()` leaves exactly the state `IsaacSpec.Regenerate` computes from the old state |
| `IsaacSpec.Regenerate` | isaac.h:154-175 | a regeneration adds exactly 1 (mod 2^32) to `randc`, keeps the cursor and `c..h`, and leaves `a == randa` and `b == randb` |
| `Isaac.Isaac.LoadRegisters` | isaac.h:159-160 | `++randc`, `a = randa`, `b = randb + randc`, all else kept |
| `Isaac.Isaac.Cycle` | isaac.h:161-172 | the two loops run the 256 rngsteps over the tables in place, with `a` and `b` as working registers |
| `Isaac.Isaac.FirstHalf` | isaac.h:161-166 | the first loop is the rngsteps at slots 0 .. 127, each paired with slot m + 128 |
| `Isaac.Isaac.SecondHalf` | isaac.h:167-172 | the second loop is the rngsteps at slots 128 .. 255, each paired with slot m - 128 |
| `Isaac.Isaac.SaveRegisters` | isaac.h:173-174 | `randb = b`, `randa = a`, all else kept |
| `Isaac.Isaac.RngStep` | isaac.h:249-254 | one rngstep on the arrays equals `IsaacSpec.RngStep`: `randmem[m] := ind(x) + a + b` and `randrsl[m] := ind(y >> 8) + x` with `x` the old `randmem[m]`, the second `ind` reading the table after the write |
| `IsaacSpec.MixShift` | isaac.h:162-165 | the shift applied at step m is one of `<<13, >>6, <<2, >>16` by m mod 4, always below 32 bits |
| `Isaac.Isaac.Ind` | isaac.h:245-247 | the word at byte offset `x & (255 << 2)` is the word at index `Slot(x)`, an in-bounds whole word |
| `IsaacSpec.OffsetIsSlot` | isaac.h:246 | the masked byte offset is a multiple of 4 whose quarter is `(x >> 2) & 255` |
| `IsaacSpec.Slot` | isaac.h:246 | the index `ind` reads is always below 256 |
| `Isaac.Isaac.RandInit` | isaac.h:177-243 | `randinit(flag)` leaves exactly `IsaacSpec.RandInit` of the old state: four mixes, the passes, one regeneration, cursor 256 |
| `IsaacSpec.RandInit` | isaac.h:241-242 | after `randinit` the cursor is 256 and both tables still hold 256 words |
| `Isaac.Isaac.Scramble` | isaac.h:181-182 | the four scrambling calls of `mix()` apply `Mix` four times to `a..h` and change nothing else |
| `Isaac.Isaac.Passes` | isaac.h:184-239 | with `flag` the two absorption passes, without it the fill pass; only `a..h` and `randmem` change |
| `Isaac.Isaac.SeedPasses` | isaac.h:186-225 | the first pass over the seed words then the second over `randmem`'s own words |
| `Isaac.Isaac.SeedPassLoop` | isaac.h:186-204 | the first pass adds seed group n into `a..h`, mixes and stores `a..h` into slots 8n .. 8n+7, for all 32 groups |
| `Isaac.Isaac.SeedGroupStep` | isaac.h:187-203 | one group of the first pass |
| `Isaac.Isaac.TablePassLoop` | isaac.h:207-225 | the second pass does the same, adding the words `randmem` holds after the first pass |
| `Isaac.Isaac.TableGroupStep` | isaac.h:208-224 | one group of the second pass |
| `Isaac.Isaac.FillPasses` | isaac.h:228-238 | the pass of `randinit(false)`: only `a..h` and `randmem` change |
| `Isaac.Isaac.FillPassLoop` | isaac.h:228-238 | mix and store `a..h` into each of the 32 groups |
| `Isaac.Isaac.FillGroupStep` | isaac.h:229-237 | one group of the fill pass |
| `Isaac.Isaac.AddWords` | isaac.h:187-194 | `a += w[i]` .. `h += w[i + 7]` with wrap-around |
| `Isaac.Isaac.StoreAccumulators` | isaac.h:196-203 | slots i .. i+7 of `randmem` take `a..h` and every other slot is kept |
| `IsaacSpec.StoresAreGroup` | isaac.h:196-203 | the eight single-slot writes equal the group store |
| `Isaac.Isaac.Mix` | isaac.h:256-281 | `mix()` changes only `a..h`, to `IsaacSpec.Mix` of their old values |
| `Isaac.Isaac.Equals` | isaac.h:300-304 | `operator==` holds iff the cursor, `a..h`, `randa/randb/randc` and `randrsl` agree |
| `IsaacSpec.Equal` | isaac.h:300-304 | field-wise equality holds iff the two states are equal once `randmem` is disregarded |
| `Isaac.Isaac.NotEquals` | isaac.h:306 | `operator!=` is exactly the negation of that equality |
| `IsaacSpec.CopyPrefix` | isaac.h:91 | the first n words come from the source, the rest are kept, length unchanged |
| `IsaacSpec.SeedPassOverwrites` | isaac.h:186-204 | the first pass writes every slot before reading it, so its result does not depend on the old table |
| `IsaacSpec.FillPassOverwrites` | isaac.h:228-238 | the same for the fill pass |
| `IsaacSpec.AbsorbIgnoresTable` | isaac.h:184-239 | the passes of `randinit` do not depend on what `randmem` held before |
| `IsaacSpec.RegenerateIgnoresCursor` | isaac.h:154-175 | `isaac()` neither reads nor writes the cursor |
| `IsaacSpec.RandInitIgnoresTableAndCursor` | isaac.h:177-243 | `randinit` gives the same state whatever `randmem` and the cursor held |
| `IsaacSpec.SeedWordsFromUnseeded` | isaac.h:41-54 | word seeding from any state the member initialisers leave gives one and the same state |
| `IsaacSpec.SeedBytesFromUnseeded` | isaac.h:56-69 | the same for byte seeding |
| `IsaacSpec.SeedDrawsFromUnseeded` | isaac.h:71-84 | the same for device seeding |
| `IsaacLemmas.WordSeedLayout` | isaac.h:88-92 | the word seed buffer holds the first `min(seedlen, 256)` words then zeros, and all zeros for a null pointer |
| `IsaacLemmas.WordSeedTruncates` | isaac.h:90 | words past the 256th or past `seedlen` do not affect the seed buffer |
| `IsaacLemmas.LongWordSeedTruncates` | isaac.h:86-99 | seeding with more than 256 words gives the state seeding with the first 256 gives |
| `IsaacLemmas.NullSeedIsZeroSeed` | isaac.h:88-92 | a null pointer gives the same buffer as 256 zero words |
| `IsaacLemmas.EmptySeedIsNullSeed` | isaac.h:88-92 | a non-null pointer with length 0 gives the same buffer as a null pointer |
| `IsaacLemmas.ByteSeedLayout` | isaac.h:119-123 | byte `4j + k` of the seed is byte k of result word j when it is among the first `min(seedlen, 1024)` bytes; every other byte is 0 |
| `IsaacLemmas.ByteSeedWord` | isaac.h:119-123 | the four bytes of each word of the byte seed buffer |
| `IsaacLemmas.ByteSeedByte` | isaac.h:119-123 | one byte of the byte seed buffer |
| `IsaacLemmas.ByteSeedTruncates` | isaac.h:121 | bytes past the 1024th or past `seedlen` do not affect the seed buffer |
| `IsaacLemmas.LongByteSeedTruncates` | isaac.h:117-131 | seeding with more than 1024 bytes gives the state seeding with the first 1024 gives |
| `IsaacLemmas.BytesOfWordsSeedAsWords` | isaac.h:86-123 | seeding with the little-endian bytes of up to 256 words gives the same buffer as seeding with the words |
| `IsaacLemmas.LittleEndianAt` | isaac.h:122 | byte `4j + k` of the little-endian image of words is byte k of word j |
| `IsaacLemmas.StepsKeepLaterResults` | isaac.h:161-172 | the first n rngsteps leave result slots n .. 255 untouched |
| `IsaacLemmas.StepsKeepResult` | isaac.h:161-172 | once step k has written result slot k, later steps leave it alone |
| `IsaacLemmas.LastStepKeepsResult` | isaac.h:161-172 | step n - 1 of a cycle leaves every result slot but n - 1 as it was |
| `IsaacLemmas.RngStepWritesOneResult` | isaac.h:253 | rngstep at slot m writes result slot m and no other |
| `IsaacLemmas.StepsIgnoreResults` | isaac.h:161-172 | the rngsteps never read `randrsl`: runs from two result tables agree on `randmem`, `a`, `b` and every slot written |
| `IsaacLemmas.RegenerateIgnoresResults` | isaac.h:154-175 | `isaac()` rewrites all 256 result slots without reading them |
| `IsaacEngine.IsaacEngine.Min` | isaac_engine.h:15 | `min()` is 0 |
| `IsaacEngine.IsaacEngine.Max` | isaac_engine.h:16 | `max()` is 2^32 - 1 |
| `IsaacEngine.IsaacEngine.constructor` | isaac_engine.h:20 | the default engine holds the null-pointer-seeded generator |
| `IsaacEngine.IsaacEngine.FromDraws` | isaac_engine.h:21 | the device engine holds the generator seeded with the draws |
| `IsaacEngine.IsaacEngine.Copy` | isaac_engine.h:34 | copying an engine gives a generator of its own in the same state |
| `IsaacEngine.IsaacEngine.Seed` | isaac_engine.h:23 | `seed()` is word seeding with a null pointer |
| `IsaacEngine.IsaacEngine.SeedDevice` | isaac_engine.h:24 | `seed(std::random_device&)` forwards to the generator's device seeding |
| `IsaacEngine.IsaacEngine.SeedVector` | isaac_engine.h:25 | `seed(std::vector<uint32_t>&)` forwards all `size()` words |
| `IsaacEngine.IsaacEngine.SeedString` | isaac_engine.h:26 | `seed(const std::string&)` forwards exactly `length()` bytes, no terminator |
| `IsaacEngine.IsaacEngine.Next` | isaac_engine.h:27 | `operator()` returns exactly `rand()`'s value and changes the state as `rand()` does; the value lies in `[min(), max()]` |
| `IsaacEngine.IsaacEngine.Discard` | isaac_engine.h:29-31 | `discard(n)` leaves the state of n calls of `operator()`; `discard(0)` changes nothing |
| `IsaacEngine.IsaacEngine.Equals` | isaac_engine.h:37 | the engine's `==` is the wrapped generators' `==` |
| `IsaacEngine.IsaacEngine.NotEquals` | isaac_engine.h:39 | the engine's `!=` is the negation of the wrapped generators' `==` |
| `IsaacLemmas.NullSeedAsZeroWords` | isaac_engine.h:23 | `seed()` gives the state that seeding with 256 zero words gives |
| `IsaacEngine.IterateAdditive` | isaac_engine.h:29-31 | m steps and then n more are m + n steps |
| `IsaacEngine.TraceAdditive` | isaac_engine.h:29-31 | the values of m + n steps are those of the first m followed by those of the next n |
| `IsaacEngine.AdvanceAdditive` | isaac_engine.h:29-31 | m calls of `rand()` then n more leave the state of m + n calls |
| `IsaacEngine.OutputsAdditive` | isaac_engine.h:29-31 | the values of m + n calls are those of m calls followed by those of n more |
| `IsaacEngine.DiscardThenNext` | isaac_engine.h:29-31 | `discard(n)` then `operator()` leaves the state of n + 1 calls and returns the last of their n + 1 values |
| `IsaacEngine.CursorCall` | isaac.h:145-151 | with the cursor above 0 a call only steps the cursor down and returns the word under it |
| `IsaacEngine.RefillCall` | isaac.h:145-151 | with the cursor at 0 a call regenerates, sets the cursor to 255 and returns result word 255 |
| `IsaacEngine.WithinBlock` | isaac.h:145-151 | while the cursor lasts, n calls step it down by n and call j returns the word j places below the cursor |
| `IsaacEngine.FreshBlock` | isaac.h:145-151 | after a seeding the next 256 calls return `randrsl` from slot 255 down to slot 0 and leave the cursor at 0 |
| `IsaacEngine.FullBlock` | isaac.h:145-151 | with the cursor at 0 the next 256 calls run one regeneration and return its results from slot 255 down |
| `IsaacEngine.EqualAgreeWithinBlock` | isaac.h:300-304 | states `operator==` calls equal return the same values for as long as the cursor lasts |
| `IsaacEngine.DivergentPair` | isaac.h:300-304 | two well-formed states that `operator==` calls equal with different `randmem` |
| `IsaacEngine.EqualStatesDiverge` | isaac.h:300-304 | those two states return different 256th values (1 and 2) |
| `IsaacEngine.FirstResultFromZero` | isaac.h:249-254 | with zero carry words, slot 0 zero and slot 128 below 1023, result slot 0 of the next regeneration is slot 128 plus one |
| `IsaacEngine.FirstResult` | isaac.h:161-166 | result slot 0 of a regeneration is written by rngstep 0 alone |
| `IsaacEngine.SameState` | isaac.h:300-304 | `operator==` together with equal internal tables holds exactly when the two states are identical |
| `IsaacEngine.CopyAgrees` | test/unittest/isaac_engine.test.cpp:83-107 | an engine and its copy, called alternately n times, return the same n values, those the original alone would have returned: neither object disturbs the other |
| `IsaacEngine.RunBoth` | isaac_engine.h:27 | two engines in the same state that share no storage, called alternately n times, return the same n values, those either would return alone: a call changes only its own generator |
| `IsaacEngine.Deterministic` | isaac_engine.h:20-27 | two engines default-constructed apart and called alternately n times return the same n values, those of n calls of `rand()` from the zero-seeded initial state (from every unseeded state, and from `Initial()` in particular) |

## Left out

- The concrete vector of the zero-seeded engine (first output `0x182600f3`) and the
  2560-word reference vectors: evaluating 68 mixes and 256 rngsteps on concrete words is
  beyond what the verifier can do within its limits, and the reference files are not
  part of this model.
- `std::random_device`: the entropy source is replaced by the sequence of its 256 draws,
  given by the caller (`FromDraws`, `SeedDraws`, `SeedDevice`).
- `operator<<` and `FormatSaver`: stream formatting, that is I/O.
- Platform byte order: the byte seed is modelled with little-endian words only.
- `randcnt` is an unbounded `nat` kept at most 256; the source's post-decrement of a zero
  `uint32_t` wraps to 2^32 - 1 but is overwritten by 255 before it is read, so the wrap
  is not modelled.
- `discard(unsigned long long n)` is modelled with an unbounded `n`.
- The assignment test that expects two engines to diverge after one extra call
  (test/unittest/isaac_engine.test.cpp:109-122) is not modelled: it holds when some
  adjacent pair among the first 17 outputs of the zero-seeded engine differs, a fact
  about concrete values of that one state that, like the `0x182600f3` vector, is beyond
  what the verifier can evaluate within its limits.
- example.cpp, isaac_test_harness.cpp and the Catch test plumbing are demo and test
  programs, not part of this model.
