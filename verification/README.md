# ran2 in Dafny

A model of the random-number generator of the polymer-walker random walk:
`ran2` from *Numerical Recipes in C* (second edition, page 282), as ported to
Rust in `Rust/src/random.rs`. It is L'Ecuyer's combined generator. Two
multiplicative congruential recurrences, `x' = 40014·x mod 2147483563` and
`x' = 40692·x mod 2147483399`, are each computed in 32-bit arithmetic with
Schrage's decomposition. A 32-entry Bays–Durham shuffle table mixes them.

The project has four modules:

- `Int32` (`int32.dfy`): the `i32` operations the generator uses, all checked.
  - An arithmetic result outside `i32` yields `Panic(Overflow)`.
  - An index outside the table yields `Panic(IndexOutOfBounds)`.
  - Rust's `/` rounds toward zero. Dafny's `/` is Euclidean, which rounds
    differently for a negative dividend even with a positive divisor, so
    Rust's division is modelled separately. Every divisor here is positive.
- `Schrage` (`schrage.dfy`): the two recurrences and their constants, and
  the step as the source writes it in checked arithmetic. It also holds the
  proofs about the step:
  - the step is exact and never overflows;
  - a recurrence sends a value to zero only from 0 or from its own modulus.
    This is proved with Bezout coefficients of each multiplier and modulus.
- `Random` (`random.dfy`): the rest of `ran2`.
  - The constants, and the state datatype (`idum`, `idum2`, `iy`, `iv`).
  - The seeding branch, with its 40-iteration loop as a recursive function.
  - The draw: both recurrences, the shuffle, and the clamped output.
  - The state predicates `WellTyped`, `TableInRange`, `Ready` and `Running`,
    and the lemmas about them.
- `Generator` (`generator.dfy`): `Ran2Generator::new` and `next`.
  - `next` is a pure function from a state to its successor and a deviate,
    so the same state always gives the same output and successor.
  - `Draws` chains `n` calls.

Overflow is modelled as a panic, which is what a debug build does. The
theorems show that no `Ready` state overflows, so a release build's wrapping
never comes into play there. A state built with `new(i32::MIN)` is not
`Ready`, and its first `next` panics.

Three details of the code matter for the proofs.

- The seeding loop runs `j = NTAB+7` down to `0`, which is 40 iterations.
  The first 8 results are discarded. The table is then written from entry 31
  down to entry 0.
- After seeding, `idum2` holds the working seed. That seed can be as large as
  `i32::MAX`, which is above `IM2`, until the first draw reduces it. A draw
  therefore needs only `idum2 >= 0`, and `Ready` requires no more than that.
- The seed `-IM2` gives working seed `IM2`, which the second recurrence
  sends to 0. The second recurrence then stays at 0 on every later call,
  just as the seed `-IM1` leaves the first recurrence and the table at 0.

## Model

| member | source | states |
|---|---|---|
| Int32.Checked | Rust/src/random.rs:96 | An `i32` operation succeeds exactly when its mathematical result fits in `i32`, and then returns that result. Otherwise it panics with `Overflow` |
| Int32.Neg | Rust/src/random.rs:74-77 | Unary minus panics with `Overflow` exactly on `i32::MIN`, and otherwise returns `-a` |
| Int32.Quot | Rust/src/random.rs:105 | Rust's `/` by a positive divisor rounds toward zero. For a non-negative dividend, `b·q <= a < b·q + b`. For a non-positive one, `b·q - b < a <= b·q` |
| Int32.Load | Rust/src/random.rs:106 | Reading `iv[j as usize]` succeeds exactly when `0 <= j < len(iv)`, and returns `iv[j]`. Otherwise it panics with `IndexOutOfBounds` |
| Int32.Store | Rust/src/random.rs:89 | Writing `iv[j as usize] = v` succeeds exactly when `0 <= j < len(iv)`. Entry `j` becomes `v`, the length is kept, and no other entry changes. Otherwise it panics with `IndexOutOfBounds` |
| Schrage.Step | Rust/src/random.rs:95-104 | One step as written, with `k = x / q` truncating and every product and difference checked against `i32`. When it succeeds, the result is an `i32` |
| Schrage.StepExact | Rust/src/random.rs:95-104 | For both recurrences and every `0 <= x <= i32::MAX`, the checked Schrage computation succeeds, so no intermediate overflows, and returns `(a·x) mod m`, which lies in `[0, m)` |
| Schrage.Decomposition | Rust/src/random.rs:95-98 | With `k = x / q` and `s = x % q`: `k·q` is `x - s`; `a·s` and `k·r` lie in `[0, m)`; and `a·x` equals `m·k + (a·s - k·r)`. This is the identity Schrage's method rests on |
| Schrage.BothAdmissible | Rust/src/random.rs:11-20 | The constants meet Schrage's conditions: `IM == IA·IQ + IR`, `IR < IQ`, and the moduli fit in `i32` |
| Schrage.StepAsWritten | Rust/src/random.rs:95-99 | When `k = x / q` truncates, `k·q = x - s` with `0 <= s <= x`, and `a·s`, `k·r` and the modulus fit in `i32`, every checked operation of the step succeeds. The step returns `y = a·s - k·r`, or `y + m` when `y` is negative |
| Schrage.ApplyZero | Rust/src/random.rs:95-104 | If the multiplier is coprime to the modulus, a step gives 0 exactly when its input is a multiple of the modulus |
| Schrage.ApplyZero1 | Rust/src/random.rs:95-99 | The first recurrence maps a non-negative `i32` to 0 only from 0 or from `IM1` |
| Schrage.ApplyZero2 | Rust/src/random.rs:100-104 | The second recurrence maps a non-negative `i32` to 0 only from 0 or from `IM2` |
| Schrage.OrbitRange | Rust/src/random.rs:81-92 | After one or more steps of the first recurrence, the value lies in `[0, IM1)`. It is 0 exactly when the start was 0 or `IM1` |
| Random.SeedLoop | Rust/src/random.rs:81-92 | The seeding loop keeps `idum` inside `i32`, keeps the table's length, and keeps every entry inside `i32` |
| Random.SeedLoopRuns | Rust/src/random.rs:81-92 | From any `j >= -1` and working seed in `[0, i32::MAX]`, the loop never panics, keeps 32 entries, and leaves `idum` equal to the seed advanced `j + 1` steps |
| Random.SeedLoopEntry | Rust/src/random.rs:81-92 | After the loop from `j`, entry `i <= j` holds the seed advanced `j + 1 - i` steps, the value written at iteration `i`. An entry above `j` keeps its old value |
| Random.SeedLoopFills | Rust/src/random.rs:81-92 | From any start `j >= -1`, the loop never panics. `idum` ends `j+1` steps on. Entries `i <= j` hold the value of iteration `i`; the others are unchanged. From `j = NTAB+7`, all 32 entries are written and entry 0 last |
| Random.Seed | Rust/src/random.rs:73-93 | A successful seeding gives a state of `i32` fields with a 32-entry table |
| Random.SeedNormalises | Rust/src/random.rs:73-93 | For `i32::MIN < idum <= 0`, the working seed `w` is `max(1, -idum)` and `idum2 = w`. The table is `SeededTable(w)`, whatever it held before, and `idum == iy == iv[0]` |
| Random.SeedPanicsOnlyOnMin | Rust/src/random.rs:73-79 | For `idum <= 0`, seeding panics exactly when `idum == i32::MIN`, because `-idum` overflows. A call from such a state panics with `Overflow` |
| Random.SeededTableRange | Rust/src/random.rs:81-93 | Every seeded entry lies in `[0, IM1)`. An entry is 0 exactly when the working seed is `IM1` |
| Random.Output | Rust/src/random.rs:112-117 | The deviate is `iy / IM1` clamped to `RNMX`: never above `RNMX`, equal to `iy / IM1` when that is at most `RNMX`, and positive when `iy >= 1` |
| Random.OutputClamp | Rust/src/random.rs:112-117 | For `1 <= iy <= IMM1`, the clamp applies exactly to the 257 largest values, from `IM1 - 257` up |
| Random.Draw | Rust/src/random.rs:95-117 | A successful draw leaves every field inside `i32` and the table with 32 entries |
| Random.Ran2 | Rust/src/random.rs:63-118 | A successful call leaves every field inside `i32` and the table with 32 entries |
| Random.ShuffleIndexInBounds | Rust/src/random.rs:105-106 | `NDIV == 67108862`. For `iy >= 0`, `j = iy / NDIV` is a table index exactly when `iy < NTAB·NDIV`. Every `iy <= IMM1` qualifies |
| Random.DrawChangesOneSlot | Rust/src/random.rs:105-110 | A draw changes only table slot `j = iy / NDIV`, which receives the new `idum`. The new `iy` is the slot's old value minus the new `idum2`, plus `IMM1` when below 1 |
| Random.DrawPreserves | Rust/src/random.rs:95-117 | From `idum, idum2 >= 0` with `iy` in `[0, IMM1]` and entries in `[0, IM1)`: the draw never panics, so `iv[j] - idum2` cannot overflow. Both recurrences advance exactly; `idum` ends in `[0, IM1)` and `idum2` in `[0, IM2)`. The new `iy` is in `[1, IMM1]`, the table stays in range, and the deviate lies in `(0, RNMX]` |
| Random.Ran2Preserves | Rust/src/random.rs:63-118 | From every `Ready` state a call succeeds and gives a `Ready` state with `idum` in `[0, IM1)`, `idum2` in `[0, IM2)`, `iy >= 1`, an in-range table, and a deviate in `(0, RNMX]` |
| Random.Ran2Running | Rust/src/random.rs:73-110 | From a `Running` state (non-zero `idum` below `IM1`), the seeding branch is skipped and the successor is `Running` again. The generator therefore never reseeds once running. The second recurrence is 0 afterwards exactly when it was 0 before, so once 0 it stays 0 |
| Random.FirstCallRuns | Rust/src/random.rs:73-110 | The first call on a seed in `(i32::MIN, 0]` succeeds. It reaches `Running` exactly when the working seed is not `IM1`. For `idum == -IM1`, it leaves `idum == 0` and an all-zero table. The second recurrence is 0 afterwards exactly when `idum == -IM2` |
| Generator.New | Rust/src/random.rs:35-45 | `new(idum)` stores `idum` in a state of `i32` fields. The state is `Ready` exactly when `idum != i32::MIN`. With a positive seed, the zero table is already in range |
| Generator.Next | Rust/src/random.rs:47-60 | From a `Ready` state, `next` never panics, returns a deviate in `(0, RNMX]`, and stores a `Ready` successor. A `Running` generator stays `Running` |
| Generator.DrawsInRange | Rust/src/random.rs:47-60 | Any number `n` of successive `next` calls from a `Ready` generator succeed and yield exactly `n` deviates, each in `(0, RNMX]` |
| Generator.FirstDrawPositiveSeed | Rust/src/random.rs:73-110 | With a positive seed, the first `next` skips seeding and works on `new`'s zero table. Slot 0 is read and refilled with `IA1·seed mod IM1`, and `idum2` becomes 739987727. The output key is `IMM1 - 739987727`, and the other 31 entries stay 0 |
| Generator.FirstDrawNonPositiveSeed | Rust/src/random.rs:73-93 | For `idum <= 0`, the first `next` panics exactly when `idum == i32::MIN`. Otherwise the generator is `Running` afterwards exactly when `max(1, -idum) != IM1` |

## Left out

- `Rust/src/lib.rs` is not part of this model. `do_walk` is `f64` trigonometry with floating-point accumulation. `walk_parallel` is a rayon parallel map and an `f64` reduction. `walk` and `walker_rust` are Python binding glue.
- The `f64` product `AM * f64::from(iy)` is not modelled. The deviate is the exact rational `iy / IM1`, clamped to `RNMX = 1 - 1.2e-7`. Rounding near the clamp boundary is therefore not modelled.
- Release-build wrapping arithmetic is not modelled; overflow is a panic. The theorems show that no overflow occurs from `Ready` states. The only overflow left is `-i32::MIN`, where a release build would wrap and seed with 1.
- The period (about 2.3·10¹⁸) and the statistical quality are not modelled. They rest on number-theoretic facts about the moduli beyond coprimality.
- `Ran2Generator::next` mutates its receiver in place. Here it returns the successor state, which is the same four values the source copies back.
