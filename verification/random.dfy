/** ran2 from Numerical Recipes in C (second edition, page 282): L'Ecuyer's
    combination of two congruential recurrences, with a Bays-Durham
    shuffle table of 32 entries, returning a uniform deviate in (0, 1). */
module Random {
  import opened Int32
  import opened Schrage

  const NTAB: int := 32
  const IMM1: int := IM1 - 1
  const NDIV: int := 1 + IMM1 / NTAB
  const EPS: real := 0.00000012
  /** The largest value ever returned, so that 1.0 itself never is. */
  const RNMX: real := 1.0 - EPS

  /** The four values threaded through every call: the state of the
      first recurrence, the state of the second, the last output and the
      shuffle table. */
  datatype State = State(idum: int, idum2: int, iy: int, iv: seq<int>)

  /** The field types of the source: four `i32` values and an `[i32; 32]`. */
  predicate WellTyped(s: State) {
    && InRange(s.idum)
    && InRange(s.idum2)
    && InRange(s.iy)
    && |s.iv| == NTAB
    && forall i :: 0 <= i < |s.iv| ==> InRange(s.iv[i])
  }

  /** The ranges the shuffle step relies on: the last output is a valid
      shuffle key and every table entry is a residue modulo `IM1`. */
  predicate TableInRange(s: State) {
    && 0 <= s.iy <= IMM1
    && |s.iv| == NTAB
    && forall i :: 0 <= i < |s.iv| ==> 0 <= s.iv[i] < IM1
  }

  /** A state that a call can advance without panicking: either it is about
      to be seeded (and its seed can be negated), or its table is in range. */
  predicate Ready(s: State) {
    && WellTyped(s)
    && s.idum != Int32.MIN
    && (s.idum > 0 ==> 0 <= s.idum2 && TableInRange(s))
  }

  /** The steady state after seeding: the first recurrence's state is a
      non-zero residue modulo `IM1`, so the seeding branch is never taken
      again, and the second's is a residue modulo `IM2`. */
  predicate Running(s: State) {
    && WellTyped(s)
    && 0 < s.idum < IM1
    && 0 <= s.idum2 < IM2
    && TableInRange(s)
  }

  /** The seeding loop, one iteration per call: `j` runs from `NTAB + 7`
      down to 0, each iteration advances the first recurrence, and the
      table entry `j` is written only when `j < NTAB`. */
  function SeedLoop(j: int, idum: int, iv: seq<int>): (r: Outcome<(int, seq<int>)>)
    requires InRange(idum)
    ensures r.Ok? ==> InRange(r.value.0) && |r.value.1| == |iv|
    ensures r.Ok? && (forall i :: 0 <= i < |iv| ==> InRange(iv[i])) ==>
              forall i :: 0 <= i < |r.value.1| ==> InRange(r.value.1[i])
    decreases j + 1
  {
    if j < 0 then
      Ok((idum, iv))
    else
      var next :- Step(G1, idum);
      var iv' :- if j < NTAB then Store(iv, j, next) else Ok(iv);
      SeedLoop(j - 1, next, iv')
  }

  /** The branch taken when `idum <= 0`: the working seed is `-idum`, but
      at least 1; the second recurrence starts from it; the table is filled
      and the last output is its entry 0. */
  function Seed(s: State): (r: Outcome<State>)
    requires WellTyped(s)
    ensures r.Ok? ==> WellTyped(r.value)
  {
    var neg :- Neg(s.idum);
    var w := if neg < 1 then 1 else neg;
    var filled :- SeedLoop(NTAB + 7, w, s.iv);
    Ok(State(filled.0, w, filled.1[0], filled.1))
  }

  /** The deviate for a last output `iy`: `iy / IM1`, clamped to `RNMX`. */
  function Output(iy: int): (x: real)
    ensures x <= RNMX
    ensures x < RNMX ==> x == iy as real / IM1 as real
    ensures iy as real / IM1 as real <= RNMX ==> x == iy as real / IM1 as real
    ensures 1 <= iy ==> 0.0 < x
  {
    var temp := iy as real / IM1 as real;
    if temp > RNMX then RNMX else temp
  }

  /** The clamp is reachable: among the last outputs a call can produce,
      exactly the 257 largest, from `IM1 - 257` up to `IMM1`, are reported
      as `RNMX`. */
  lemma OutputClamp(iy: int)
    requires 1 <= iy <= IMM1
    ensures Output(iy) == RNMX <==> IM1 - 257 <= iy
  {
  }

  /** The part of every call after any seeding: advance both recurrences,
      pick the table slot from the last output, combine that slot with the
      second recurrence, and refill the slot from the first. */
  function Draw(s: State): (r: Outcome<(State, real)>)
    requires WellTyped(s)
    ensures r.Ok? ==> WellTyped(r.value.0)
  {
    var idum :- Step(G1, s.idum);
    var idum2 :- Step(G2, s.idum2);
    var j := Quot(s.iy, NDIV);
    var t :- Load(s.iv, j);
    var y :- Sub(t, idum2);
    // The index was just read, so the write is in bounds; and a `y`
    // below 1 cannot overflow when `IMM1` is added.
    var iv := s.iv[j := idum];
    var iy := if y < 1 then y + IMM1 else y;
    Ok((State(idum, idum2, iy, iv), Output(iy)))
  }

  /** One call of ran2: seed when the first recurrence's state is not
      positive, then draw. */
  function Ran2(s: State): (r: Outcome<(State, real)>)
    requires WellTyped(s)
    ensures r.Ok? ==> WellTyped(r.value.0)
  {
    var start :- if s.idum <= 0 then Seed(s) else Ok(s);
    Draw(start)
  }

  /** The table the seeding loop produces from working seed `w`: entry `i`
      holds the recurrence's value after `NTAB + 8 - i` steps, so entry 31
      is the ninth value and entry 0, written last, the fortieth. */
  function SeededTable(w: int): (t: seq<int>)
    ensures |t| == NTAB
  {
    seq(NTAB, i requires 0 <= i < NTAB => Orbit(G1, w, NTAB + 8 - i))
  }

  /** One iteration of the seeding loop from a non-negative `i32`: the
      first recurrence advances exactly and entry `j` is written when it is
      inside the table. */
  lemma SeedLoopUnfold(j: int, w: int, iv: seq<int>)
    requires 0 <= j
    requires 0 <= w <= Int32.MAX
    requires |iv| == NTAB
    ensures 0 <= G1.Apply(w) < IM1
    ensures SeedLoop(j, w, iv) ==
              SeedLoop(j - 1, G1.Apply(w), if j < NTAB then iv[j := G1.Apply(w)] else iv)
  {
    BothAdmissible();
    StepExact(G1, w);
  }

  /** The seeding loop started at `j` never panics and leaves the first
      recurrence `j + 1` steps further on, with a table of the same length. */
  lemma {:induction false} SeedLoopRuns(j: int, w: int, iv: seq<int>)
    requires -1 <= j
    requires 0 <= w <= Int32.MAX
    requires |iv| == NTAB
    ensures var r := SeedLoop(j, w, iv);
            r.Ok? && r.value.0 == Orbit(G1, w, j + 1) && |r.value.1| == NTAB
    decreases j + 1
  {
    if j >= 0 {
      SeedLoopUnfold(j, w, iv);
      var next := G1.Apply(w);
      SeedLoopRuns(j - 1, next, if j < NTAB then iv[j := next] else iv);
      OrbitFront(G1, w, j);
    }
  }

  /** Entry `i` after the seeding loop started at `j`: the value of its own
      iteration when `i <= j`, its old value otherwise. */
  lemma {:induction false} SeedLoopEntry(j: int, w: int, iv: seq<int>, i: int)
    requires -1 <= j
    requires 0 <= w <= Int32.MAX
    requires |iv| == NTAB
    requires 0 <= i < NTAB
    ensures var r := SeedLoop(j, w, iv);
            r.Ok? && |r.value.1| == NTAB &&
            r.value.1[i] == if i <= j then Orbit(G1, w, j + 1 - i) else iv[i]
    decreases j + 1
  {
    SeedLoopRuns(j, w, iv);
    if j >= 0 {
      SeedLoopUnfold(j, w, iv);
      var next := G1.Apply(w);
      var iv' := if j < NTAB then iv[j := next] else iv;
      SeedLoopEntry(j - 1, next, iv', i);
      if i < j {
        OrbitFront(G1, w, j - i);
      } else if i == j {
        OrbitFront(G1, w, 0);
      }
    }
  }

  /** The seeding loop started at `j` leaves the first recurrence `j + 1`
      steps further on; every entry at or below `j` (and below `NTAB`) is
      overwritten with the value of its own iteration; nothing else changes,
      and nothing panics. */
  lemma SeedLoopFills(j: int, w: int, iv: seq<int>)
    requires -1 <= j
    requires 0 <= w <= Int32.MAX
    requires |iv| == NTAB
    ensures var r := SeedLoop(j, w, iv);
            && r.Ok?
            && r.value.0 == Orbit(G1, w, j + 1)
            && |r.value.1| == NTAB
            && forall i :: 0 <= i < NTAB ==>
                 r.value.1[i] == if i <= j then Orbit(G1, w, j + 1 - i) else iv[i]
  {
    SeedLoopRuns(j, w, iv);
    forall i | 0 <= i < NTAB
      ensures SeedLoop(j, w, iv).value.1[i] == if i <= j then Orbit(G1, w, j + 1 - i) else iv[i]
    {
      SeedLoopEntry(j, w, iv, i);
    }
  }

  /** Seeding, for every seed but `i32::MIN`: the working seed is
      `max(1, -idum)`, the second recurrence starts there, the table is
      the closed form `SeededTable` (whatever the table held before), and
      both the first recurrence and the last output are its entry 0. */
  lemma SeedNormalises(s: State)
    requires WellTyped(s)
    requires Int32.MIN < s.idum <= 0
    ensures var w := if -s.idum < 1 then 1 else -s.idum;
            Seed(s) == Ok(State(Orbit(G1, w, NTAB + 8), w, Orbit(G1, w, NTAB + 8), SeededTable(w)))
  {
    var w := if -s.idum < 1 then 1 else -s.idum;
    SeedLoopFills(NTAB + 7, w, s.iv);
    var filled := SeedLoop(NTAB + 7, w, s.iv).value;
    assert filled.1 == SeededTable(w);
  }

  /** The only seed that panics is `i32::MIN`, whose negation overflows. */
  lemma SeedPanicsOnlyOnMin(s: State)
    requires WellTyped(s)
    requires s.idum <= 0
    ensures Seed(s).Panic? <==> s.idum == Int32.MIN
    ensures s.idum == Int32.MIN ==> Ran2(s) == Panic(Overflow)
  {
    if s.idum != Int32.MIN {
      SeedNormalises(s);
    }
  }

  /** Every seeded table entry is a residue modulo `IM1`; all are zero
      exactly when the working seed is `IM1` itself. */
  lemma SeededTableRange(w: int)
    requires 1 <= w <= Int32.MAX
    ensures forall i :: 0 <= i < NTAB ==> 0 <= SeededTable(w)[i] < IM1
    ensures forall i :: 0 <= i < NTAB ==> (SeededTable(w)[i] == 0 <==> w == IM1)
  {
    forall i | 0 <= i < NTAB
      ensures 0 <= SeededTable(w)[i] < IM1
      ensures SeededTable(w)[i] == 0 <==> w == IM1
    {
      OrbitRange(w, NTAB + 8 - i);
    }
  }

  /** The shuffle index `iy / NDIV` of a non-negative last output is a
      valid table index exactly when `iy < NTAB * NDIV`, which every value
      up to `IMM1` is. */
  lemma ShuffleIndexInBounds(iy: int)
    requires 0 <= iy
    ensures NDIV == 67108862
    ensures 0 <= Quot(iy, NDIV)
    ensures Quot(iy, NDIV) < NTAB <==> iy < NTAB * NDIV
    ensures iy <= IMM1 ==> Quot(iy, NDIV) < NTAB
  {
  }

  /** A draw changes exactly one table slot, the one chosen by the old last
      output; that slot receives the new state of the first recurrence, and
      the new last output is the slot's old value minus the new state of
      the second recurrence, raised by `IMM1` when below 1. */
  lemma DrawChangesOneSlot(s: State)
    requires WellTyped(s)
    requires Draw(s).Ok?
    ensures var j := Quot(s.iy, NDIV);
            var s' := Draw(s).value.0;
            && 0 <= j < NTAB
            && s'.iv[j] == s'.idum
            && (forall i :: 0 <= i < NTAB && i != j ==> s'.iv[i] == s.iv[i])
            && s'.iy == if s.iv[j] - s'.idum2 < 1 then s.iv[j] - s'.idum2 + IMM1 else s.iv[j] - s'.idum2
  {
  }

  /** From a non-negative state of both recurrences (any such `i32`, not
      only residues) and an in-range table, a draw never panics: both
      recurrences advance exactly, the subtraction `iv[j] - idum2` stays
      inside `i32`, the new last output lies in `[1, IMM1]`, the table
      stays in range, and the deviate lies in `(0, RNMX]`. */
  lemma DrawPreserves(s: State)
    requires WellTyped(s)
    requires 0 <= s.idum
    requires 0 <= s.idum2
    requires TableInRange(s)
    ensures Draw(s).Ok?
    ensures var (s', x) := Draw(s).value;
            && s'.idum == G1.Apply(s.idum)
            && s'.idum2 == G2.Apply(s.idum2)
            && 0 <= s'.idum < IM1
            && 0 <= s'.idum2 < IM2
            && 1 <= s'.iy
            && TableInRange(s')
            && 0.0 < x <= RNMX
  {
    BothAdmissible();
    StepExact(G1, s.idum);
    StepExact(G2, s.idum2);
    var idum := G1.Apply(s.idum);
    var idum2 := G2.Apply(s.idum2);
    var j := Quot(s.iy, NDIV);
    ShuffleIndexInBounds(s.iy);
    var y := s.iv[j] - idum2;
    assert InRange(y);
    var iv := s.iv[j := idum];
    var iy := if y < 1 then y + IMM1 else y;
    assert Draw(s) == Ok((State(idum, idum2, iy, iv), Output(iy)));
  }

  /** From every ready state a call succeeds and leads to a ready state
      whose recurrences hold residues modulo `IM1` and `IM2`, whose table
      is in range, and whose deviate lies in `(0, RNMX]`. */
  lemma Ran2Preserves(s: State)
    requires Ready(s)
    ensures Ran2(s).Ok?
    ensures var (s', x) := Ran2(s).value;
            && Ready(s')
            && 0 <= s'.idum < IM1
            && 0 <= s'.idum2 < IM2
            && 1 <= s'.iy
            && TableInRange(s')
            && 0.0 < x <= RNMX
  {
    if s.idum <= 0 {
      var w := if -s.idum < 1 then 1 else -s.idum;
      SeedNormalises(s);
      SeededTableRange(w);
      OrbitRange(w, NTAB + 8);
      DrawPreserves(Seed(s).value);
    } else {
      DrawPreserves(s);
    }
  }

  /** Once running, the seeding branch is never taken again and the state
      stays running: a non-zero residue modulo `IM1` is never sent to 0.
      The second recurrence is 0 afterwards exactly when it was 0 before,
      so once it reaches 0 it stays there. */
  lemma Ran2Running(s: State)
    requires Running(s)
    ensures Ran2(s) == Draw(s)
    ensures Ran2(s).Ok? && Running(Ran2(s).value.0)
    ensures Ran2(s).value.0.idum2 == 0 <==> s.idum2 == 0
  {
    DrawPreserves(s);
    ApplyZero1(s.idum);
    ApplyZero2(s.idum2);
  }

  /** The first call on a non-positive seed reaches the running state
      exactly when the working seed is not `IM1`; with working seed `IM1`
      the table and the first recurrence are all zero, so the next call
      seeds again. The second recurrence is 0 afterwards exactly when the
      working seed is `IM2`. */
  lemma FirstCallRuns(s: State)
    requires WellTyped(s)
    requires Int32.MIN < s.idum <= 0
    ensures Ran2(s).Ok?
    ensures var w := if -s.idum < 1 then 1 else -s.idum;
            Running(Ran2(s).value.0) <==> w != IM1
    ensures s.idum == -IM1 ==>
              && Ran2(s).value.0.idum == 0
              && forall i :: 0 <= i < NTAB ==> Ran2(s).value.0.iv[i] == 0
    ensures Ran2(s).value.0.idum2 == 0 <==> s.idum == -IM2
  {
    var w := if -s.idum < 1 then 1 else -s.idum;
    SeedNormalises(s);
    SeededTableRange(w);
    OrbitRange(w, NTAB + 8);
    var start := Seed(s).value;
    DrawPreserves(start);
    DrawChangesOneSlot(start);
    ApplyZero1(start.idum);
    ApplyZero2(start.idum2);
  }
}
