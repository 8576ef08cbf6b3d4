/** The generator object handed to callers: `new` packs a seed into a
    fresh state, and `next` advances it by one call of ran2 and returns
    the deviate. */
module Generator {
  import opened Int32
  import opened Schrage
  import opened Random

  /** The fixed starting value of the second recurrence; it is replaced by
      the working seed whenever the generator seeds itself. */
  const IDUM2_START: int := 123456789

  /** A generator whose first recurrence holds `idum`, with a zero table
      and zero last output. It can be advanced without panicking for every
      seed except `i32::MIN`. */
  function New(idum: int): (g: State)
    requires InRange(idum)
    ensures WellTyped(g)
    ensures Ready(g) <==> idum != Int32.MIN
    ensures g.idum == idum
    ensures 0 < idum ==> TableInRange(g)
  {
    State(idum, IDUM2_START, 0, seq(NTAB, _ => 0))
  }

  /** One call of ran2 on the generator's state; the successor state
      replaces all four fields. From a ready state it never panics, the
      deviate lies in `(0, RNMX]`, and readiness is kept; a running
      generator keeps running. */
  function Next(g: State): (r: Outcome<(State, real)>)
    requires WellTyped(g)
    ensures r.Ok? ==> WellTyped(r.value.0)
    ensures Ready(g) ==> r.Ok? && Ready(r.value.0) && 0.0 < r.value.1 <= RNMX
    ensures Running(g) ==> r.Ok? && Running(r.value.0)
  {
    assert Ready(g) ==> Ran2(g).Ok? && Ready(Ran2(g).value.0) && 0.0 < Ran2(g).value.1 <= RNMX by {
      if Ready(g) {
        Ran2Preserves(g);
      }
    }
    assert Running(g) ==> Ran2(g).Ok? && Running(Ran2(g).value.0) by {
      if Running(g) {
        Ran2Running(g);
      }
    }
    Ran2(g)
  }

  /** `n` successive calls of `Next`, with the final state and the
      deviates in order. */
  function Draws(g: State, n: nat): Outcome<(State, seq<real>)>
    requires WellTyped(g)
    decreases n
  {
    if n == 0 then
      Ok((g, []))
    else
      var step :- Next(g);
      var rest :- Draws(step.0, n - 1);
      Ok((rest.0, [step.1] + rest.1))
  }

  /** Any number of calls from a ready generator succeed, yield exactly
      `n` deviates, each in `(0, RNMX]`, and leave the generator ready. */
  lemma {:induction false} DrawsInRange(g: State, n: nat)
    requires Ready(g)
    ensures Draws(g, n).Ok?
    ensures var (g', xs) := Draws(g, n).value;
            && Ready(g')
            && |xs| == n
            && forall i :: 0 <= i < n ==> 0.0 < xs[i] <= RNMX
    decreases n
  {
    if n > 0 {
      var step := Next(g).value;
      DrawsInRange(step.0, n - 1);
      var rest := Draws(step.0, n - 1).value;
      assert Draws(g, n) == Ok((rest.0, [step.1] + rest.1));
      var xs := [step.1] + rest.1;
      forall i | 0 <= i < n
        ensures 0.0 < xs[i] <= RNMX
      {
        if i > 0 {
          assert xs[i] == rest.1[i - 1];
        }
      }
    }
  }

  /** With a positive seed the table is not initialised: the first call
      works on the zero table of `New`, so the deviate comes from the zero
      entry 0, which alone is refilled. */
  lemma FirstDrawPositiveSeed(seed: int)
    requires 0 < seed <= Int32.MAX
    ensures var y := IMM1 - G2.Apply(IDUM2_START);
            && G2.Apply(IDUM2_START) == 739987727
            && Next(New(seed)) == Ok((State(G1.Apply(seed), G2.Apply(IDUM2_START), y,
                                            [G1.Apply(seed)] + seq(NTAB - 1, _ => 0)),
                                      Output(y)))
  {
    var g := New(seed);
    DrawPreserves(g);
    DrawChangesOneSlot(g);
    var s' := Draw(g).value.0;
    assert s'.iv == [G1.Apply(seed)] + seq(NTAB - 1, _ => 0);
  }

  /** The walk's construction: a non-positive seed other than `i32::MIN`
      seeds on the first call, from working seed `max(1, -idum)`, and the
      generator is running afterwards unless that working seed is `IM1`;
      `i32::MIN` panics on the first call. */
  lemma FirstDrawNonPositiveSeed(idum: int)
    requires Int32.MIN <= idum <= 0
    ensures idum == Int32.MIN <==> Next(New(idum)).Panic?
    ensures idum != Int32.MIN ==>
              var w := if -idum < 1 then 1 else -idum;
              Running(Next(New(idum)).value.0) <==> w != IM1
  {
    var g := New(idum);
    if idum == Int32.MIN {
      SeedPanicsOnlyOnMin(g);
    } else {
      FirstCallRuns(g);
    }
  }
}
