/** The two multiplicative congruential recurrences of L'Ecuyer's combined
    generator, x' = (a * x) mod m, and Schrage's method of computing them
    in 32-bit arithmetic without overflow. */
module Schrage {
  import opened Int32

  /** One recurrence: multiplier `a`, modulus `m`, and Schrage's
      decomposition `m == a * q + r`. */
  datatype Lcg = Lcg(a: int, q: int, r: int, m: int) {

    /** The recurrence itself, in exact arithmetic. */
    function Apply(x: int): int
      requires 0 < m
    {
      (a * x) % m
    }
  }

  const IM1: int := 2147483563
  const IM2: int := 2147483399
  const IA1: int := 40014
  const IA2: int := 40692
  const IQ1: int := 53668
  const IQ2: int := 52774
  const IR1: int := 12211
  const IR2: int := 3791

  const G1: Lcg := Lcg(IA1, IQ1, IR1, IM1)
  const G2: Lcg := Lcg(IA2, IQ2, IR2, IM2)

  /** What Schrage's method needs of its constants: `m == a * q + r` with
      `r < q`, the modulus fits in an `i32`, and `r * k` stays below `m`
      for every quotient `k = x / q` of a non-negative `i32`. */
  predicate Admissible(g: Lcg) {
    && 0 < g.a
    && 0 <= g.r < g.q
    && g.m == g.a * g.q + g.r
    && g.m <= Int32.MAX
    && g.r * (Int32.MAX / g.q) < g.m
  }

  /** The source's constants satisfy those conditions. */
  lemma BothAdmissible()
    ensures Admissible(G1) && Admissible(G2)
  {
  }

  /** One step exactly as the source writes it, in checked `i32`
      arithmetic: `k = x / q; x = a * (x - k * q) - k * r`, then `m` is
      added when the result is negative. */
  function Step(g: Lcg, x: int): (r: Outcome<int>)
    requires InRange(x)
    requires 0 < g.q
    ensures r.Ok? ==> InRange(r.value)
  {
    var k := Quot(x, g.q);
    var kq :- Mul(k, g.q);
    var s :- Sub(x, kq);
    var t :- Mul(g.a, s);
    var kr :- Mul(k, g.r);
    var y :- Sub(t, kr);
    if y < 0 then Add(y, g.m) else Ok(y)
  }

  /** Multiplying by a non-negative factor keeps the order. */
  lemma MulLeft(a: int, b: int, c: int)
    requires 0 <= a
    requires b <= c
    ensures a * b <= a * c
  {
  }

  /** The remainder of `m * k + y` is `y`, or `y + m` when `y` is negative. */
  lemma ModShift(m: int, k: int, y: int)
    requires 0 < m
    requires -m < y < m
    ensures (m * k + y) % m == if y < 0 then y + m else y
  {
    var z := if y < 0 then y + m else y;
    var k' := if y < 0 then k - 1 else k;
    assert m * k + y == m * k' + z;
    var n := m * k' + z;
    var d := n / m - k';
    assert n == m * (n / m) + n % m;
    assert m * d == z - n % m;
    if d > 0 {
      MulLeft(m, 1, d);
    } else if d < 0 {
      MulLeft(m, d, -1);
    }
  }

  /** The arithmetic behind Schrage's method: with `k = x / q` and
      `s = x % q`, both products `a * s` and `k * r` lie in `[0, m)` and
      `a * x` differs from `a * s - k * r` by a multiple of `m`. */
  lemma {:induction false} Decomposition(g: Lcg, x: int)
    requires Admissible(g)
    requires 0 <= x <= Int32.MAX
    ensures 0 <= x / g.q && 0 <= x % g.q < g.q
    ensures (x / g.q) * g.q == x - x % g.q
    ensures 0 <= g.a * (x % g.q) < g.m
    ensures 0 <= (x / g.q) * g.r < g.m
    ensures g.a * x == g.m * (x / g.q) + (g.a * (x % g.q) - (x / g.q) * g.r)
  {
    var k := x / g.q;
    var s := x % g.q;
    assert x == g.q * k + s;
    ProductBound(g.a, g.q, g.r, g.m, s);
    QuotientBound(g.q, x);
    MulLeft(g.r, k, Int32.MAX / g.q);
    MulLeft(k, 0, g.r);
    RingIdentity(g.a, g.q, g.r, g.m, k, s);
  }

  /** `a * s` stays below `m` for every remainder `s` of division by `q`. */
  lemma ProductBound(a: int, q: int, r: int, m: int, s: int)
    requires 0 < a && 0 <= r
    requires m == a * q + r
    requires 0 <= s < q
    ensures 0 <= a * s < m
  {
  }

  /** The quotient of a non-negative `i32` by `q` is at most that of `i32::MAX`. */
  lemma QuotientBound(q: int, x: int)
    requires 0 < q
    requires 0 <= x <= Int32.MAX
    ensures 0 <= x / q <= Int32.MAX / q
  {
    var k := x / q;
    var n := Int32.MAX / q;
    assert x == q * k + x % q;
    assert Int32.MAX == q * n + Int32.MAX % q;
    if k > n {
      MulLeft(q, n + 1, k);
    }
    if k < 0 {
      MulLeft(q, k, -1);
    }
  }

  /** `a * x` and `a * s - k * r` differ by `m * k` when `x == q * k + s`. */
  lemma RingIdentity(a: int, q: int, r: int, m: int, k: int, s: int)
    requires m == a * q + r
    ensures a * (q * k + s) == m * k + (a * s - k * r)
  {
  }

  /** The checked step succeeds whenever every intermediate of the
      decomposition fits in an `i32`. */
  lemma StepAsWritten(g: Lcg, x: int, k: int, s: int, y: int)
    requires InRange(x)
    requires 0 < g.q
    requires k == Quot(x, g.q)
    requires k * g.q == x - s
    requires 0 <= s <= x
    requires 0 <= g.a * s <= Int32.MAX
    requires 0 <= k * g.r <= Int32.MAX
    requires y == g.a * s - k * g.r
    requires 0 <= g.m <= Int32.MAX
    ensures Step(g, x) == Ok(if y < 0 then y + g.m else y)
  {
  }

  /** Schrage's method is exact and never overflows: for every
      non-negative `i32` the checked computation succeeds and yields
      `(a * x) mod m`, a value in `[0, m)`. */
  lemma {:induction false} StepExact(g: Lcg, x: int)
    requires Admissible(g)
    requires 0 <= x <= Int32.MAX
    ensures Step(g, x) == Ok(g.Apply(x))
    ensures 0 <= g.Apply(x) < g.m
  {
    Decomposition(g, x);
    var k := x / g.q;
    var s := x % g.q;
    var y := g.a * s - k * g.r;
    StepAsWritten(g, x, k, s, y);
    ModShift(g.m, k, y);
  }

  /** With `u * a + v * m == 1` (the multiplier is coprime to the modulus),
      the recurrence maps `x` to zero exactly when `x` is a multiple of `m`. */
  lemma {:induction false} ApplyZero(g: Lcg, u: int, v: int, x: int)
    requires 0 < g.m
    requires u * g.a + v * g.m == 1
    ensures g.Apply(x) == 0 <==> x % g.m == 0
  {
    var t := (g.a * x) / g.m;
    var r := g.Apply(x);
    assert g.a * x == g.m * t + r;
    var c := u * t + v * x;
    assert x - u * r == g.m * c by {
      calc {
        x;
        (u * g.a + v * g.m) * x;
        u * (g.a * x) + v * g.m * x;
        u * (g.m * t + r) + v * g.m * x;
        g.m * (u * t + v * x) + u * r;
      }
    }
    if r == 0 {
      assert x == g.m * c;
      ModShift(g.m, c, 0);
    } else {
      var c' := x / g.m;
      assert x == g.m * c' + x % g.m;
      if x % g.m == 0 {
        assert g.a * x == g.m * (g.a * c');
        ModShift(g.m, g.a * c', 0);
      }
    }
  }

  /** For the first recurrence, a non-negative `i32` is sent to zero only
      when it is `0` or `IM1` itself. */
  lemma ApplyZero1(x: int)
    requires 0 <= x <= Int32.MAX
    ensures G1.Apply(x) == 0 <==> x == 0 || x == IM1
  {
    ApplyZero(G1, -65421664, 1219, x);
  }

  /** Likewise for the second recurrence, with `IM2`. */
  lemma ApplyZero2(x: int)
    requires 0 <= x <= Int32.MAX
    ensures G2.Apply(x) == 0 <==> x == 0 || x == IM2
  {
    ApplyZero(G2, -666167378, 12623, x);
  }

  /** The recurrence applied `n` times. */
  function Orbit(g: Lcg, x: int, n: nat): int
    requires 0 < g.m
    decreases n
  {
    if n == 0 then x else Orbit(g, g.Apply(x), n - 1)
  }

  /** Stepping once and then `n` times is stepping `n + 1` times. */
  lemma OrbitFront(g: Lcg, x: int, n: nat)
    requires 0 < g.m
    ensures Orbit(g, x, n + 1) == Orbit(g, g.Apply(x), n)
  {
  }

  /** After at least one step of the first recurrence the value is a
      residue modulo `IM1`, and it is zero exactly when the start was 0 or
      `IM1`. */
  lemma {:induction false} OrbitRange(x: int, n: nat)
    requires 0 <= x <= Int32.MAX
    requires 0 < n
    ensures 0 <= Orbit(G1, x, n) < IM1
    ensures Orbit(G1, x, n) == 0 <==> x == 0 || x == IM1
    decreases n
  {
    ApplyZero1(x);
    StepExact(G1, x);
    var y := G1.Apply(x);
    if n > 1 {
      OrbitRange(y, n - 1);
      ApplyZero1(y);
    }
  }
}
