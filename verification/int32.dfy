/** Rust's `i32` arithmetic as the generator uses it.

    Every operation is checked: a result outside the 32-bit range or an
    array index outside the table yields a `Panic` outcome instead of a
    value (the behaviour of a debug build). The generator's theorems show
    that no operation panics from a `Ready` state, so the wrapping
    behaviour of a release build never comes into play there. */
module Int32 {

  const MIN: int := -0x8000_0000
  const MAX: int := 0x7fff_ffff

  predicate InRange(x: int) {
    MIN <= x <= MAX
  }

  /** Why a computation was aborted. */
  datatype Fault = Overflow | IndexOutOfBounds

  /** The result of a computation that may panic; failure-compatible, so
      `var x :- e;` propagates a panic. */
  datatype Outcome<+T> = Ok(value: T) | Panic(fault: Fault) {

    predicate IsFailure() {
      Panic?
    }

    function PropagateFailure<U>(): Outcome<U>
      requires Panic?
    {
      Panic(fault)
    }

    function Extract(): T
      requires Ok?
    {
      value
    }
  }

  /** A mathematical result, accepted only when it fits in an `i32`. */
  function Checked(x: int): (r: Outcome<int>)
    ensures r.Ok? <==> InRange(x)
    ensures r.Ok? ==> r.value == x
    ensures r.Panic? ==> r.fault == Overflow
  {
    if InRange(x) then Ok(x) else Panic(Overflow)
  }

  function Add(a: int, b: int): Outcome<int> {
    Checked(a + b)
  }

  function Sub(a: int, b: int): Outcome<int> {
    Checked(a - b)
  }

  function Mul(a: int, b: int): Outcome<int> {
    Checked(a * b)
  }

  /** Unary minus; only `-MIN` overflows. */
  function Neg(a: int): (r: Outcome<int>)
    requires InRange(a)
    ensures r.Panic? <==> a == MIN
    ensures r.Ok? ==> r.value == -a
    ensures r.Panic? ==> r.fault == Overflow
  {
    Checked(-a)
  }

  /** Integer division rounding toward zero, as Rust's `/` on integers
      does. Dafny's own `/` is Euclidean; for the positive divisors used
      here it rounds a negative dividend toward minus infinity instead. With
      a positive divisor Rust's division cannot overflow: only `MIN / -1`
      does. */
  function Quot(a: int, b: int): (q: int)
    requires b > 0
    ensures 0 <= a ==> 0 <= q && b * q <= a < b * q + b
    ensures a <= 0 ==> q <= 0 && b * q - b < a <= b * q
  {
    if a >= 0 then a / b else -((-a) / b)
  }

  /** Reading `t[j as usize]`: a negative `j` becomes a huge index, so
      every index outside the table panics. */
  function Load(t: seq<int>, j: int): (r: Outcome<int>)
    ensures r.Ok? <==> 0 <= j < |t|
    ensures r.Ok? ==> r.value == t[j]
    ensures r.Panic? ==> r.fault == IndexOutOfBounds
  {
    if 0 <= j < |t| then Ok(t[j]) else Panic(IndexOutOfBounds)
  }

  /** Writing `t[j as usize] = v`. */
  function Store(t: seq<int>, j: int, v: int): (r: Outcome<seq<int>>)
    ensures r.Ok? <==> 0 <= j < |t|
    ensures r.Ok? ==> |r.value| == |t| && r.value[j] == v
    ensures r.Ok? ==> forall i :: 0 <= i < |t| && i != j ==> r.value[i] == t[i]
    ensures r.Panic? ==> r.fault == IndexOutOfBounds
  {
    if 0 <= j < |t| then Ok(t[j := v]) else Panic(IndexOutOfBounds)
  }
}
