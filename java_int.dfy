/** Java's 32-bit `int`: its range and the wrap-around of its arithmetic. */
module JavaInt {
  const IntMin: int := -0x8000_0000
  const IntMax: int := 0x7fff_ffff
  const Modulus: int := 0x1_0000_0000

  predicate InRange(x: int) {
    IntMin <= x <= IntMax
  }

  /** The value an `int` holds after `x` is stored in it: the low 32 bits read as two's complement.
      This is what `+` on two ints and a `(int)` cast of a `long` produce. */
  function Wrap(x: int): (r: int)
    ensures InRange(r)
    ensures InRange(x) ==> r == x
  {
    (x - IntMin) % Modulus + IntMin
  }

  /** Wrapping moves `x` by a whole number of `2^32` steps. */
  lemma WrapShift(x: int) returns (k: int)
    ensures Wrap(x) == x + k * Modulus
  {
    k := -((x - IntMin) / Modulus);
  }

  /** Wrapping after every step gives the same int as wrapping once at the end. */
  lemma {:induction false} WrapAdd(x: int, y: int)
    ensures Wrap(Wrap(x) + y) == Wrap(x + y)
  {
    var k := WrapShift(x);
    var a := x + y - IntMin;
    assert Wrap(x) + y - IntMin == a + k * Modulus;
    ModuloShift(a, k);
  }

  lemma ModuloShift(a: int, k: int)
    ensures (a + k * Modulus) % Modulus == a % Modulus
  {
    var q, r := a / Modulus, a % Modulus;
    assert a + k * Modulus == (q + k) * Modulus + r;
  }
}
