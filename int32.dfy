/** C# `int` arithmetic: 32-bit two's complement, with products wrapping
    around silently (the controller's code is not compiled `checked`). */
module Int32 {

  const Modulus: int := 0x1_0000_0000
  const Min: int := -0x8000_0000
  const Max: int := 0x7FFF_FFFF

  predicate InRange(x: int)
  {
    Min <= x <= Max
  }

  /** The `int` that `x` wraps around to: the one in range that agrees with
      `x` modulo 2^32. */
  function Wrap(x: int): (r: int)
    ensures InRange(r)
    ensures (r - x) % Modulus == 0
  {
    var m := x % Modulus;
    if m > Max then m - Modulus else m
  }

  /** `a * b` on `int`. */
  function Mul(a: int, b: int): int
  {
    Wrap(a * b)
  }

  /** A value already in range does not wrap. */
  lemma {:induction false} WrapInRange(x: int)
    requires InRange(x)
    ensures Wrap(x) == x
  {
    if x < 0 {
      assert x % Modulus == x + Modulus;
    } else {
      assert x % Modulus == x;
    }
  }

  /** A product that fits is the plain product. */
  lemma {:induction false} MulInRange(a: int, b: int)
    requires InRange(a * b)
    ensures Mul(a, b) == a * b
  {
    WrapInRange(a * b);
  }
}
