/**
 * The exact-real counterparts of the Math.abs, Math.max and `**` calls the
 * matchers and the size estimate make (IEEE rounding is not modelled).
 */
module RealArith {

  /** Math.abs */
  function Abs(x: real): (r: real)
    ensures r >= 0.0
    ensures r == x || r == -x
  {
    if x < 0.0 then -x else x
  }

  /** Math.max(0, x) */
  function ClampAtZero(x: real): (r: real)
    ensures r >= 0.0 && r >= x
    ensures r == x || r == 0.0
  {
    if x < 0.0 then 0.0 else x
  }

  /** x ** 2, written as |x| * |x| (the same real number). */
  function Square(x: real): real {
    Abs(x) * Abs(x)
  }

  lemma SquarePositive(x: real)
    requires x != 0.0
    ensures Square(x) > 0.0
  {
    var a := Abs(x);
    calc {
      Square(x);
      a * a;
    > { assert a * a > 0.0 * a; }
      0.0 * a;
      0.0;
    }
  }

  /** Dividing by a positive number keeps the order. */
  lemma DivideMonotone(a: real, b: real, q: real)
    requires q > 0.0
    requires a <= b
    ensures a / q <= b / q
  {
    assert b / q - a / q == (b - a) / q;
  }
}
