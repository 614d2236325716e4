/**
 * C++ integer division and remainder on `int`.
 *
 * Dafny's `/` and `%` are Euclidean (the remainder is never negative); C++
 * truncates the quotient toward zero, so the remainder takes the sign of the
 * dividend.  The read position of the delay line is computed with C++ `%`
 * on an expression that would be negative if the buffer were too small, so
 * the difference matters for the model.
 */
module CppInt {

  function Abs(x: int): (r: int)
    ensures r >= 0 && (r == x || r == -x)
  {
    if x < 0 then -x else x
  }

  /** C++ `a / b`: the quotient truncated toward zero. */
  function Div(a: int, b: int): (q: int)
    requires b != 0
    ensures Abs(q) == Abs(a) / Abs(b)
    ensures q != 0 ==> ((q < 0) <==> ((a < 0) != (b < 0)))
  {
    var m := Abs(a) / Abs(b);
    assert m >= 0 by { DivNonNegative(Abs(a), Abs(b)); }
    if (a < 0) == (b < 0) then m else -m
  }

  lemma DivNonNegative(x: int, y: int)
    requires x >= 0 && y > 0
    ensures x / y >= 0
  {
  }

  /** C++ `a % b`: the remainder takes the sign of the dividend. */
  function Rem(a: int, b: int): (r: int)
    requires b != 0
    ensures Abs(r) == Abs(a) % Abs(b)
    ensures a >= 0 ==> 0 <= r < Abs(b)
    ensures a < 0 ==> -Abs(b) < r <= 0
  {
    if a >= 0 then Abs(a) % Abs(b) else -(Abs(a) % Abs(b))
  }

  /** On a non-negative dividend and a positive divisor C++ and Dafny agree. */
  lemma AgreeOnNonNegative(a: int, b: int)
    requires a >= 0 && b > 0
    ensures Div(a, b) == a / b && Rem(a, b) == a % b
  {
  }
}
