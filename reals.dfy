/** Small facts about real numbers shared by the lookup and the integrator. */
module RealArith {

  function Abs(x: real): real {
    if x < 0.0 then -x else x
  }

  function Min(x: real, y: real): real {
    if x <= y then x else y
  }

  function Max(x: real, y: real): real {
    if x <= y then y else x
  }

  lemma MulNonNegative(a: real, b: real)
    requires a >= 0.0 && b >= 0.0
    ensures a * b >= 0.0
  {
  }

  /** A point a fraction `theta` of the way from `x0` to `x1` lies between them. */
  lemma AlongSegment(x0: real, x1: real, theta: real)
    requires 0.0 <= theta <= 1.0
    ensures Min(x0, x1) <= x0 + theta * (x1 - x0) <= Max(x0, x1)
  {
    var d := x1 - x0;
    if x0 <= x1 {
      MulNonNegative(theta, d);
      MulNonNegative(1.0 - theta, d);
      assert (1.0 - theta) * d == d - theta * d;
    } else {
      MulNonNegative(theta, -d);
      MulNonNegative(1.0 - theta, -d);
      assert (1.0 - theta) * -d == -d + theta * d;
      assert theta * -d == -(theta * d);
    }
  }
}
