/** Rounding of real numbers, as `Math.floor` and `Math.ceil` do it on finite numbers. */
module Numeric {

  /** `Math.floor`: the greatest integer not above `x`. */
  function Floor(x: real): (r: int)
    ensures r as real <= x < r as real + 1.0
  {
    x.Floor
  }

  /** `Math.ceil`: the least integer not below `x`. */
  function Ceil(x: real): (r: int)
    ensures x <= r as real < x + 1.0
  {
    -((-x).Floor)
  }

  /** `Math.floor(n / d)` on integers with a positive divisor is Dafny's integer division. */
  lemma FloorOfQuotient(n: int, d: int)
    requires d > 0
    ensures Floor(n as real / d as real) == n / d
  {
    var q, m := n / d, n % d;
    var dr := d as real;
    assert n as real == q as real * dr + m as real;
    var f := m as real / dr;
    FractionBounds(m, d);
    assert n as real / dr == q as real + f by {
      assert (q as real + f) * dr == q as real * dr + f * dr;
      assert f * dr == m as real;
    }
  }

  /** A remainder over its divisor is a proper fraction. */
  lemma FractionBounds(m: int, d: int)
    requires 0 <= m < d
    ensures 0.0 <= m as real / d as real < 1.0
  {
  }
}
