/** Facts about integer division that the solver does not find on its own. */
module Arith {

  lemma {:induction false} MultiplyAtLeast(d: int, x: int)
    requires d > 0 && x >= 1
    ensures d * x >= d
    decreases x
  {
    if x > 1 {
      MultiplyAtLeast(d, x - 1);
      assert d * x == d * (x - 1) + d;
    }
  }

  /** Division with remainder has one answer (floor division for a positive divisor). */
  lemma DivisionUnique(a: int, d: int, q: int, r: int)
    requires d > 0 && a == d * q + r && 0 <= r < d
    ensures a / d == q && a % d == r
  {
    var q', r' := a / d, a % d;
    assert a == d * q' + r';
    assert d * q - d * q' == r' - r;
    assert d * (q - q') == r' - r;
    if q > q' {
      MultiplyAtLeast(d, q - q');
    } else if q < q' {
      MultiplyAtLeast(d, q' - q);
    }
  }

  /** Adding a multiple of `d` to the dividend adds its quotient and keeps the remainder. */
  lemma ShiftDivision(a: int, d: int, k: int)
    requires d > 0
    ensures (a + d * k) / d == a / d + k && (a + d * k) % d == a % d
  {
    DivisionUnique(a + d * k, d, a / d + k, a % d);
  }
}
