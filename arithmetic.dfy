/** Facts about Euclidean division used by the positional encodings. */
module Arithmetic {

  /** Proof step for `DivModUnique`: a non-zero multiple of `d` is at least `d` away from 0. */
  lemma MulAtLeast(d: int, k: int)
    requires d > 0
    ensures k >= 1 ==> d * k >= d
    ensures k <= -1 ==> d * k <= -d
  {
  }

  /** Quotient and remainder are determined by any decomposition `v == d * q + r` with `0 <= r < d`. */
  lemma DivModUnique(v: int, d: int, q: int, r: int)
    requires d > 0 && 0 <= r < d && v == d * q + r
    ensures v / d == q && v % d == r
  {
    var k := q - v / d;
    assert d * k == v % d - r;
    MulAtLeast(d, k);
  }

  /** Dividing by `a` then by `b` is dividing by `a * b`; the remainder splits into the two places. */
  lemma DivModNested(v: nat, a: nat, b: nat)
    requires a > 0 && b > 0
    ensures v / a / b == v / (a * b)
    ensures v % (a * b) == (v / a % b) * a + v % a
  {
    var q1, r1 := v / a, v % a;
    var q2, r2 := q1 / b, q1 % b;
    assert v == a * (b * q2 + r2) + r1 by {
      assert v == a * q1 + r1;
      assert q1 == b * q2 + r2;
    }
    assert a * (b * q2 + r2) == (a * b) * q2 + a * r2;
    assert a * r2 + r1 < a * b by {
      MulAtLeast(a, b - r2);
      assert a * (b - r2) == a * b - a * r2;
    }
    DivModUnique(v, a * b, q2, a * r2 + r1);
  }
}
