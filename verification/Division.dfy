/** Quotients by products. */
module Division {

  /** Dividing twice. */
  lemma DivDiv(x: nat, a: nat, b: nat)
    requires a > 0 && b > 0
    ensures a * b > 0 && x / (a * b) == (x / a) / b
  {
    var q := x / a;
    var r := q / b;
    var s := x - a * b * r;
    assert x == a * q + x % a && q == b * r + q % b;
    MulBound(a, q % b, b);
    assert s == a * (q % b) + x % a by {
      assert a * q == a * (b * r) + a * (q % b);
      assert a * (b * r) == a * b * r;
    }
    QuotientOf(x, a * b, r, s);
  }

  lemma MulBound(a: nat, y: nat, b: nat)
    requires a > 0 && y < b
    ensures a * y + a <= a * b && a * b > 0
  {
    assert a * b == a * (y + 1) + a * (b - y - 1);
  }

  lemma QuotientOf(x: nat, m: nat, r: nat, s: nat)
    requires m > 0 && x == m * r + s && s < m
    ensures x / m == r
  {
    var d := x / m;
    assert x == m * d + x % m;
    if d < r {
      GapAtLeast(m, d, r);
    } else if d > r {
      GapAtLeast(m, r, d);
    }
  }

  lemma GapAtLeast(m: nat, lo: nat, hi: nat)
    requires lo < hi
    ensures m * hi >= m * lo + m
  {
    var g := hi - lo;
    assert m * hi == m * (lo + g) == m * lo + m * g;
    assert m * g == m * (g - 1) + m;
  }
}
