/** Facts about Euclidean division and multiplication that the solver does not find alone. */
module Arith {

  /** `q` and `r` are the quotient and remainder of `x` by `b` when `x == q * b + r` and `r < b`. */
  lemma DivModUnique(x: nat, b: nat, q: nat, r: nat)
    requires b > 0 && r < b && x == q * b + r
    ensures x / b == q && x % b == r
  {
    var q0, r0 := x / b, x % b;
    assert x == q0 * b + r0;
    if q0 < q {
      assert (q - q0) * b == r0 - r;
      MulAtLeast(q - q0, b);
    } else if q < q0 {
      assert (q0 - q) * b == r - r0;
      MulAtLeast(q0 - q, b);
    }
  }

  lemma MulAtLeast(d: nat, b: nat)
    requires d >= 1
    ensures d * b >= b
  {
    assert d * b == (d - 1) * b + b;
  }

  lemma MulMono(a: nat, c: nat, b: nat)
    requires a <= c
    ensures a * b <= c * b
  {
    assert c * b == a * b + (c - a) * b;
  }

  /** Position `q * b + j` lies `j / b` blocks after block `q`, at offset `j % b` in it. */
  lemma DivModShift(q: nat, b: nat, j: nat)
    requires b > 0
    ensures (q * b + j) / b == q + j / b && (q * b + j) % b == j % b
  {
    assert j == (j / b) * b + j % b;
    assert q * b + j == (q + j / b) * b + j % b;
    DivModUnique(q * b + j, b, q + j / b, j % b);
  }

  /** Reducing a factor modulo `m` first does not change a product modulo `m`. */
  lemma MulMod(x: nat, h: nat, m: nat)
    requires m > 0
    ensures ((x % m) * h) % m == (x * h) % m
  {
    var q, r := x / m, x % m;
    assert x == q * m + r;
    assert x * h == (q * h) * m + r * h;
    DivModShift(q * h, m, r * h);
  }

  /** Reducing a summand modulo `m` first does not change a sum modulo `m`. */
  lemma AddMod(a: nat, y: nat, m: nat)
    requires m > 0
    ensures (a + y % m) % m == (a + y) % m
  {
    var q, r := y / m, y % m;
    assert y == q * m + r;
    DivModShift(q, m, a + r);
    assert a + y == q * m + (a + r);
  }
  /** Reduction modulo `m` never increases a natural number and keeps one below `m`. */
  lemma ModAtMost(x: nat, m: nat)
    requires m > 0
    ensures x % m <= x
    ensures x < m ==> x % m == x
  {
    assert x == (x / m) * m + x % m;
    MulMono(0, x / m, m);
    if x < m {
      DivModUnique(x, m, 0, x);
    }
  }
}
