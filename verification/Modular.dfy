/** Congruence arithmetic with an arbitrary modulus. */
module Modular {
  import opened Arith

  ghost predicate Cong(x: int, y: int, n: int)
    requires n > 0
  {
    x % n == y % n
  }

  /** The quotient and remainder are the only ones. */
  lemma {:induction false} DivModUnique(x: int, q: int, r: int, n: int)
    requires n > 0 && 0 <= r < n && x == q * n + r
    ensures x / n == q && x % n == r
  {
    var q', r' := x / n, x % n;
    assert x == q' * n + r';
    assert (q + 1) * n == q * n + n && (q' + 1) * n == q' * n + n;
    if q' > q {
      MulMono(q + 1, q', n);
      assert false;
    }
    if q' < q {
      MulMono(q' + 1, q, n);
      assert false;
    }
  }

  lemma {:induction false} CongByMultiple(x: int, y: int, k: int, n: int)
    requires n > 0 && x == y + k * n
    ensures Cong(x, y, n)
  {
    var q, r := y / n, y % n;
    assert y == q * n + r;
    assert x == (q + k) * n + r;
    DivModUnique(x, q + k, r, n);
  }

  lemma {:induction false} CongGivesMultiple(x: int, y: int, n: int) returns (k: int)
    requires n > 0 && Cong(x, y, n)
    ensures x == y + k * n
  {
    k := x / n - y / n;
    assert x == (x / n) * n + x % n;
    assert y == (y / n) * n + y % n;
    assert k * n == (x / n) * n - (y / n) * n;
  }

  lemma {:induction false} CongMod(x: int, n: int)
    requires n > 0
    ensures Cong(x % n, x, n)
  {
    CongByMultiple(x % n, x, -(x / n), n);
  }

  lemma {:induction false} CongMul(x: int, y: int, c: int, n: int)
    requires n > 0 && Cong(x, y, n)
    ensures Cong(x * c, y * c, n) && Cong(c * x, c * y, n)
  {
    var k := CongGivesMultiple(x, y, n);
    assert x * c == y * c + (k * c) * n;
    CongByMultiple(x * c, y * c, k * c, n);
    assert c * x == x * c && c * y == y * c;
  }

  lemma {:induction false} CongMulBoth(a: int, b: int, c: int, d: int, n: int)
    requires n > 0 && Cong(a, b, n) && Cong(c, d, n)
    ensures Cong(a * c, b * d, n)
  {
    CongMul(a, b, c, n);
    CongMul(c, d, b, n);
  }

  lemma {:induction false} CongAdd(a: int, b: int, c: int, d: int, n: int)
    requires n > 0 && Cong(a, b, n) && Cong(c, d, n)
    ensures Cong(a + c, b + d, n) && Cong(a - c, b - d, n)
  {
    var k := CongGivesMultiple(a, b, n);
    var l := CongGivesMultiple(c, d, n);
    assert (k + l) * n == k * n + l * n && (k - l) * n == k * n - l * n;
    CongByMultiple(a + c, b + d, k + l, n);
    CongByMultiple(a - c, b - d, k - l, n);
  }

  lemma {:induction false} SmallIsItsRemainder(x: int, n: int)
    requires 0 <= x < n
    ensures x % n == x
  {
    DivModUnique(x, 0, x, n);
  }

  /** A factor with an inverse can be cancelled. */
  lemma {:induction false} CongCancel(x: int, y: int, c: int, inv: int, n: int)
    requires n > 0 && Cong(c * inv, 1, n) && Cong(x * c, y * c, n)
    ensures Cong(x, y, n)
  {
    CongMul(x * c, y * c, inv, n);
    assert (x * c) * inv == x * (c * inv) && (y * c) * inv == y * (c * inv);
    CongMul(c * inv, 1, x, n);
    CongMul(c * inv, 1, y, n);
    assert Cong(x * (c * inv), x * 1, n) && Cong(y * (c * inv), y * 1, n);
  }
}
