/** Powers of two, shifts and the result type shared by the other modules. */
module Arith {

  datatype Option<+T> = None | Some(value: T)

  datatype Result<+T, +E> = Ok(value: T) | Err(error: E)

  function Pow2(n: nat): (r: nat)
    ensures r >= 1
  {
    if n == 0 then 1 else 2 * Pow2(n - 1)
  }

  /** `i >> k` */
  function Shr(i: nat, k: nat): nat {
    if k == 0 then i else Shr(i, k - 1) / 2
  }

  function Max(a: int, b: int): int {
    if a < b then b else a
  }

  lemma {:induction false} Pow2Adds(a: nat, b: nat)
    ensures Pow2(a + b) == Pow2(a) * Pow2(b)
  {
    if a > 0 {
      Pow2Adds(a - 1, b);
      assert Pow2(a + b) == 2 * Pow2(a + b - 1);
      assert 2 * (Pow2(a - 1) * Pow2(b)) == (2 * Pow2(a - 1)) * Pow2(b);
    }
  }

  lemma {:induction false} Pow2Grows(a: nat, b: nat)
    requires a <= b
    ensures Pow2(a) <= Pow2(b)
    decreases b - a
  {
    if a < b {
      Pow2Grows(a, b - 1);
    }
  }

  /** Shifting right by `k` divides by `2^k`. */
  lemma {:induction false} ShrDivides(i: nat, k: nat)
    ensures Shr(i, k) * Pow2(k) <= i < (Shr(i, k) + 1) * Pow2(k)
  {
    if k > 0 {
      ShrDivides(i, k - 1);
      HalvingBounds(i, Shr(i, k - 1), Pow2(k - 1));
    }
  }

  lemma {:induction false} HalvingBounds(i: nat, s: nat, p: nat)
    requires s * p <= i < (s + 1) * p
    ensures (s / 2) * (2 * p) <= i < (s / 2 + 1) * (2 * p)
  {
    var q := s / 2;
    MulMono(2 * q, s, p);
    MulMono(s + 1, 2 * q + 2, p);
    calc { q * (2 * p); (2 * q) * p; }
    calc { (q + 1) * (2 * p); (2 * q + 2) * p; }
  }

  lemma {:induction false} MulMono(a: int, b: int, c: nat)
    requires a <= b
    ensures a * c <= b * c
  {
    assert (b - a) * c >= 0;
  }

  lemma {:induction false} ShrBelow(i: nat, d: nat, k: nat)
    requires i < Pow2(d) && k <= d
    ensures Shr(i, k) < Pow2(d - k)
  {
    if k > 0 {
      ShrBelow(i, d, k - 1);
    }
  }

  lemma {:induction false} ShrAdds(i: nat, a: nat, b: nat)
    ensures Shr(i, a + b) == Shr(Shr(i, a), b)
  {
    if b > 0 {
      ShrAdds(i, a, b - 1);
      assert a + b - 1 == a + (b - 1);
    }
  }

  lemma {:induction false} Pow2Of32()
    ensures Pow2(8) == 256 && Pow2(32) == 0x1_0000_0000
  {
    assert Pow2(8) == 256 by { assert Pow2(4) == 16; assert Pow2(6) == 64; }
    Pow2Adds(8, 8);
    assert Pow2(16) == 0x1_0000;
    Pow2Adds(16, 16);
  }

  lemma {:induction false} Pow2Of64()
    ensures Pow2(64) == 0x1_0000_0000_0000_0000
  {
    Pow2Of32();
    Pow2Adds(32, 32);
  }
}
