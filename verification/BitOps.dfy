/** Bitwise or on unbounded naturals. */
module BitOps {
  import opened Arith

  function BitOr(a: nat, b: nat): (r: nat)
    decreases a + b
  {
    if a == 0 then b else if b == 0 then a
    else 2 * BitOr(a / 2, b / 2) + (if a % 2 == 1 || b % 2 == 1 then 1 else 0)
  }

  lemma {:induction false} BitOrZero(a: nat, b: nat)
    ensures BitOr(a, b) == 0 <==> a == 0 && b == 0
    decreases a + b
  {
    if a != 0 && b != 0 {
      BitOrZero(a / 2, b / 2);
    }
  }

  lemma {:induction false} BitOrBelow(a: nat, b: nat, k: nat)
    requires a < Pow2(k) && b < Pow2(k)
    ensures BitOr(a, b) < Pow2(k)
    decreases k
  {
    if a != 0 && b != 0 {
      BitOrBelow(a / 2, b / 2, k - 1);
    }
  }

  /** Values that share no bits are added by `or`. */
  lemma {:induction false} BitOrDisjoint(a: nat, b: nat, k: nat)
    requires a < Pow2(k)
    ensures BitOr(a, b * Pow2(k)) == a + b * Pow2(k)
  {
    ShiftedIs(b, k);
    BitOrShifted(a, b, k);
  }

  /** `b << k`, one bit at a time. */
  function Shifted(b: nat, k: nat): nat {
    if k == 0 then b else 2 * Shifted(b, k - 1)
  }

  lemma {:induction false} ShiftedIs(b: nat, k: nat)
    ensures Shifted(b, k) == b * Pow2(k)
  {
    if k > 0 {
      ShiftedIs(b, k - 1);
    }
  }

  lemma {:induction false} BitOrShifted(a: nat, b: nat, k: nat)
    requires a < Pow2(k)
    ensures BitOr(a, Shifted(b, k)) == a + Shifted(b, k)
    decreases k
  {
    if k > 0 && a != 0 {
      BitOrShifted(a / 2, b, k - 1);
    }
  }
}
