/** The 319 bits of a scalar, and values read back from bits. */
module Bits {
  import opened Arith
  import opened MachineWords
  import opened Modular
  import opened Scalars

  const BITS: nat := 319

  /** The value of a bit string, least significant bit first. */
  function LEBits(bits: seq<bool>): nat {
    if |bits| == 0 then 0 else (if bits[0] then 1 else 0) + 2 * LEBits(bits[1..])
  }

  function BitOf(v: nat, i: nat): bool {
    Shr(v, i) % 2 == 1
  }

  lemma {:induction false} LEBitsBelow(bits: seq<bool>)
    ensures LEBits(bits) < Pow2(|bits|)
  {
    if |bits| > 0 {
      LEBitsBelow(bits[1..]);
    }
  }

  lemma {:induction false} LEBitsSplit(x: seq<bool>, y: seq<bool>)
    ensures LEBits(x + y) == LEBits(x) + Pow2(|x|) * LEBits(y)
  {
    if |x| == 0 {
      assert x + y == y;
    } else {
      LEBitsSplit(x[1..], y);
      assert (x + y)[1..] == x[1..] + y;
      assert 2 * (Pow2(|x| - 1) * LEBits(y)) == (2 * Pow2(|x| - 1)) * LEBits(y);
    }
  }

  lemma {:induction false} ShrTwice(i: nat, k: nat)
    ensures Shr(i, k + 1) == Shr(i / 2, k)
  {
    if k > 0 {
      ShrTwice(i, k - 1);
    } else {
      assert Shr(i, 1) == Shr(i, 0) / 2;
    }
  }

  /** The bits of a number give it back, up to the bits that were dropped. */
  lemma {:induction false} BitsGiveValue(v: nat, bits: seq<bool>)
    requires forall i | 0 <= i < |bits| :: bits[i] == BitOf(v, i)
    ensures LEBits(bits) == v % Pow2(|bits|)
    decreases |bits|
  {
    if |bits| > 0 {
      forall i | 0 <= i < |bits[1..]| ensures bits[1..][i] == BitOf(v / 2, i) {
        ShrTwice(v, i);
      }
      BitsGiveValue(v / 2, bits[1..]);
      var p := Pow2(|bits| - 1);
      assert bits[0] == BitOf(v, 0);
      ModDouble(v, p);
    }
  }

  lemma {:induction false} ModDouble(v: nat, p: nat)
    requires p > 0
    ensures v % (2 * p) == v % 2 + 2 * ((v / 2) % p)
  {
    var h := v / 2;
    var q, r := h / p, h % p;
    assert h == q * p + r;
    assert v == q * (2 * p) + (v % 2 + 2 * r);
    DivModUnique(v, q, v % 2 + 2 * r, 2 * p);
  }

  // --- bits of limbs -----------------------------------------------------------------------------------

  function Rest(s: Limbs, q: nat): nat
    requires q <= 5
    decreases 5 - q
  {
    if q == 5 then 0 else Digit(s, q) + TWO64 * Rest(s, q + 1)
  }

  lemma {:induction false} PrefixAndRest(s: Limbs, q: nat)
    requires q <= 5
    ensures Value(s) == Prefix(s, q) + BPow(q) * Rest(s, q)
    ensures Prefix(s, q) < BPow(q)
    decreases 5 - q
  {
    if q == 5 {
      ValueIs(s);
    } else {
      PrefixAndRest(s, q + 1);
      RestStep(Prefix(s, q), Digit(s, q), BPow(q), Rest(s, q + 1));
      PrefixNext(s, q);
      PrefixBelow(s, q);
    }
  }

  lemma {:induction false} RestStep(p: int, d: int, b: int, r: int)
    ensures (p + d * b) + (TWO64 * b) * r == p + b * (d + TWO64 * r)
  {
  }

  /** An even multiple drops out of a halving and of a parity. */
  lemma {:induction false} HalveSum(y: nat, p: nat, h: nat)
    ensures (y + (2 * p) * h) / 2 == y / 2 + p * h
    ensures (y + (2 * p) * h) % 2 == y % 2
  {
    var m := p * h;
    assert (2 * p) * h == 2 * m;
  }

  lemma {:induction false} PrefixBelow(s: seq<u64>, q: nat)
    requires q <= |s|
    ensures Prefix(s, q) < BPow(q)
  {
    if q > 0 {
      PrefixBelow(s, q - 1);
      MulMono(Digit(s, q - 1), TWO64 - 1, BPow(q - 1));
    }
  }

  lemma {:induction false} ShrIsQuotient(x: nat, k: nat, q: nat, r: nat)
    requires x == q * Pow2(k) + r && r < Pow2(k)
    ensures Shr(x, k) == q
  {
    ShrDivides(x, k);
    DivModUnique(x, q, r, Pow2(k));
    var s := Shr(x, k);
    assert (s + 1) * Pow2(k) == s * Pow2(k) + Pow2(k);
    DivModUnique(x, s, x - s * Pow2(k), Pow2(k));
  }

  lemma {:induction false} Pow2Limb(q: nat)
    ensures Pow2(64 * q) == BPow(q)
    ensures Pow2(64) == TWO64
  {
    Pow2Of64();
    if q > 0 {
      Pow2Limb(q - 1);
      Pow2Adds(64, 64 * (q - 1));
    }
  }

  lemma {:induction false} ShrByLimbs(s: Limbs, q: nat)
    requires q <= 5
    ensures Shr(Value(s), 64 * q) == Rest(s, q)
  {
    PrefixAndRest(s, q);
    Pow2Limb(q);
    assert BPow(q) * Rest(s, q) == Rest(s, q) * Pow2(64 * q);
    ShrIsQuotient(Value(s), 64 * q, Rest(s, q), Prefix(s, q));
  }

  /** Below its top bit, a limb shifts the same with or without the limbs above it. */
  lemma {:induction false} ShrWithinLimb(x: nat, h: nat, k: nat, n: nat)
    requires k <= n
    ensures Shr(x + Pow2(n) * h, k) == Shr(x, k) + Pow2(n - k) * h
  {
    if k > 0 {
      ShrWithinLimb(x, h, k - 1, n);
      HalveSum(Shr(x, k - 1), Pow2(n - k), h);
    }
  }

  lemma {:induction false} LowBits(x: u64, h: nat, k: nat)
    requires k < 64
    ensures BitOf(x as int + TWO64 * h, k) == BitOf(x, k)
  {
    Pow2Limb(0);
    ShrWithinLimb(x, h, k, 64);
    HalveSum(Shr(x, k), Pow2(63 - k), h);
  }

  lemma {:induction false} BitInLimb(s: Limbs, q: nat, k: nat)
    requires q < 5 && k < 64
    ensures BitOf(Value(s), 64 * q + k) == BitOf(s[q], k)
  {
    ShrAdds(Value(s), 64 * q, k);
    ShrByLimbs(s, q);
    LowBits(s[q], Rest(s, q + 1), k);
  }

  /** `to_bit_arr` */
  method ToBitArr(s: Limbs) returns (bits: seq<bool>)
    ensures |bits| == BITS
    ensures forall i | 0 <= i < BITS :: bits[i] == BitOf(Value(s), i)
    ensures LEBits(bits) == Value(s) % Pow2(BITS)
  {
    bits := [];
    for i := 0 to BITS
      invariant |bits| == i
      invariant forall j | 0 <= j < i :: bits[j] == BitOf(Value(s), j)
    {
      var limb, bit := i / 64, i % 64;
      bits := bits + [Shr(s[limb], bit) % 2 == 1];
      BitInLimb(s, limb, bit);
    }
    BitsGiveValue(Value(s), bits);
  }

  /** Every reduced scalar fits in 319 bits; 318 bits stay below the order. */
  lemma {:induction false} OrderBits()
    ensures Pow2(318) < ORDER < Pow2(319)
  {
    Pow2Limb(5);
    BPowIs();
    assert Pow2(320) == 2 * Pow2(319) && Pow2(319) == 2 * Pow2(318);
  }
}
