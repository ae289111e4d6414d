/**
What the limb constraints of the signature gadget admit: the converse of `WitnessPassesLimbChecks`.
They are equations in the Goldilocks field, so a 64-bit value read from the wires may differ from a
canonical hash limb by the prime.
*/
module WireChecks {
  import opened Arith
  import opened MachineWords
  import opened Modular
  import opened Scalars
  import opened Bits
  import opened Witness

  const C1: nat := 0x4000_0000_0000_0000
  const C2: nat := 0x8000_0000_0000_0000
  const C3: nat := 0xC000_0000_0000_0000

  ghost predicate IsZero(x: int) {
    Cong(x, 0, P)
  }

  /** The Goldilocks field has no zero divisors. */
  ghost predicate NoZeroDivisors() {
    forall a, b | IsZero(a * b) :: IsZero(a) || IsZero(b)
  }

  // --- sizes of what the wires give ----------------------------------------------------------------------

  lemma {:induction false} ReconstructedBelow(bits: seq<bool>, k: nat)
    requires |bits| == 320 && k < 5
    ensures Reconstructed(bits, k) < TWO64
    ensures k == 4 && !bits[319] ==> Reconstructed(bits, k) < C2
  {
    Pow2Of32();
    LEBitsBelow(bits[64 * k..64 * k + 32]);
    var hi := bits[64 * k + 32..64 * k + 64];
    LEBitsBelow(hi);
    if k == 4 && !bits[319] {
      TopBitClear(hi);
    }
  }

  lemma {:induction false} TopBitClear(hi: seq<bool>)
    requires |hi| == 32 && !hi[31]
    ensures LEBits(hi) < 0x8000_0000
  {
    var low := hi[..31];
    assert hi == low + [false];
    LEBitsSplit(low, [false]);
    assert LEBits([false]) == 0;
    LEBitsBelow(low);
    Pow2Of32();
    assert Pow2(32) == 2 * Pow2(31);
  }

  // --- limbs 0 to 3 ------------------------------------------------------------------------------------------

  /** Congruent to a canonical element and below 2^64: the element, or that plus the prime. */
  lemma {:induction false} CongruentWords(r: nat, h: nat)
    requires r < TWO64 && h < P
    ensures Cong(r, h, P) <==> r == h || r == h + P
  {
    if Cong(r, h, P) {
      var k := CongGivesMultiple(r, h, P);
      assert -1 < k < 2;
    } else {
      CongByMultiple(h, h, 0, P);
      CongByMultiple(h + P, h, 1, P);
    }
  }

  // --- limb 4 --------------------------------------------------------------------------------------------------

  /** A product of four factors vanishes exactly when a factor does. */
  lemma {:induction false} FourFactors(a: int, b: int, c: int, d: int)
    requires NoZeroDivisors()
    ensures IsZero((a * b) * (c * d)) <==> IsZero(a) || IsZero(b) || IsZero(c) || IsZero(d)
  {
    TwoFactors(a, b);
    TwoFactors(c, d);
    TwoFactors(a * b, c * d);
  }

  lemma {:induction false} TwoFactors(a: int, b: int)
    requires NoZeroDivisors()
    ensures IsZero(a * b) <==> IsZero(a) || IsZero(b)
  {
    if IsZero(a) {
      CongMul(a, 0, b, P);
    }
    if IsZero(b) {
      CongMul(b, 0, a, P);
    }
  }

  /** A difference of two words below `P` and 2^63 vanishes in the field only at 0 and minus the prime. */
  lemma {:induction false} SmallZero(x: int)
    requires -2 * P < x < P
    ensures IsZero(x) <==> x == 0 || x + P == 0
  {
    if IsZero(x) {
      var k := CongGivesMultiple(x, 0, P);
      assert -2 < k < 1;
    } else {
      CongByMultiple(0, 0, 0, P);
      CongByMultiple(0 - P as int, 0, -1, P);
    }
  }

  /** The differences between hash limb and wires that the last constraint admits. */
  ghost predicate TopAdmitted(d: int) {
    d == 0 || d == C1 || d == C2 || d == C3 || d == C2 - P || d == C3 - P
  }

  lemma {:induction false} TopLimbExactly(h: nat, r: nat)
    requires NoZeroDivisors() && h < P && r < C2
    ensures var d := h - r;
            IsZero((d * (d - C1)) * ((d - C2) * (d - C3))) <==> TopAdmitted(d)
  {
    var d := h - r;
    FourFactors(d, d - C1, d - C2, d - C3);
    SmallZero(d);
    SmallZero(d - C1);
    SmallZero(d - C2);
    SmallZero(d - C3);
  }

  // --- all limbs -------------------------------------------------------------------------------------------------

  /**
  For 319 bits and a closing zero, the limb constraints hold if and only if each of the limbs 0 to 3
  is the hash limb or that plus the prime, and the last limb differs by one of six values.
  */
  lemma {:induction false} LimbChecksExactly(bits: seq<bool>, h: Limbs)
    requires NoZeroDivisors()
    requires |bits| == 320 && !bits[319] && forall k | 0 <= k < 5 :: h[k] < P
    ensures LimbChecks(bits, h) <==>
              && (forall k | 0 <= k < 4 :: Reconstructed(bits, k) == h[k] || Reconstructed(bits, k) == h[k] as int + P)
              && TopAdmitted(h[4] as int - Reconstructed(bits, 4))
  {
    forall k: nat | k < 4
      ensures Cong(Reconstructed(bits, k), h[k], P)
         <==> Reconstructed(bits, k) == h[k] || Reconstructed(bits, k) == h[k] as int + P
    {
      ReconstructedBelow(bits, k);
      CongruentWords(Reconstructed(bits, k), h[k]);
    }
    ReconstructedBelow(bits, 4);
    TopLimbExactly(h[4], Reconstructed(bits, 4));
  }

  /**
  So the wires read exactly the challenge when bit 318 is clear, which the constraints leave open, and
  no hash limb is below 2^32 - 1.
  */
  lemma {:induction false} ClearBitReadsChallenge(bits: seq<bool>, h: Limbs)
    requires NoZeroDivisors()
    requires |bits| == 320 && !bits[319] && Reconstructed(bits, 4) < C1
    requires forall k | 0 <= k < 5 :: TWO32 - 1 <= h[k] < P
    requires LimbChecks(bits, h)
    ensures forall k | 0 <= k < 5 :: Reconstructed(bits, k) == h[4 := h[4] % C1][k]
  {
    LimbChecksExactly(bits, h);
    forall k: nat | k < 4 ensures Reconstructed(bits, k) == h[k] {
      ReconstructedBelow(bits, k);
    }
    TopReading(h[4], Reconstructed(bits, 4));
  }

  lemma {:induction false} TopReading(h: nat, r: nat)
    requires TWO32 - 1 <= h < P && r < C1 && TopAdmitted(h - r)
    ensures r == h % C1
  {
  }

  /** With bit 318 open, a last hash limb from 2^62 up to 2^63 passes with two readings. */
  lemma {:induction false} TwoReadings(h: nat)
    requires C1 <= h < C2
    ensures TopAdmitted(h - h) && TopAdmitted(h - (h - C1)) && h < C2 && h - C1 < C2
  {
  }
}
