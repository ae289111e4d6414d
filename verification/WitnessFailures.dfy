/**
When the witness of a signature check cannot be computed, in integers: with the offset and the key as
multiples of the generator every accumulator is one, and a step fails exactly on congruences between them.
*/
module WitnessFailures {
  import opened Arith
  import opened Modular
  import opened Scalars
  import opened Bits
  import opened Curve
  import opened Witness

  /** Two proper points have the same x coordinate exactly when they are equal or opposite. */
  ghost predicate XCoordinates<P(!new)>(c: Group<P>) {
    forall x, y | x != c.neutral && y != c.neutral :: c.sameX(x, y) <==> x == y || x == c.neg(y)
  }

  /** The accumulator before step `idx` is this multiple of the generator, for the offset `t*G` and the key `d*G`. */
  ghost function Factor(t: nat, d: nat, e: seq<bool>, s: seq<bool>, idx: nat): nat
    requires |e| == |s| && idx <= |e|
  {
    Pow2(idx) * t + LEBits(s[|s| - idx..]) + LEBits(e[|e| - idx..]) * d
  }

  lemma {:induction false} EqualMultiples<P(!new)>(c: Group<P>, a: nat, b: nat)
    requires PrimeOrderGroup(c)
    ensures Mul(c, a, c.generator) == Mul(c, b, c.generator) <==> Cong(a, b, ORDER)
  {
    if Cong(a, b, ORDER) {
      MulCong(c, a, b, c.generator);
    } else if Mul(c, a, c.generator) == Mul(c, b, c.generator) {
      if a <= b {
        MulInjective(c, a, b, c.generator);
      } else {
        MulInjective(c, b, a, c.generator);
      }
    }
  }

  lemma {:induction false} NeutralMultiple<P(!new)>(c: Group<P>, a: nat)
    requires PrimeOrderGroup(c)
    ensures Mul(c, a, c.generator) == c.neutral <==> a % ORDER == 0
  {
    assert OrderAt(c, c.generator, a);
  }

  lemma {:induction false} OppositePoints<P(!new)>(c: Group<P>, x: P, y: P)
    requires PrimeOrderGroup(c)
    ensures x == c.neg(y) <==> c.plus(x, y) == c.neutral
  {
    var n := c.neg(y);
    assert LawsAt(c, x, y, n) && LawsAt(c, y, n, n) && LawsAt(c, n, y, y) && LawsAt(c, c.neutral, n, n);
    assert LawsAt(c, n, c.neutral, n);
  }

  lemma {:induction false} OppositeMultiples<P(!new)>(c: Group<P>, a: nat, b: nat)
    requires PrimeOrderGroup(c)
    ensures Mul(c, a, c.generator) == c.neg(Mul(c, b, c.generator)) <==> (a + b) % ORDER == 0
  {
    OppositePoints(c, Mul(c, a, c.generator), Mul(c, b, c.generator));
    MulAdd(c, a, b, c.generator);
    NeutralMultiple(c, a + b);
  }

  lemma {:induction false} SameXMultiples<P(!new)>(c: Group<P>, a: nat, d: nat)
    requires PrimeOrderGroup(c) && XCoordinates(c) && a % ORDER != 0 && d % ORDER != 0
    ensures c.sameX(Mul(c, a, c.generator), Mul(c, d, c.generator)) <==> Cong(a, d, ORDER) || (a + d) % ORDER == 0
  {
    NeutralMultiple(c, a);
    NeutralMultiple(c, d);
    EqualMultiples(c, a, d);
    OppositeMultiples(c, a, d);
  }

  lemma {:induction false} CombIsMultiple<P(!new)>(c: Group<P>, t: nat, d: nat, o: nat, s: nat, e: nat)
    requires PrimeOrderGroup(c)
    ensures Comb(c, Mul(c, t, c.generator), Mul(c, d, c.generator), o, s, e) == Mul(c, o * t + s + e * d, c.generator)
  {
    var g := c.generator;
    MulMul(c, o, t, g);
    MulMul(c, e, d, g);
    MulAdd(c, o * t, s, g);
    MulAdd(c, o * t + s, e * d, g);
  }

  /** The order is odd, so doubling a proper point gives one. */
  lemma {:induction false} TwiceIsProper(a: nat)
    requires a % ORDER != 0
    ensures (2 * a) % ORDER != 0
  {
    var q, r := a / ORDER, a % ORDER;
    if 2 * r < ORDER {
      DivModUnique(2 * a, 2 * q, 2 * r, ORDER);
    } else {
      DivModUnique(2 * a, 2 * q + 1, 2 * r - ORDER, ORDER);
    }
  }

  /** The integers on which a step fails: a doubled one, or the last. */
  ghost predicate FailsOn<P>(c: Group<P>, a: nat, d: nat, last: bool) {
    if last then
      if a % ORDER == 0 then c.sameX(c.neutral, Mul(c, d, c.generator))
      else (a - d) % ORDER == 0 || (a + d) % ORDER == 0
    else
      a % ORDER == 0 || (2 * a - d) % ORDER == 0 || (2 * a + d) % ORDER == 0
  }

  lemma {:induction false} CongDifference(a: int, d: int)
    ensures Cong(a, d, ORDER) <==> (a - d) % ORDER == 0
  {
    if Cong(a, d, ORDER) {
      CongAdd(a, d, d, d, ORDER);
      SmallIsItsRemainder(0, ORDER);
    }
    if (a - d) % ORDER == 0 {
      SmallIsItsRemainder(0, ORDER);
      CongAdd(a - d, 0, d, d, ORDER);
    }
  }

  /** Step `idx` fails exactly on a congruence between its factor and that of the key. */
  lemma {:induction false} StepFailsExactly<P(!new)>(c: Group<P>, t: nat, d: nat, e: seq<bool>, s: seq<bool>, idx: nat)
    requires PrimeOrderGroup(c) && XCoordinates(c) && d % ORDER != 0 && |e| == |s| && idx <= |e|
    ensures StepFails(c, Mul(c, t, c.generator), Mul(c, d, c.generator), e, s, idx)
       <==> FailsOn(c, Factor(t, d, e, s, idx), d, idx == |e|)
  {
    var a := Factor(t, d, e, s, idx);
    CombIsMultiple(c, t, d, Pow2(idx), LEBits(s[|s| - idx..]), LEBits(e[|e| - idx..]));
    NeutralMultiple(c, a);
    if a % ORDER != 0 {
      if idx < |e| {
        MulAdd(c, a, a, c.generator);
        TwiceIsProper(a);
        SameXMultiples(c, 2 * a, d);
        CongDifference(2 * a, d);
      } else {
        SameXMultiples(c, a, d);
        CongDifference(a, d);
      }
    }
  }

  /** No congruence at any of the steps. */
  ghost predicate NoCongruence<P>(c: Group<P>, t: nat, d: nat, e: seq<bool>, s: seq<bool>)
    requires |e| == |s|
  {
    forall i | 0 <= i <= |e| :: !FailsOn(c, Factor(t, d, e, s, i), d, i == |e|)
  }

  /**
  So for the key `d*G` the condition under which `SignatureWitness` completes, that no step fails, is that no
  congruence holds at any of the 320 steps.
  */
  lemma {:induction false} NoFailureExactly<P(!new)>(c: Group<P>, t: nat, d: nat, e: seq<bool>, s: seq<bool>)
    requires PrimeOrderGroup(c) && XCoordinates(c) && d % ORDER != 0 && |e| == |s|
    ensures NoFailure(c, Mul(c, t, c.generator), Mul(c, d, c.generator), e, s, |e| + 1) <==> NoCongruence(c, t, d, e, s)
  {
    var off, q := Mul(c, t, c.generator), Mul(c, d, c.generator);
    forall i | 0 <= i <= |e|
      ensures StepFails(c, off, q, e, s, i) <==> FailsOn(c, Factor(t, d, e, s, i), d, i == |e|)
    {
      StepFailsExactly(c, t, d, e, s, i);
    }
  }
}
