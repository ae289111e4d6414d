/**
The circuit witness of a signature check: 80 gates of four double-and-add steps that accumulate
`s*G + e*Q` on top of an offset point, whose contribution the last, undoubled step removes. A
failed assertion or a division by zero in the source is the outcome `None`.
*/
module Witness {
  import opened Arith
  import opened Modular
  import opened Scalars
  import opened Bits
  import opened Curve
  import opened ScalarCodec

  // --- sums of multiples of the three points -----------------------------------------------------------

  function Comb<P>(c: Group<P>, off: P, q: P, o: nat, s: nat, e: nat): P {
    c.plus(c.plus(Mul(c, o, off), Mul(c, s, c.generator)), Mul(c, e, q))
  }

  lemma {:induction false} Swap4<P(!new)>(c: Group<P>, a: P, b: P, x: P, y: P)
    requires PrimeOrderGroup(c)
    ensures c.plus(c.plus(a, b), c.plus(x, y)) == c.plus(c.plus(a, x), c.plus(b, y))
  {
    assert LawsAt(c, a, b, c.plus(x, y));
    assert LawsAt(c, b, x, y) && LawsAt(c, x, b, y);
    assert LawsAt(c, a, x, c.plus(b, y));
  }

  lemma {:induction false} CombAdd<P(!new)>(c: Group<P>, off: P, q: P, o: nat, s: nat, e: nat, o': nat, s': nat,
                                            e': nat)
    requires PrimeOrderGroup(c)
    ensures c.plus(Comb(c, off, q, o, s, e), Comb(c, off, q, o', s', e')) == Comb(c, off, q, o + o', s + s', e + e')
  {
    var g := c.generator;
    Swap4(c, c.plus(Mul(c, o, off), Mul(c, s, g)), Mul(c, e, q), c.plus(Mul(c, o', off), Mul(c, s', g)), Mul(c, e', q));
    Swap4(c, Mul(c, o, off), Mul(c, s, g), Mul(c, o', off), Mul(c, s', g));
    MulAdd(c, o, o', off);
    MulAdd(c, s, s', g);
    MulAdd(c, e, e', q);
  }

  lemma {:induction false} CombOfOne<P(!new)>(c: Group<P>, off: P, q: P)
    requires PrimeOrderGroup(c)
    ensures Comb(c, off, q, 1, 0, 0) == off
    ensures Comb(c, off, q, 0, 1, 0) == c.generator
    ensures Comb(c, off, q, 0, 0, 1) == q
  {
    MulOne(c, off);
    MulOne(c, c.generator);
    MulOne(c, q);
    assert LawsAt(c, off, c.neutral, off);
    assert LawsAt(c, c.neutral, c.generator, off) && LawsAt(c, c.generator, c.neutral, off);
    assert LawsAt(c, c.neutral, c.neutral, off);
    assert LawsAt(c, c.neutral, q, off) && LawsAt(c, q, c.neutral, off);
  }

  // --- one step -------------------------------------------------------------------------------------------

  /** The `step` closure: double unless told not to, require a tangent to `p`, add the selected points. */
  function Step<P(==)>(c: Group<P>, p: P, p2: P, acc: P, addP: bool, addP2: bool, double: bool): Option<P> {
    if double && acc == c.neutral then None
    else
      var accdbl := if double then Doubled(c, acc) else acc;
      if c.sameX(accdbl, p) then None
      else Some(
        match (addP, addP2)
        case (false, false) => accdbl
        case (true, false) => c.plus(accdbl, p)
        case (false, true) => c.plus(accdbl, p2)
        case (true, true) => c.plus(c.plus(accdbl, p), p2))
  }

  /** The accumulator after `idx` steps: the top `idx` bits of both scalars, and the doubled offset. */
  ghost function Closed<P>(c: Group<P>, off: P, q: P, e: seq<bool>, s: seq<bool>, idx: nat): P
    requires |e| == |s| && idx <= |e|
  {
    Comb(c, off, q, Pow2(idx), LEBits(s[|s| - idx..]), LEBits(e[|e| - idx..]))
  }

  /** Step `idx` meets a point it cannot handle. */
  ghost predicate StepFails<P>(c: Group<P>, off: P, q: P, e: seq<bool>, s: seq<bool>, idx: nat)
    requires |e| == |s| && idx <= |e|
  {
    var acc := Closed(c, off, q, e, s, idx);
    if idx < |e| then acc == c.neutral || c.sameX(c.plus(acc, acc), q) else c.sameX(acc, q)
  }

  lemma {:induction false} NextBit(bits: seq<bool>, idx: nat)
    requires idx < |bits|
    ensures LEBits(bits[|bits| - (idx + 1)..]) ==
        (if bits[|bits| - 1 - idx] then 1 else 0) + 2 * LEBits(bits[|bits| - idx..])
  {
    assert bits[|bits| - (idx + 1)..][1..] == bits[|bits| - idx..];
  }

  lemma {:induction false} DoubleAddCorrect<P(!new)>(c: Group<P>, off: P, q: P, o: nat, s: nat, e: nat, addQ: bool,
                                                     addG: bool)
    requires PrimeOrderGroup(c)
    requires Comb(c, off, q, o, s, e) != c.neutral
    ensures var acc := Comb(c, off, q, o, s, e);
            var next := Step(c, q, c.generator, acc, addQ, addG, true);
            next == if c.sameX(c.plus(acc, acc), q) then None
                    else Some(Comb(c, off, q, 2 * o, 2 * s + (if addG then 1 else 0), 2 * e + (if addQ then 1 else 0)))
  {
    CombAdd(c, off, q, o, s, e, o, s, e);
    var twice := Comb(c, off, q, 2 * o, 2 * s, 2 * e);
    assert c.plus(Comb(c, off, q, o, s, e), Comb(c, off, q, o, s, e)) == twice;
    AddOneQ(c, off, q, 2 * o, 2 * s, 2 * e);
    AddOneG(c, off, q, 2 * o, 2 * s, 2 * e);
    AddOneG(c, off, q, 2 * o, 2 * s, 2 * e + 1);
  }

  lemma {:induction false} AddOneQ<P(!new)>(c: Group<P>, off: P, q: P, o: nat, s: nat, e: nat)
    requires PrimeOrderGroup(c)
    ensures c.plus(Comb(c, off, q, o, s, e), q) == Comb(c, off, q, o, s, e + 1)
  {
    CombOfOne(c, off, q);
    CombAdd(c, off, q, o, s, e, 0, 0, 1);
  }

  lemma {:induction false} AddOneG<P(!new)>(c: Group<P>, off: P, q: P, o: nat, s: nat, e: nat)
    requires PrimeOrderGroup(c)
    ensures c.plus(Comb(c, off, q, o, s, e), c.generator) == Comb(c, off, q, o, s + 1, e)
  {
    CombOfOne(c, off, q);
    CombAdd(c, off, q, o, s, e, 0, 1, 0);
  }

  /** A doubled step moves from the closed form of `idx` bits to that of `idx + 1`. */
  lemma {:induction false} StepCorrect<P(!new)>(c: Group<P>, off: P, q: P, e: seq<bool>, s: seq<bool>, idx: nat)
    requires PrimeOrderGroup(c) && |e| == |s| && idx < |e|
    ensures Step(c, q, c.generator, Closed(c, off, q, e, s, idx), e[|e| - 1 - idx], s[|s| - 1 - idx], true)
         == if StepFails(c, off, q, e, s, idx) then None else Some(Closed(c, off, q, e, s, idx + 1))
  {
    NextBit(e, idx);
    NextBit(s, idx);
    var acc := Closed(c, off, q, e, s, idx);
    if acc != c.neutral {
      DoubleAddCorrect(c, off, q, Pow2(idx), LEBits(s[|s| - idx..]), LEBits(e[|e| - idx..]),
                       e[|e| - 1 - idx], s[|s| - 1 - idx]);
    }
  }

  /** The last step removes the offset. */
  lemma {:induction false} LastStepCorrect<P(!new)>(c: Group<P>, off: P, negOff: P, q: P, e: seq<bool>, s: seq<bool>)
    requires PrimeOrderGroup(c) && |e| == |s|
    requires negOff == c.neg(Mul(c, Pow2(|e|), off))
    ensures Step(c, q, negOff, Closed(c, off, q, e, s, |e|), false, true, false)
         == if StepFails(c, off, q, e, s, |e|) then None
            else Some(c.plus(Mul(c, LEBits(s), c.generator), Mul(c, LEBits(e), q)))
  {
    assert e[0..] == e && s[0..] == s;
    var x, y, z := Mul(c, Pow2(|e|), off), Mul(c, LEBits(s), c.generator), Mul(c, LEBits(e), q);
    OffsetCancels(c, x, y, z);
  }

  lemma {:induction false} OffsetCancels<P(!new)>(c: Group<P>, x: P, y: P, z: P)
    requires PrimeOrderGroup(c)
    ensures c.plus(c.plus(c.plus(x, y), z), c.neg(x)) == c.plus(y, z)
  {
    var n, w := c.neg(x), c.plus(y, z);
    assert LawsAt(c, x, y, z);
    assert LawsAt(c, c.plus(x, w), n, n) && LawsAt(c, n, x, w) && LawsAt(c, x, n, n);
    assert LawsAt(c, c.neutral, w, n) && LawsAt(c, w, c.neutral, n);
  }

  // --- the gates --------------------------------------------------------------------------------------------

  /** The selector wires of gate `g`. */
  function Selectors(bits: seq<bool>, g: nat, padding: bool): (w: seq<bool>)
    ensures |w| == 4 && forall k | 0 <= k < 4 :: w[k] == Selector(bits, 4 * g + k, padding)
  {
    seq(4, k requires 0 <= k < 4 => Selector(bits, 4 * g + k, padding))
  }

  ghost predicate IsWires(wires: seq<seq<bool>>, bits: seq<bool>)
  {
    && |wires| == 80
    && (forall g | 0 <= g < 80 :: |wires[g]| == 4)
    && (forall g | 0 <= g < 80 :: wires[g] == Selectors(bits, g, false))
  }

  /** What the accumulator must be before step `idx` of the 320, and after all of them. */
  ghost function Expected<P>(c: Group<P>, off: P, q: P, e: seq<bool>, s: seq<bool>, idx: nat): P
    requires |e| == |s| && idx <= |e| + 1
  {
    if idx <= |e| then Closed(c, off, q, e, s, idx)
    else c.plus(Mul(c, LEBits(s), c.generator), Mul(c, LEBits(e), q))
  }

  /** The selector of step `idx`: the bits from the top, then the padding value. */
  function Selector(bits: seq<bool>, idx: nat, padding: bool): bool {
    if idx < |bits| then bits[|bits| - 1 - idx] else padding
  }

  lemma {:induction false} AnyStepCorrect<P(!new)>(c: Group<P>, off: P, negOff: P, q: P, e: seq<bool>, s: seq<bool>,
                                                   idx: nat)
    requires PrimeOrderGroup(c) && |e| == |s| && idx <= |e|
    requires negOff == c.neg(Mul(c, Pow2(|e|), off))
    ensures Step(c, q, if idx == |e| then negOff else c.generator, Expected(c, off, q, e, s, idx),
                 Selector(e, idx, false), Selector(s, idx, true), idx != |e|)
         == if StepFails(c, off, q, e, s, idx) then None else Some(Expected(c, off, q, e, s, idx + 1))
  {
    if idx == |e| {
      LastStepCorrect(c, off, negOff, q, e, s);
    } else {
      StepCorrect(c, off, q, e, s, idx);
    }
  }

  method RunStep<P(==,!new)>(c: Group<P>, ghost off: P, negOff: P, q: P, acc: P, addQ: bool, addP2: bool, last: bool,
                             ghost e: seq<bool>, ghost s: seq<bool>, ghost idx: nat) returns (next: Option<P>)
    requires PrimeOrderGroup(c) && |e| == |s| && idx <= |e| && last == (idx == |e|)
    requires negOff == c.neg(Mul(c, Pow2(|e|), off))
    requires addQ == Selector(e, idx, false) && addP2 == Selector(s, idx, true)
    requires acc == Expected(c, off, q, e, s, idx)
    ensures next == if StepFails(c, off, q, e, s, idx) then None else Some(Expected(c, off, q, e, s, idx + 1))
  {
    AnyStepCorrect(c, off, negOff, q, e, s, idx);
    next := Step(c, q, if last then negOff else c.generator, acc, addQ, addP2, !last);
  }

  /** No step before `idx` meets a point it cannot handle. */
  ghost predicate NoFailure<P>(c: Group<P>, off: P, q: P, e: seq<bool>, s: seq<bool>, idx: nat)
    requires |e| == |s| && idx <= |e| + 1
  {
    forall i | 0 <= i < idx :: !StepFails(c, off, q, e, s, i)
  }

  /** One step of a run that has not failed so far. */
  method RunNext<P(==,!new)>(c: Group<P>, ghost off: P, negOff: P, q: P, acc: P, addQ: bool, addP2: bool, last: bool,
                             ghost e: seq<bool>, ghost s: seq<bool>, ghost idx: nat) returns (next: Option<P>)
    requires PrimeOrderGroup(c) && |e| == |s| && idx <= |e| && last == (idx == |e|)
    requires IsNegatedOffset(c, off, negOff, e)
    requires addQ == Selector(e, idx, false) && addP2 == Selector(s, idx, true)
    requires OnTrack(c, off, q, e, s, idx, acc)
    ensures next.Some? ==> OnTrack(c, off, q, e, s, idx + 1, next.value)
    ensures next.None? ==> StepFails(c, off, q, e, s, idx)
  {
    next := RunStep(c, off, negOff, q, acc, addQ, addP2, last, e, s, idx);
  }

  ghost predicate IsNegatedOffset<P>(c: Group<P>, off: P, negOff: P, e: seq<bool>) {
    negOff == c.neg(Mul(c, Pow2(|e|), off))
  }

  /** The accumulator is what it must be before step `idx`, and no earlier step failed. */
  ghost predicate OnTrack<P>(c: Group<P>, off: P, q: P, e: seq<bool>, s: seq<bool>, idx: nat, acc: P) {
    |e| == |s| && idx <= |e| + 1 && acc == Expected(c, off, q, e, s, idx) && NoFailure(c, off, q, e, s, idx)
  }

  /**
  `compute_gate_witness`: four steps, the same closure each time; the last step of the last gate
  is not doubled and adds the negated offset.
  */
  method ComputeGateWitness<P(==,!new)>(c: Group<P>, ghost off: P, negOff: P, q: P, accin: P, sp: seq<bool>,
                                        sg: seq<bool>,
                                        g: nat, ghost e: seq<bool>, ghost s: seq<bool>) returns (out: Option<P>)
    requires PrimeOrderGroup(c) && |e| == |s| && |e| + 1 == 320 && g < 80
    requires IsNegatedOffset(c, off, negOff, e)
    requires sp == Selectors(e, g, false) && sg == Selectors(s, g, true)
    requires OnTrack(c, off, q, e, s, 4 * g, accin)
    ensures out.Some? ==> OnTrack(c, off, q, e, s, 4 * g + 4, out.value)
    ensures out.None? ==> exists i | 0 <= i < 4 * g + 4 :: StepFails(c, off, q, e, s, i)
  {
    var acc := accin;
    for k := 0 to 4
      invariant OnTrack(c, off, q, e, s, 4 * g + k, acc)
    {
      var last := g == 79 && k == 3;
      var next := RunNext(c, off, negOff, q, acc, sp[k], sg[k], last, e, s, 4 * g + k);
      if next.None? {
        return None;
      }
      acc := next.value;
    }
    return Some(acc);
  }

  /** The loop over the 80 gates. */
  method RunGates<P(==,!new)>(c: Group<P>, off: P, negOff: P, q: P, e: seq<bool>, s: seq<bool>)
    returns (acc: Option<P>, wires: seq<seq<bool>>)
    requires PrimeOrderGroup(c) && |e| == |s| && |e| + 1 == 320
    requires IsNegatedOffset(c, off, negOff, e)
    ensures acc.Some? <==> NoFailure(c, off, q, e, s, |e| + 1)
    ensures acc.Some? ==> acc.value == Expected(c, off, q, e, s, |e| + 1)
    ensures acc.Some? ==> IsWires(wires, e)
  {
    wires := [];
    var accin := off;
    StartIsExpected(c, off, q, e, s);
    for g := 0 to 80
      invariant OnTrack(c, off, q, e, s, 4 * g, accin)
      invariant |wires| == g && forall j | 0 <= j < g :: wires[j] == Selectors(e, j, false)
    {
      var sp, sg := Selectors(e, g, false), Selectors(s, g, true);
      wires := wires + [sp];
      var w := ComputeGateWitness(c, off, negOff, q, accin, sp, sg, g, e, s);
      if w.None? {
        return None, wires;
      }
      accin := w.value;
    }
    acc := Some(accin);
  }

  lemma {:induction false} StartIsExpected<P(!new)>(c: Group<P>, off: P, q: P, e: seq<bool>, s: seq<bool>)
    requires PrimeOrderGroup(c) && |e| == |s|
    ensures Expected(c, off, q, e, s, 0) == off
  {
    assert e[|e|..] == [] && s[|s|..] == [];
    CombOfOne(c, off, q);
  }

  /** What a scalar's 319 bits are worth; a reduced scalar is worth its value. */
  ghost function Low(s: Limbs): (r: nat)
    ensures Value(s) < ORDER ==> r == Value(s)
  {
    LowOfReduced(s);
    Value(s) % Pow2(BITS)
  }

  lemma {:induction false} LowOfReduced(s: Limbs)
    ensures Value(s) < ORDER ==> Value(s) % Pow2(BITS) == Value(s)
  {
    OrderBits();
    if Value(s) < ORDER {
      SmallIsItsRemainder(Value(s), Pow2(BITS));
    }
  }

  /**
  `set_schnorr_witness`: from the offset point, 80 gates end at `s*G + e*Q`, unless a step meets
  the neutral point or a point with the x coordinate of `Q`; the last assertion then compares its
  encoding with `cr`. The selector wires are returned too.
  */
  method SetSchnorrWitness<P(==,!new), E(==)>(c: Group<P>, encode: P -> E, off: P, negOff: P, q: P, cr: E, e: Limbs,
                                              s: Limbs)
    returns (acc: Option<P>, ghost eBits: seq<bool>, ghost sBits: seq<bool>, wires: seq<seq<bool>>)
    requires PrimeOrderGroup(c)
    requires negOff == c.neg(Mul(c, Pow2(BITS), off))
    ensures |eBits| == |sBits| == BITS && LEBits(eBits) == Low(e) && LEBits(sBits) == Low(s)
    ensures forall i | 0 <= i < BITS :: eBits[i] == BitOf(Value(e), i)
    ensures acc.Some? <==>
              && NoFailure(c, off, q, eBits, sBits, BITS + 1)
              && encode(c.plus(Mul(c, Low(s), c.generator), Mul(c, Low(e), q))) == cr
    ensures acc.Some? ==> acc.value == c.plus(Mul(c, Low(s), c.generator), Mul(c, Low(e), q))
    ensures acc.Some? ==> IsWires(wires, eBits)
  {
    var eb := ToBitArr(e);
    var sb := ToBitArr(s);
    eBits, sBits := eb, sb;
    acc, wires := RunGates(c, off, negOff, q, eb, sb);
    if acc.Some? && encode(acc.value) != cr {
      acc := None;
    }
  }

  // --- reading the challenge back from the wires ---------------------------------------------------------------

  /** The wires the circuit reads as bits of `e`: row `79 - i/4`, column `3 - i%4`, for `i` from 1, and a zero. */
  function AllEBits(wires: seq<seq<bool>>): (r: seq<bool>)
    requires |wires| == 80 && forall g | 0 <= g < 80 :: |wires[g]| == 4
    ensures |r| == 320
  {
    seq(319, j requires 0 <= j < 319 => wires[79 - (j + 1) / 4][3 - (j + 1) % 4]) + [false]
  }

  /** The index formula reads back exactly the bits, least significant first. */
  lemma {:induction false} WiresReadBack(bits: seq<bool>, wires: seq<seq<bool>>)
    requires |bits| == BITS && IsWires(wires, bits)
    ensures AllEBits(wires) == bits + [false]
  {
    forall j | 0 <= j < 319 ensures AllEBits(wires)[j] == bits[j] {
      var g, k := 79 - (j + 1) / 4, 3 - (j + 1) % 4;
      assert 4 * g + k == 318 - j;
      assert wires[g][k] == bits[318 - (4 * g + k)];
    }
  }

  /** `lo + 2^32 * hi` of the 64 bits of limb `k`. */
  function Reconstructed(bits: seq<bool>, k: nat): nat
    requires |bits| == 320 && k < 5
  {
    LEBits(bits[64 * k..64 * k + 32]) + 0x1_0000_0000 * LEBits(bits[64 * k + 32..64 * k + 64])
  }

  lemma {:induction false} ReconstructedIsLimb(e: Limbs, bits: seq<bool>, k: nat)
    requires Value(e) < ORDER && k < 5
    requires |bits| == 320 && forall i | 0 <= i < 320 :: bits[i] == BitOf(Value(e), i)
    ensures Reconstructed(bits, k) == e[k]
  {
    var limb := bits[64 * k..64 * k + 64];
    forall i | 0 <= i < 64 ensures limb[i] == BitOf(e[k], i) {
      BitInLimb(e, k, i);
    }
    BitsGiveValue(e[k], limb);
    Pow2Limb(0);
    SmallIsItsRemainder(e[k], MachineWords.TWO64);
    assert limb == bits[64 * k..64 * k + 32] + bits[64 * k + 32..64 * k + 64];
    LEBitsSplit(bits[64 * k..64 * k + 32], bits[64 * k + 32..64 * k + 64]);
    Pow2Adds(32, 32);
    Pow2Of32();
  }

  /** The limb constraints of the circuit on the reconstructed limbs and the hash output. */
  ghost predicate LimbChecks(bits: seq<bool>, h: Limbs)
    requires |bits| == 320
  {
    && (forall k | 0 <= k < 4 :: Cong(Reconstructed(bits, k), h[k], MachineWords.P))
    && var d := Digit(h, 4) - Reconstructed(bits, 4);
       var low, high := d * (d - 0x4000_0000_0000_0000), (d - 0x8000_0000_0000_0000) * (d - 0xC000_0000_0000_0000);
       Cong(low * high, 0, MachineWords.P)
  }

  /**
  For the challenge of a hash output, the wires of the witness satisfy the circuit's limb checks,
  and the last limb differs from the hash by one of the four values the check allows.
  */
  lemma {:induction false} WitnessPassesLimbChecks(h: Limbs, wires: seq<seq<bool>>, eBits: seq<bool>)
    requires var e := ClearTopBits(h);
             |eBits| == BITS && forall i | 0 <= i < BITS :: eBits[i] == BitOf(Value(e), i)
    requires IsWires(wires, eBits)
    ensures forall k | 0 <= k < 4 :: Reconstructed(AllEBits(wires), k) == h[k]
    ensures Digit(h, 4) - Reconstructed(AllEBits(wires), 4)
              in {0, 0x4000_0000_0000_0000, 0x8000_0000_0000_0000, 0xC000_0000_0000_0000}
    ensures LimbChecks(AllEBits(wires), h)
  {
    var e := ClearTopBits(h);
    ClearedBelow(h);
    WiresReadBack(eBits, wires);
    LimbsRead(e, eBits, AllEBits(wires));
    FourRoots(Digit(h, 4), Digit(h, 4) - Reconstructed(AllEBits(wires), 4));
  }

  /** The 319 bits of a challenge and a closing zero give its limbs. */
  lemma {:induction false} LimbsRead(e: Limbs, eBits: seq<bool>, bits: seq<bool>)
    requires Value(e) < Pow2(318) < ORDER
    requires |eBits| == BITS && forall i | 0 <= i < BITS :: eBits[i] == BitOf(Value(e), i)
    requires bits == eBits + [false]
    ensures forall k | 0 <= k < 5 :: Reconstructed(bits, k) == e[k]
  {
    ShrIsQuotientTop(Value(e));
    forall k: nat | k < 5 ensures Reconstructed(bits, k) == e[k] {
      ReconstructedIsLimb(e, bits, k);
    }
  }

  lemma {:induction false} ClearedBelow(h: Limbs)
    ensures Value(ClearTopBits(h)) < Pow2(318) < ORDER
  {
    WorthBelowOrder(h);
  }

  lemma {:induction false} FourRoots(h4: int, d: int)
    requires 0 <= h4 < MachineWords.TWO64 && d == h4 - h4 % 0x4000_0000_0000_0000
    ensures d in {0, 0x4000_0000_0000_0000, 0x8000_0000_0000_0000, 0xC000_0000_0000_0000}
    ensures (d * (d - 0x4000_0000_0000_0000)) * ((d - 0x8000_0000_0000_0000) * (d - 0xC000_0000_0000_0000)) == 0
  {
    assert d == 0x4000_0000_0000_0000 * (h4 / 0x4000_0000_0000_0000);
  }

  lemma {:induction false} ShrIsQuotientTop(v: nat)
    requires v < Pow2(318)
    ensures !BitOf(v, 319)
  {
    assert Pow2(319) == 2 * Pow2(318);
    ShrIsQuotient(v, 319, 0, v);
  }

  // --- the whole gadget ---------------------------------------------------------------------------------------

  /** The gadget's own hash input, wire by wire: the five of `cr`, the five of `cq`, the message. */
  function HashInput(cr: Encoded, cq: Encoded, message: seq<felt>): (r: seq<felt>)
    ensures |r| == 10 + |message|
  {
    seq(10 + |message|, i requires 0 <= i < 10 + |message| =>
      if i < 5 then cr[i] else if i < 10 then cq[i - 5] else message[i - 10])
  }

  /** The gadget hashes the list the signer and the verifier hash. */
  lemma {:induction false} GadgetHashesTheSame(cr: Encoded, cq: Encoded, message: seq<felt>)
    ensures HashInput(cr, cq, message) == cr + cq + message
  {
  }

  /** The bits the gadget reads from the wires satisfy its limb constraints on the hash. */
  ghost predicate PassesGadget(wires: seq<seq<bool>>, h: Limbs) {
    |wires| == 80 && (forall g | 0 <= g < 80 :: |wires[g]| == 4) && LimbChecks(AllEBits(wires), h)
  }

  /**
  With the challenge of a signature and the encoding of its point `R`, the witness completes
  exactly when the verifier accepts the signature and no step fails. It then satisfies the gadget's
  limb constraints on the hash of the gadget's own input.
  */
  method SignatureWitness<P(==,!new)>(c: Group<P>, sch: Scheme<P>, off: P, negOff: P, q: P, m: seq<felt>, r: P,
                                      s: Limbs)
    returns (acc: Option<P>, ghost eBits: seq<bool>, ghost sBits: seq<bool>, wires: seq<seq<bool>>)
    requires PrimeOrderGroup(c)
    requires negOff == c.neg(Mul(c, Pow2(BITS), off))
    ensures |eBits| == |sBits| == BITS && LEBits(eBits) == ChallengeOf(sch, r, q, m) && LEBits(sBits) == Low(s)
    ensures acc.Some? <==> NoFailure(c, off, q, eBits, sBits, BITS + 1) && Accepts(c, sch, q, m, r, Low(s))
    ensures acc.Some? ==> sch.encode(acc.value) == sch.encode(r) && Accepts(c, sch, q, m, r, Low(s))
    ensures acc.Some? ==> PassesGadget(wires, sch.hash(HashInput(sch.encode(r), sch.encode(q), m)))
  {
    var e := SchnorrChallenge(sch, sch.encode(r), sch.encode(q), m);
    acc, eBits, sBits, wires := SetSchnorrWitness(c, sch.encode, off, negOff, q, sch.encode(r), e, s);
    AcceptsByWorth(c, sch, q, m, r, Low(s));
    GadgetHashesTheSame(sch.encode(r), sch.encode(q), m);
    if acc.Some? {
      WitnessPassesLimbChecks(sch.hash(sch.encode(r) + sch.encode(q) + m), wires, eBits);
    }
  }
}
