/**
The curve group behind Schnorr signatures: an abelian group whose non-neutral elements all have
the order of `Scalars`, given by its operations. The point formulas themselves stay abstract.
`Doubled` is undefined at the neutral point, as the tangent formula divides by zero there.
*/
module Curve {
  import opened Arith
  import opened Modular
  import opened Scalars
  import opened Bits
  import opened ScalarCodec
  import MachineWords

  type felt = MachineWords.felt

  /** The operations on points; `sameX` compares x coordinates. */
  datatype Group<!P> = Group(neutral: P, plus: (P, P) -> P, neg: P -> P, generator: P, sameX: (P, P) -> bool)

  ghost predicate LawsAt<P>(c: Group<P>, x: P, y: P, z: P) {
    && c.plus(c.plus(x, y), z) == c.plus(x, c.plus(y, z))
    && c.plus(x, y) == c.plus(y, x)
    && c.plus(x, c.neutral) == x
    && c.plus(x, c.neg(x)) == c.neutral
  }

  ghost predicate OrderAt<P>(c: Group<P>, x: P, k: nat) {
    x != c.neutral ==> (Mul(c, k, x) == c.neutral <==> k % ORDER == 0)
  }

  ghost predicate PrimeOrderGroup<P(!new)>(c: Group<P>) {
    && (forall x, y, z :: LawsAt(c, x, y, z))
    && (forall x, k: nat :: OrderAt(c, x, k))
    && c.generator != c.neutral
  }

  /** The `k`-fold sum of a point. */
  function Mul<P>(c: Group<P>, k: nat, x: P): P {
    if k == 0 then c.neutral else c.plus(Mul(c, k - 1, x), x)
  }

  /** `double` */
  function Doubled<P(==)>(c: Group<P>, x: P): P
    requires x != c.neutral
  {
    c.plus(x, x)
  }

  lemma {:induction false} MulAdd<P(!new)>(c: Group<P>, a: nat, b: nat, x: P)
    requires PrimeOrderGroup(c)
    ensures Mul(c, a + b, x) == c.plus(Mul(c, a, x), Mul(c, b, x))
    decreases b
  {
    if b == 0 {
      assert LawsAt(c, Mul(c, a, x), x, x);
    } else {
      MulAdd(c, a, b - 1, x);
      assert a + b - 1 == a + (b - 1);
      assert LawsAt(c, Mul(c, a, x), Mul(c, b - 1, x), x);
    }
  }

  lemma {:induction false} MulOne<P(!new)>(c: Group<P>, x: P)
    requires PrimeOrderGroup(c)
    ensures Mul(c, 1, x) == x
  {
    assert Mul(c, 1, x) == c.plus(Mul(c, 0, x), x);
    assert LawsAt(c, c.neutral, x, x) && LawsAt(c, x, c.neutral, x);
  }

  lemma {:induction false} MulMul<P(!new)>(c: Group<P>, a: nat, b: nat, x: P)
    requires PrimeOrderGroup(c)
    ensures Mul(c, a * b, x) == Mul(c, a, Mul(c, b, x))
  {
    if a > 0 {
      MulMul(c, a - 1, b, x);
      assert a * b == (a - 1) * b + b;
      MulAdd(c, (a - 1) * b, b, x);
    } else {
      assert a * b == 0;
    }
  }

  lemma {:induction false} MulNeutral<P(!new)>(c: Group<P>, k: nat)
    requires PrimeOrderGroup(c)
    ensures Mul(c, k, c.neutral) == c.neutral
  {
    if k > 0 {
      MulNeutral(c, k - 1);
      assert LawsAt(c, c.neutral, c.neutral, c.neutral);
    }
  }

  /** Multiples that are congruent modulo the order are equal. */
  lemma {:induction false} MulCong<P(!new)>(c: Group<P>, a: nat, b: nat, x: P)
    requires PrimeOrderGroup(c) && Cong(a, b, ORDER)
    ensures Mul(c, a, x) == Mul(c, b, x)
  {
    MulReduces(c, a, x);
    MulReduces(c, b, x);
  }

  lemma {:induction false} MulReduces<P(!new)>(c: Group<P>, a: nat, x: P)
    requires PrimeOrderGroup(c)
    ensures Mul(c, a, x) == Mul(c, a % ORDER, x)
  {
    if x == c.neutral {
      MulNeutral(c, a);
      MulNeutral(c, a % ORDER);
    } else {
      var q, r := a / ORDER, a % ORDER;
      assert a == r + q * ORDER;
      MulAdd(c, r, q * ORDER, x);
      CongByMultiple(q * ORDER, 0, q, ORDER);
      assert OrderAt(c, x, q * ORDER);
      assert LawsAt(c, Mul(c, r, x), x, x);
    }
  }

  /** Equal multiples of a non-neutral point have congruent factors. */
  lemma {:induction false} MulInjective<P(!new)>(c: Group<P>, a: nat, b: nat, x: P)
    requires PrimeOrderGroup(c) && x != c.neutral && a <= b
    requires Mul(c, a, x) == Mul(c, b, x)
    ensures Cong(b, a, ORDER)
  {
    var d := b - a;
    MulAdd(c, d, a, x);
    var y, z := Mul(c, d, x), Mul(c, a, x);
    assert LawsAt(c, y, z, c.neg(z)) && LawsAt(c, z, y, y) && LawsAt(c, y, y, y);
    assert y == c.neutral;
    assert OrderAt(c, x, d);
    CongAdd(d, 0, a, a, ORDER);
    SmallIsItsRemainder(0, ORDER);
  }

  // --- scalar multiplication -----------------------------------------------------------------------------

  /** A nonzero factor below the order never gives the neutral point. */
  lemma {:induction false} NeverNeutral<P(!new)>(c: Group<P>, x: P, k: nat)
    requires PrimeOrderGroup(c) && x != c.neutral && 0 < k < ORDER
    ensures Mul(c, k, x) != c.neutral
  {
    assert OrderAt(c, x, k);
    SmallIsItsRemainder(k, ORDER);
  }

  /** The position above the highest set bit. */
  method TopBit(bits: seq<bool>) returns (top: nat)
    ensures top <= |bits| && LEBits(bits) == LEBits(bits[..top])
    ensures top > 0 ==> bits[top - 1]
    ensures LEBits(bits) == 0 <==> top == 0
  {
    top := |bits|;
    assert bits[..top] == bits;
    while top > 0 && !bits[top - 1]
      invariant top <= |bits| && LEBits(bits) == LEBits(bits[..top])
    {
      assert bits[..top] == bits[..top - 1] + [false];
      LEBitsSplit(bits[..top - 1], [false]);
      assert LEBits([false]) == 0;
      top := top - 1;
    }
    if top > 0 {
      assert bits[..top] == bits[..top - 1] + [true];
      LEBitsSplit(bits[..top - 1], [true]);
      assert LEBits([true]) == 1;
    }
  }

  /**
  `scalar_mul`: double-and-add from the highest set bit. Only strict prefixes of the scalar are
  doubled; they have at most 318 bits, so they are below the order and never give the neutral
  point. This holds for every value of the 319 bits, reduced or not.
  */
  method ScalarMul<P(==,!new)>(c: Group<P>, x: P, s: Limbs) returns (r: P)
    requires PrimeOrderGroup(c)
    ensures r == Mul(c, Value(s) % Pow2(BITS), x)
    ensures Value(s) < ORDER ==> r == Mul(c, Value(s), x)
  {
    OrderBits();
    if Value(s) < ORDER {
      SmallIsItsRemainder(Value(s), Pow2(BITS));
    }
    if x == c.neutral {
      MulNeutral(c, Value(s) % Pow2(BITS));
      return c.neutral;
    }
    var bits := ToBitArr(s);
    var top := TopBit(bits);
    if top == 0 {
      return c.neutral;
    }
    r := x;
    MulOne(c, x);
    assert bits[top - 1..top] == [true] && LEBits([true]) == 1;
    var i := top - 1;
    while i > 0
      invariant 0 <= i <= top - 1
      invariant r == Mul(c, LEBits(bits[i..top]), x) && LEBits(bits[i..top]) > 0
    {
      i := i - 1;
      r := DoubleAndAdd(c, x, r, bits, i, top);
    }
    assert bits[0..top] == bits[..top];
  }

  method DoubleAndAdd<P(==,!new)>(c: Group<P>, x: P, acc: P, bits: seq<bool>, i: nat, top: nat) returns (r: P)
    requires PrimeOrderGroup(c) && x != c.neutral
    requires i + 1 < top <= |bits| == BITS
    requires acc == Mul(c, LEBits(bits[i + 1..top]), x) && LEBits(bits[i + 1..top]) > 0
    ensures r == Mul(c, LEBits(bits[i..top]), x) && LEBits(bits[i..top]) > 0
  {
    ghost var k := LEBits(bits[i + 1..top]);
    PrefixIsSmall(bits, i, top);
    NeverNeutral(c, x, k);
    r := Doubled(c, acc);
    if bits[i] {
      r := c.plus(r, x);
    }
    TwiceAndOne(c, x, k);
    assert bits[i..top][1..] == bits[i + 1..top];
  }

  /** A strict prefix of a scalar has at most 318 bits, so it is below the order. */
  lemma {:induction false} PrefixIsSmall(bits: seq<bool>, i: nat, top: nat)
    requires i + 1 < top <= |bits| == BITS
    ensures LEBits(bits[i + 1..top]) < ORDER
  {
    LEBitsBelow(bits[i + 1..top]);
    Pow2Grows(top - i - 1, 318);
    OrderBits();
  }

  lemma {:induction false} TwiceAndOne<P(!new)>(c: Group<P>, x: P, k: nat)
    requires PrimeOrderGroup(c)
    ensures c.plus(Mul(c, k, x), Mul(c, k, x)) == Mul(c, 2 * k, x)
    ensures c.plus(Mul(c, 2 * k, x), x) == Mul(c, 2 * k + 1, x)
  {
    MulAdd(c, k, k, x);
    MulAdd(c, 2 * k, 1, x);
    MulOne(c, x);
  }

  // --- Schnorr ---------------------------------------------------------------------------------------------

  /** A compressed point: five field elements. */
  type Encoded = s: seq<felt> | |s| == 5 witness [0, 0, 0, 0, 0]

  /** Point encoding and the Poseidon hash of a list of field elements to five of them. */
  datatype Scheme<!P> = Scheme(encode: P -> Encoded, hash: seq<felt> -> Limbs)

  lemma {:induction false} WorthBelowOrder(h: Limbs)
    ensures Value(ClearTopBits(h)) == Worth(h) < Pow2(318) < ORDER
  {
    ClearedIsWorth(h);
    OrderBits();
    Pow2Limb(5);
    BPowIs();
    assert Pow2(320) == 2 * Pow2(319) && Pow2(319) == 2 * Pow2(318);
  }

  /** The challenge: the hash of the encoding of `R`, then that of `Q`, then the message. */
  ghost function ChallengeOf<P>(sch: Scheme<P>, r: P, q: P, m: seq<felt>): nat {
    Worth(sch.hash(sch.encode(r) + sch.encode(q) + m))
  }

  /** `schnorr_challenge` */
  method SchnorrChallenge<P>(sch: Scheme<P>, cr: Encoded, cq: Encoded, m: seq<felt>) returns (e: Limbs)
    ensures Value(e) == Worth(sch.hash(cr + cq + m)) < Pow2(318) < ORDER
    ensures e == ClearTopBits(sch.hash(cr + cq + m))
  {
    var h: seq<felt> := cr;
    h := h + cq;
    h := h + m;
    e := FromHash(sch.hash(h));
    WorthBelowOrder(sch.hash(h));
  }

  /**
  What the verifier compares: the encoding of `s*G + e*Q` with that of `R`, where `e` is the hash of the
  encoding of `R`, the encoding of `Q` and the message, limb 4 taken modulo 2^62.
  */
  ghost predicate Accepts<P>(c: Group<P>, sch: Scheme<P>, q: P, m: seq<felt>, r: P, s: nat) {
    var h := sch.hash(sch.encode(r) + sch.encode(q) + m);
    var e := h[0] as int + BPow(1) * h[1] as int + BPow(2) * h[2] as int + BPow(3) * h[3] as int
             + BPow(4) * (h[4] as int % 0x4000_0000_0000_0000);
    sch.encode(c.plus(Mul(c, s, c.generator), Mul(c, e, q))) == sch.encode(r)
  }

  lemma {:induction false} AcceptsByWorth<P>(c: Group<P>, sch: Scheme<P>, q: P, m: seq<felt>, r: P, s: nat)
    ensures Accepts(c, sch, q, m, r, s) <==>
        sch.encode(c.plus(Mul(c, s, c.generator), Mul(c, ChallengeOf(sch, r, q, m), q))) == sch.encode(r)
  {
    BPowIs();
  }

  /** Two scalar multiples by reduced scalars. */
  method TwoMultiples<P(==,!new)>(c: Group<P>, x: P, k: Limbs, y: P, d: Limbs) returns (kx: P, dy: P)
    requires PrimeOrderGroup(c) && Value(k) < ORDER && Value(d) < ORDER
    ensures kx == Mul(c, Value(k), x) && dy == Mul(c, Value(d), y)
  {
    kx := ScalarMul(c, x, k);
    dy := ScalarMul(c, y, d);
  }

  /** `schnorr_sign`: `R = k*G`, `s = k + d*(-e)`. */
  method Sign<P(==,!new)>(c: Group<P>, sch: Scheme<P>, d: Limbs, m: seq<felt>, k: Limbs) returns (r: P, s: Limbs)
    requires PrimeOrderGroup(c) && Value(d) < ORDER && Value(k) < ORDER
    ensures r == Mul(c, Value(k), c.generator)
    ensures Accepts(c, sch, Mul(c, Value(d), c.generator), m, r, Value(s))
    ensures Value(s) < ORDER
  {
    var q;
    r, q := TwoMultiples(c, c.generator, k, c.generator, d);
    s := Answer(sch, d, m, k, r, q);
    ResponseVerifies(c, sch, Value(d), m, Value(k), Value(s), r, q);
  }

  lemma {:induction false} ResponseVerifies<P(!new)>(c: Group<P>, sch: Scheme<P>, d: nat, m: seq<felt>, k: nat,
                                                           s: nat, r: P, q: P)
    requires PrimeOrderGroup(c)
    requires r == Mul(c, k, c.generator) && q == Mul(c, d, c.generator)
    requires Cong(s, k - d * ChallengeOf(sch, r, q, m), ORDER)
    ensures Accepts(c, sch, q, m, r, s)
  {
    SignatureBalances(c, s, ChallengeOf(sch, r, q, m), d, k);
    AcceptsByWorth(c, sch, q, m, r, s);
  }

  /** The response to the challenge of `R`, the public key and the message. */
  method Answer<P(!new)>(sch: Scheme<P>, d: Limbs, m: seq<felt>, k: Limbs, r: P, q: P) returns (s: Limbs)
    requires Value(d) < ORDER && Value(k) < ORDER
    ensures Value(s) < ORDER && Cong(Value(s), Value(k) - Value(d) * ChallengeOf(sch, r, q, m), ORDER)
  {
    var e := SchnorrChallenge(sch, sch.encode(r), sch.encode(q), m);
    s := Respond(d, k, e);
    ReducedResponse(Value(s), Value(k), Value(d), Value(e));
  }

  lemma {:induction false} ReducedResponse(s: int, k: int, d: int, e: int)
    requires s == (k - d * e) % ORDER
    ensures 0 <= s < ORDER && Cong(s, k - d * e, ORDER)
  {
    CongMod(k - d * e, ORDER);
  }

  /** The response `k + d * -e`, by the scalar operations. */
  method Respond(d: Limbs, k: Limbs, e: Limbs) returns (s: Limbs)
    requires Value(d) < ORDER && Value(k) < ORDER && Value(e) < ORDER
    ensures Value(s) == (Value(k) - Value(d) * Value(e)) % ORDER
  {
    var ne := NegMod(e);
    var dne := MulMod(d, ne);
    s := AddMod(k, dne);
    ResponseEquation(Value(k), Value(d), Value(e), Value(ne), Value(dne), Value(s));
  }

  lemma {:induction false} ResponseEquation(k: nat, d: nat, e: nat, ne: nat, dne: nat, s: nat)
    requires ne == (0 - e) % ORDER && dne == (d * ne) % ORDER && s == (k + dne) % ORDER
    ensures s == (k - d * e) % ORDER
  {
    CongMod(0 - e, ORDER);
    CongMul(ne, 0 - e, d, ORDER);
    CongMod(d * ne, ORDER);
    assert d * (0 - e) == -(d * e);
    CongAdd(k, k, dne, -(d * e), ORDER);
    CongMod(k + dne, ORDER);
    SmallIsItsRemainder(s, ORDER);
  }

  /** `s*G + e*(d*G)` is `k*G` exactly when `s` answers the challenge. */
  lemma {:induction false} SignatureBalances<P(!new)>(c: Group<P>, s: nat, e: nat, d: nat, k: nat)
    requires PrimeOrderGroup(c)
    ensures c.plus(Mul(c, s, c.generator), Mul(c, e, Mul(c, d, c.generator))) == Mul(c, k, c.generator)
       <==> Cong(s, k - d * e, ORDER)
  {
    var g, w := c.generator, s + e * d;
    MulMul(c, e, d, g);
    MulAdd(c, s, e * d, g);
    assert e * d == d * e;
    if Cong(s, k - d * e, ORDER) {
      CongAdd(s, k - d * e, e * d, e * d, ORDER);
      MulCong(c, w, k, g);
    } else if Mul(c, w, g) == Mul(c, k, g) {
      if w <= k {
        MulInjective(c, w, k, g);
      } else {
        MulInjective(c, k, w, g);
      }
      CongAdd(w, k, e * d, e * d, ORDER);
    }
  }

  /** `schnorr_verify`: a response is taken by its 319 low bits, reduced or not. */
  method VerifySignature<P(==,!new)>(c: Group<P>, sch: Scheme<P>, q: P, m: seq<felt>, r: P, s: Limbs)
    returns (ok: bool)
    requires PrimeOrderGroup(c)
    ensures ok <==> Accepts(c, sch, q, m, r, Value(s) % Pow2(BITS))
    ensures Value(s) < ORDER ==> (ok <==> Accepts(c, sch, q, m, r, Value(s)))
  {
    var sg := ScalarMul(c, c.generator, s);
    var eq := ChallengeTimesKey(c, sch, q, m, r);
    AcceptsByWorth(c, sch, q, m, r, Value(s) % Pow2(BITS));
    ok := sch.encode(c.plus(sg, eq)) == sch.encode(r);
    if Value(s) < ORDER {
      OrderBits();
      SmallIsItsRemainder(Value(s), Pow2(BITS));
    }
  }

  method ChallengeTimesKey<P(==,!new)>(c: Group<P>, sch: Scheme<P>, q: P, m: seq<felt>, r: P) returns (eq: P)
    requires PrimeOrderGroup(c)
    ensures eq == Mul(c, ChallengeOf(sch, r, q, m), q)
  {
    var e := SchnorrChallenge(sch, sch.encode(r), sch.encode(q), m);
    eq := ScalarMul(c, q, e);
  }

  ghost predicate InjectiveEncoding<P(!new)>(sch: Scheme<P>) {
    forall x, y :: sch.encode(x) == sch.encode(y) ==> x == y
  }

  /**
  With an injective encoding, for a commitment `k*G` and a key `d*G`, the verifier accepts exactly
  the response the signer computes.
  */
  lemma {:induction false} OnlyTheResponseVerifies<P(!new)>(c: Group<P>, sch: Scheme<P>, d: nat, m: seq<felt>,
                                                                  k: nat, s: nat)
    requires PrimeOrderGroup(c) && InjectiveEncoding(sch)
    ensures var r, q := Mul(c, k, c.generator), Mul(c, d, c.generator);
            Accepts(c, sch, q, m, r, s) <==> Cong(s, k - d * ChallengeOf(sch, r, q, m), ORDER)
  {
    var r, q := Mul(c, k, c.generator), Mul(c, d, c.generator);
    var e := ChallengeOf(sch, r, q, m);
    SignatureBalances(c, s, e, d, k);
    AcceptsByWorth(c, sch, q, m, r, s);
  }
}
