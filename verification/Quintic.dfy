/**
Square roots and the Legendre symbol in the quintic extension of the Goldilocks field, by exponent
chains of squarings and Frobenius maps. The two fields are given by their multiplications; what the
field library provides (Frobenius is the p-th power, the p^5-th power is the identity, fixed points
of Frobenius are base field elements, a base field square root) is stated in `IsExtension`.
*/
module Quintic {
  import opened Arith
  import opened MachineWords

  datatype Monoid<!E> = Monoid(one: E, mul: (E, E) -> E)

  datatype Extension<!E, !F> = Extension(
    ext: Monoid<E>,
    base: Monoid<F>,
    zero: E,
    inverse: E -> E,
    frobenius: E -> E,
    embed: F -> E,
    coeff0: E -> F,
    baseSqrt: F -> Option<F>)

  ghost predicate MonoidAt<E>(m: Monoid<E>, x: E, y: E, z: E) {
    && m.mul(m.mul(x, y), z) == m.mul(x, m.mul(y, z))
    && m.mul(x, y) == m.mul(y, x)
    && m.mul(x, m.one) == x
  }

  ghost predicate IsMonoid<E(!new)>(m: Monoid<E>) {
    forall x, y, z :: MonoidAt(m, x, y, z)
  }

  ghost predicate FieldAt<E, F>(k: Extension<E, F>, x: E) {
    && (x != k.zero ==> k.ext.mul(x, k.inverse(x)) == k.ext.one)
    && k.ext.mul(x, k.zero) == k.zero
    && k.frobenius(x) == Pow(k.ext, x, P)
    && Pow(k.ext, x, P * P * P * P * P) == x
    && (Pow(k.ext, x, P) == x ==> k.embed(k.coeff0(x)) == x)
  }

  ghost predicate BaseAt<E, F>(k: Extension<E, F>, a: F, b: F) {
    && k.coeff0(k.embed(a)) == a
    && k.embed(k.base.mul(a, b)) == k.ext.mul(k.embed(a), k.embed(b))
    && (k.base.mul(b, b) == a ==> k.baseSqrt(a).Some?)
    && (k.baseSqrt(a).Some? ==> k.base.mul(k.baseSqrt(a).value, k.baseSqrt(a).value) == a)
  }

  ghost predicate IsExtension<E(!new), F(!new)>(k: Extension<E, F>) {
    && IsMonoid(k.ext) && IsMonoid(k.base)
    && k.ext.one != k.zero
    && (forall x :: FieldAt(k, x))
    && (forall a, b :: BaseAt(k, a, b))
  }

  // --- powers -----------------------------------------------------------------------------------------

  function Pow<E>(m: Monoid<E>, x: E, n: nat): E {
    if n == 0 then m.one else m.mul(Pow(m, x, n - 1), x)
  }

  lemma {:induction false} PowOne<E(!new)>(m: Monoid<E>, x: E)
    requires IsMonoid(m)
    ensures Pow(m, x, 1) == x
  {
    assert Pow(m, x, 1) == m.mul(Pow(m, x, 0), x);
    assert MonoidAt(m, x, m.one, x);
  }

  lemma {:induction false} PowAdd<E(!new)>(m: Monoid<E>, x: E, a: nat, b: nat)
    requires IsMonoid(m)
    ensures m.mul(Pow(m, x, a), Pow(m, x, b)) == Pow(m, x, a + b)
    decreases b
  {
    if b == 0 {
      assert MonoidAt(m, Pow(m, x, a), x, x);
    } else {
      PowAdd(m, x, a, b - 1);
      assert a + b - 1 == a + (b - 1);
      assert MonoidAt(m, Pow(m, x, a), Pow(m, x, b - 1), x);
    }
  }

  lemma {:induction false} PowPow<E(!new)>(m: Monoid<E>, x: E, a: nat, b: nat)
    requires IsMonoid(m)
    ensures Pow(m, Pow(m, x, a), b) == Pow(m, x, a * b)
    decreases b
  {
    if b == 0 {
      assert a * b == 0;
    } else {
      PowPow(m, x, a, b - 1);
      assert a * (b - 1) + a == a * b;
      PowAdd(m, x, a * (b - 1), a);
    }
  }

  lemma {:induction false} PowOfProduct<E(!new)>(m: Monoid<E>, x: E, y: E, n: nat)
    requires IsMonoid(m)
    ensures Pow(m, m.mul(x, y), n) == m.mul(Pow(m, x, n), Pow(m, y, n))
  {
    if n == 0 {
      assert MonoidAt(m, m.one, m.one, m.one);
    } else {
      PowOfProduct(m, x, y, n - 1);
      Regroup(m, Pow(m, x, n - 1), Pow(m, y, n - 1), x, y);
    }
  }

  lemma {:induction false} Regroup<E(!new)>(m: Monoid<E>, a: E, b: E, x: E, y: E)
    requires IsMonoid(m)
    ensures m.mul(m.mul(a, b), m.mul(x, y)) == m.mul(m.mul(a, x), m.mul(b, y))
  {
    assert MonoidAt(m, a, b, m.mul(x, y));
    assert MonoidAt(m, b, x, y) && MonoidAt(m, x, b, y);
    assert MonoidAt(m, a, x, m.mul(b, y));
  }

  /** `repeated_square`: squares once even when asked for zero squarings. */
  method RepeatedSquare<E(!new)>(m: Monoid<E>, v: E, n: nat) returns (x: E)
    requires IsMonoid(m)
    ensures x == Pow(m, v, Pow2(if n == 0 then 1 else n))
  {
    x := m.mul(v, v);
    PowOne(m, v);
    PowAdd(m, v, 1, 1);
    assert Pow2(1) == 2;
    var i := 1;
    while i < n
      invariant 1 <= i && (i == 1 || i <= n)
      invariant x == Pow(m, v, Pow2(i))
    {
      x := m.mul(x, x);
      PowAdd(m, v, Pow2(i), Pow2(i));
      i := i + 1;
    }
  }

  /** One link of a chain: `t * t^(2^n)`. */
  method Link<E(!new)>(m: Monoid<E>, t: E, n: nat, ghost x: E, ghost k: nat) returns (u: E)
    requires IsMonoid(m) && n > 0 && t == Pow(m, x, k)
    ensures u == Pow(m, x, k + k * Pow2(n))
  {
    var y := RepeatedSquare(m, t, n);
    PowPow(m, x, k, Pow2(n));
    u := m.mul(t, y);
    PowAdd(m, x, k, k * Pow2(n));
  }

  lemma {:induction false} ChainLengths()
    ensures Pow2(2) == 4 && Pow2(4) == 16 && Pow2(8) == 256 && Pow2(16) == 0x1_0000 && Pow2(31) == 0x8000_0000
  {
    assert Pow2(4) == 16;
    Pow2Of32();
    Pow2Adds(8, 8);
    assert Pow2(32) == 2 * Pow2(31);
  }

  /** The common part of both chains: `x^((2^32 - 1) * 2^31)`, which is `x^((p - 1)/2)`. */
  method HalfPower<E(!new)>(m: Monoid<E>, x: E) returns (t: E)
    requires IsMonoid(m)
    ensures t == Pow(m, x, (P - 1) / 2)
  {
    t := AllOnes(m, x);
    ChainLengths();
    PowPow(m, x, 0xFFFF_FFFF, 0x8000_0000);
    t := RepeatedSquare(m, t, 31);
  }

  /** `x^(2^32 - 1)` */
  method AllOnes<E(!new)>(m: Monoid<E>, x: E) returns (t: E)
    requires IsMonoid(m)
    ensures t == Pow(m, x, 0xFFFF_FFFF)
  {
    ChainLengths();
    PowOne(m, x);
    assert Pow2(1) == 2;
    t := Link(m, x, 1, x, 1);
    t := Link(m, t, 2, x, 3);
    t := Link(m, t, 4, x, 15);
    t := Link(m, t, 8, x, 255);
    t := Link(m, t, 16, x, 65535);
  }

  // --- the norm ----------------------------------------------------------------------------------------------

  /** `1 + p + p^2 + p^3 + p^4` */
  const NORM: nat := 1 + P + P * P + P * P * P + P * P * P * P

  lemma {:induction false} PowOfZero<E(!new), F(!new)>(k: Extension<E, F>, n: nat)
    requires IsExtension(k) && n > 0
    ensures Pow(k.ext, k.zero, n) == k.zero
  {
    assert FieldAt(k, Pow(k.ext, k.zero, n - 1));
  }

  lemma {:induction false} NonzeroProduct<E(!new), F(!new)>(k: Extension<E, F>, x: E, y: E)
    requires IsExtension(k) && x != k.zero && y != k.zero
    ensures k.ext.mul(x, y) != k.zero
  {
    var m, i := k.ext, k.inverse(x);
    assert FieldAt(k, x) && FieldAt(k, i);
    assert MonoidAt(m, i, x, y) && MonoidAt(m, x, i, y) && MonoidAt(m, y, m.one, y) && MonoidAt(m, m.one, y, y);
  }

  lemma {:induction false} NonzeroPower<E(!new), F(!new)>(k: Extension<E, F>, x: E, n: nat)
    requires IsExtension(k) && x != k.zero
    ensures Pow(k.ext, x, n) != k.zero
  {
    if n > 0 {
      NonzeroPower(k, x, n - 1);
      NonzeroProduct(k, Pow(k.ext, x, n - 1), x);
    }
  }

  lemma {:induction false} CancelFactor<E(!new), F(!new)>(k: Extension<E, F>, x: E, y: E)
    requires IsExtension(k) && x != k.zero && k.ext.mul(y, x) == x
    ensures y == k.ext.one
  {
    var m, i := k.ext, k.inverse(x);
    assert FieldAt(k, x);
    assert MonoidAt(m, y, x, i) && MonoidAt(m, y, y, y);
  }

  /** The norm of any element is a base field element. */
  lemma {:induction false} NormIsBase<E(!new), F(!new)>(k: Extension<E, F>, x: E)
    requires IsExtension(k)
    ensures k.embed(k.coeff0(Pow(k.ext, x, NORM))) == Pow(k.ext, x, NORM)
  {
    var m, y := k.ext, Pow(k.ext, x, NORM);
    assert FieldAt(k, y);
    PowPow(m, x, NORM, P);
    if x == k.zero {
      PowOfZero(k, NORM);
      PowOfZero(k, P);
    } else {
      var last := P * P * P * P * P - 1;
      assert FieldAt(k, x);
      PowAdd(m, x, last, 1);
      PowOne(m, x);
      CancelFactor(k, x, Pow(m, x, last));
      assert NORM * P == last + NORM;
      PowAdd(m, x, last, NORM);
      assert MonoidAt(m, y, m.one, y) && MonoidAt(m, m.one, y, y);
    }
  }

  // --- the square root ------------------------------------------------------------------------------------------

  lemma {:induction false} FrobeniusPower<E(!new), F(!new)>(k: Extension<E, F>, x: E, n: nat)
    requires IsExtension(k)
    ensures k.frobenius(Pow(k.ext, x, n)) == Pow(k.ext, x, n * P)
  {
    assert FieldAt(k, Pow(k.ext, x, n));
    PowPow(k.ext, x, n, P);
  }

  /** `x^((r - 1)/2)` for the norm exponent `r`: the half power times x, two Frobenius maps, one more. */
  method HalfNormPower<E(!new), F(!new)>(k: Extension<E, F>, x: E) returns (t: E)
    requires IsExtension(k)
    ensures t == Pow(k.ext, x, (NORM - 1) / 2)
  {
    var m := k.ext;
    t := HalfPower(m, x);
    t := m.mul(t, x);
    PowOne(m, x);
    PowAdd(m, x, (P - 1) / 2, 1);
    t := FrobeniusSum(k, t, x, (P + 1) / 2);
    assert ((P + 1) / 2 + (((P + 1) / 2) * P) * P) * P == (NORM - 1) / 2;
  }

  /** From `x^e` to `x^((e + e*p^2) * p)`. */
  method FrobeniusSum<E(!new), F(!new)>(k: Extension<E, F>, t: E, ghost x: E, ghost e: nat) returns (u: E)
    requires IsExtension(k) && t == Pow(k.ext, x, e)
    ensures u == Pow(k.ext, x, (e + (e * P) * P) * P)
  {
    var y := k.frobenius(k.frobenius(t));
    FrobeniusPower(k, x, e);
    FrobeniusPower(k, x, e * P);
    u := k.ext.mul(t, y);
    PowAdd(k.ext, x, e, (e * P) * P);
    FrobeniusPower(k, x, e + (e * P) * P);
    u := k.frobenius(u);
  }

  lemma {:induction false} RootSquares<E(!new), F(!new)>(k: Extension<E, F>, x: E, t: E, y: E, a: F, s: F)
    requires IsExtension(k) && t != k.zero
    requires y == k.ext.mul(x, k.ext.mul(t, t)) && y == k.embed(a) && k.base.mul(s, s) == a
    ensures var root := k.ext.mul(k.inverse(t), k.embed(s)); k.ext.mul(root, root) == x
  {
    var m, i, e := k.ext, k.inverse(t), k.embed(s);
    assert BaseAt(k, s, s);
    Regroup(m, i, e, i, e);
    assert m.mul(e, e) == y;
    Regroup(m, i, i, t, t);
    assert FieldAt(k, t);
    assert MonoidAt(m, t, i, i) && MonoidAt(m, m.one, m.one, m.one);
    var ii, tt := m.mul(i, i), m.mul(t, t);
    assert MonoidAt(m, ii, x, tt) && MonoidAt(m, x, tt, tt) && MonoidAt(m, ii, tt, x) && MonoidAt(m, x, m.one, x);
    assert MonoidAt(m, m.one, x, x);
    assert m.mul(ii, m.mul(tt, x)) == m.mul(m.mul(ii, tt), x);
  }

  /** `sqrt`: a square root exactly when there is one; a zero argument is not handled. */
  method Sqrt<E(==,!new), F(!new)>(k: Extension<E, F>, x: E) returns (r: Option<E>)
    requires IsExtension(k) && x != k.zero
    ensures r.Some? ==> k.ext.mul(r.value, r.value) == x
    ensures r.Some? <==> exists w :: k.ext.mul(w, w) == x
    ensures r.Some? <==> k.baseSqrt(k.coeff0(Pow(k.ext, x, NORM))).Some?
  {
    var m := k.ext;
    var t := HalfNormPower(k, x);
    var y := m.mul(t, t);
    y := m.mul(x, y);
    NormFromHalf(k, x, t);
    NormIsBase(k, x);
    NonzeroPower(k, x, (NORM - 1) / 2);
    var a := k.coeff0(y);
    match k.baseSqrt(a) {
      case None =>
        r := None;
        forall w | m.mul(w, w) == x ensures k.baseSqrt(a).Some? {
          SquaresHaveSquareNorm(k, w, x);
        }
      case Some(s) =>
        assert BaseAt(k, a, a);
        RootSquares(k, x, t, y, a, s);
        r := Some(m.mul(k.inverse(t), k.embed(s)));
    }
  }

  lemma {:induction false} NormFromHalf<E(!new), F(!new)>(k: Extension<E, F>, x: E, t: E)
    requires IsExtension(k) && t == Pow(k.ext, x, (NORM - 1) / 2)
    ensures k.ext.mul(x, k.ext.mul(t, t)) == Pow(k.ext, x, NORM)
  {
    var h := (NORM - 1) / 2;
    PowAdd(k.ext, x, h, h);
    PowOne(k.ext, x);
    PowAdd(k.ext, x, 1, h + h);
    assert 1 + (h + h) == NORM;
  }

  lemma {:induction false} SquaresHaveSquareNorm<E(!new), F(!new)>(k: Extension<E, F>, w: E, x: E)
    requires IsExtension(k) && k.ext.mul(w, w) == x
    ensures k.baseSqrt(k.coeff0(Pow(k.ext, x, NORM))).Some?
  {
    var n := Pow(k.ext, w, NORM);
    PowOfProduct(k.ext, w, w, NORM);
    NormIsBase(k, w);
    var b := k.coeff0(n);
    assert BaseAt(k, b, b);
    assert BaseAt(k, k.base.mul(b, b), b);
  }

  // --- the Legendre symbol ----------------------------------------------------------------------------------------

  datatype LegendreSymbol = Zero | One | NegOne

  /** `LegendreSymbol::from` */
  function Classify<F(==)>(b: Monoid<F>, zero: F, v: F): LegendreSymbol {
    if v == zero then Zero else if v == b.one then One else NegOne
  }

  /** Products of nonzero elements are nonzero, and Euler's criterion. */
  ghost predicate BaseFieldAt<F(!new)>(b: Monoid<F>, zero: F, x: F, y: F) {
    && (b.mul(x, y) == zero <==> x == zero || y == zero)
    && (x != zero ==> (Pow(b, x, (P - 1) / 2) == b.one <==> exists w :: b.mul(w, w) == x))
  }

  ghost predicate BaseField<F(!new)>(b: Monoid<F>, zero: F) {
    IsMonoid(b) && zero != b.one && forall x, y :: BaseFieldAt(b, zero, x, y)
  }

  lemma {:induction false} PowIsZero<F(!new)>(b: Monoid<F>, zero: F, x: F, n: nat)
    requires BaseField(b, zero) && n > 0
    ensures Pow(b, x, n) == zero <==> x == zero
  {
    assert Pow(b, x, n) == b.mul(Pow(b, x, n - 1), x);
    assert BaseFieldAt(b, zero, Pow(b, x, n - 1), x);
    if n > 1 {
      PowIsZero(b, zero, x, n - 1);
    }
  }

  /**
  `legendre` of a base field element: zero for zero, one for the other squares, minus one for the
  elements without a root.
  */
  method BaseLegendre<F(==,!new)>(b: Monoid<F>, zero: F, x: F) returns (symbol: LegendreSymbol)
    requires IsMonoid(b)
    ensures symbol == Classify(b, zero, Pow(b, x, (P - 1) / 2))
    ensures BaseField(b, zero) ==>
        && (symbol == Zero <==> x == zero)
        && (symbol == One <==> x != zero && exists w :: b.mul(w, w) == x)
        && (symbol == NegOne <==> x != zero && !exists w :: b.mul(w, w) == x)
  {
    var v := HalfPower(b, x);
    symbol := Classify(b, zero, v);
    if BaseField(b, zero) {
      PowIsZero(b, zero, x, (P - 1) / 2);
      assert BaseFieldAt(b, zero, x, x);
    }
  }

  /**
  `legendre` of an extension element, from its norm by four Frobenius maps: zero for zero, one for the
  other squares, minus one for the elements without a root.
  */
  method Legendre<E(==,!new), F(==,!new)>(k: Extension<E, F>, baseZero: F, x: E) returns (symbol: LegendreSymbol)
    requires IsExtension(k)
    ensures symbol == Classify(k.base, baseZero, Pow(k.base, k.coeff0(Pow(k.ext, x, NORM)), (P - 1) / 2))
    ensures k.embed(k.coeff0(Pow(k.ext, x, NORM))) == Pow(k.ext, x, NORM)
    ensures BaseField(k.base, baseZero) && k.embed(baseZero) == k.zero ==>
        && (symbol == Zero <==> x == k.zero)
        && (symbol == One <==> x != k.zero && exists w :: k.ext.mul(w, w) == x)
        && (symbol == NegOne <==> x != k.zero && !exists w :: k.ext.mul(w, w) == x)
  {
    var y := NormByFrobenius(k, x);
    NormIsBase(k, x);
    symbol := BaseLegendre(k.base, baseZero, k.coeff0(y));
    if BaseField(k.base, baseZero) && k.embed(baseZero) == k.zero {
      NormIsZero(k, baseZero, x);
      NormIsSquare(k, x);
    }
  }

  /** The norm is zero exactly for zero. */
  lemma {:induction false} NormIsZero<E(!new), F(!new)>(k: Extension<E, F>, baseZero: F, x: E)
    requires IsExtension(k) && k.embed(baseZero) == k.zero
    ensures k.coeff0(Pow(k.ext, x, NORM)) == baseZero <==> x == k.zero
  {
    NormIsBase(k, x);
    assert BaseAt(k, baseZero, baseZero);
    if x == k.zero {
      PowOfZero(k, NORM);
    } else {
      NonzeroPower(k, x, NORM);
    }
  }

  /** The norm of a nonzero element is a square in the base field exactly when the element is one. */
  lemma {:induction false} NormIsSquare<E(!new), F(!new)>(k: Extension<E, F>, x: E)
    requires IsExtension(k)
    ensures x != k.zero ==>
        var a := k.coeff0(Pow(k.ext, x, NORM));
        (exists w :: k.base.mul(w, w) == a) <==> exists w :: k.ext.mul(w, w) == x
  {
    if x != k.zero {
      var a := k.coeff0(Pow(k.ext, x, NORM));
      RootExists(k, x);
      forall w | k.base.mul(w, w) == a ensures k.baseSqrt(a).Some? {
        assert BaseAt(k, a, w);
      }
      if k.baseSqrt(a).Some? {
        assert BaseAt(k, a, a);
        assert k.base.mul(k.baseSqrt(a).value, k.baseSqrt(a).value) == a;
      }
    }
  }

  method NormByFrobenius<E(!new), F(!new)>(k: Extension<E, F>, x: E) returns (y: E)
    requires IsExtension(k)
    ensures y == Pow(k.ext, x, NORM)
  {
    var m := k.ext;
    PowOne(m, x);
    var x0 := k.frobenius(x);
    FrobeniusPower(k, x, 1);
    var x1 := k.frobenius(x0);
    FrobeniusPower(k, x, P);
    var x2 := m.mul(x0, x1);
    PowAdd(m, x, P, P * P);
    var x3 := k.frobenius(k.frobenius(x2));
    FrobeniusPower(k, x, P + P * P);
    FrobeniusPower(k, x, (P + P * P) * P);
    var x4 := m.mul(x2, x3);
    PowAdd(m, x, P + P * P, ((P + P * P) * P) * P);
    y := m.mul(x, x4);
    PowAdd(m, x, 1, P + P * P + ((P + P * P) * P) * P);
  }

  /**
  The two functions agree on nonzero elements: the half power of the norm is one exactly when `sqrt` finds
  a root. `decode` relies on it when it picks the square among the two candidates.
  */
  lemma {:induction false} LegendreDecidesSqrt<E(!new), F(!new)>(k: Extension<E, F>, baseZero: F, x: E)
    requires IsExtension(k) && BaseField(k.base, baseZero) && k.embed(baseZero) == k.zero && x != k.zero
    ensures Pow(k.base, k.coeff0(Pow(k.ext, x, NORM)), (P - 1) / 2) == k.base.one
       <==> k.baseSqrt(k.coeff0(Pow(k.ext, x, NORM))).Some?
  {
    var a := k.coeff0(Pow(k.ext, x, NORM));
    NormIsZero(k, baseZero, x);
    NormIsSquare(k, x);
    RootExists(k, x);
    assert BaseFieldAt(k.base, baseZero, a, a);
  }

  lemma {:induction false} RootExists<E(!new), F(!new)>(k: Extension<E, F>, x: E)
    requires IsExtension(k) && x != k.zero
    ensures k.baseSqrt(k.coeff0(Pow(k.ext, x, NORM))).Some? <==> exists w :: k.ext.mul(w, w) == x
  {
    var a := k.coeff0(Pow(k.ext, x, NORM));
    NormIsBase(k, x);
    if k.baseSqrt(a).Some? {
      var t := Pow(k.ext, x, (NORM - 1) / 2);
      NormFromHalf(k, x, t);
      NonzeroPower(k, x, (NORM - 1) / 2);
      assert BaseAt(k, a, a);
      RootSquares(k, x, t, Pow(k.ext, x, NORM), a, k.baseSqrt(a).value);
    }
    forall w | k.ext.mul(w, w) == x ensures k.baseSqrt(a).Some? {
      SquaresHaveSquareNorm(k, w, x);
    }
  }
}
