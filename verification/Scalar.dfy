/**
Scalars modulo the group order of ecGFp5, as five 64-bit limbs. The methods follow the limb loops
of the code: 64-bit results are taken modulo 2^64, and every 128-bit intermediate is reduced
modulo 2^128 and shown not to have needed it.
*/
module Scalars {
  import opened Arith
  import opened MachineWords
  import opened Modular

  /** A `Scalar`: five limbs, least significant first. */
  type Limbs = s: seq<u64> | |s| == 5 witness [0, 0, 0, 0, 0]

  const ZERO: Limbs := [0, 0, 0, 0, 0]

  /** The group order. */
  const N: Limbs :=
    [0xE80FD996948BFFE1, 0xE8885C39D724A09C, 0x7FFFFFE6CFB80639, 0x7FFFFFF100000016, 0x7FFFFFFD80000007]
  const ORDER: nat := 0x7ffffffd800000077ffffff1000000167fffffe6cfb80639e8885c39d724a09ce80fd996948bffe1

  /** `-1/N[0]` modulo 2^64. */
  const N0I: u64 := 0xD78BEF72057B7BDF

  /** 2^640 modulo the order. */
  const R2: Limbs :=
    [0xA01001DCE33DC739, 0x6C3228D33F62ACCF, 0xD1D796CC91CF8525, 0xAADFFF5D1574C1D8, 0x4ACA13B28CA251F5]

  /** 2^632 modulo the order. */
  const T632: Limbs :=
    [0x2B0266F317CA91B3, 0xEC1D26528E984773, 0x8651D7865E12DB94, 0xDA2ADFF5941574D0, 0x53CACA12110CA256]

  /** 2^320, the Montgomery factor, and its inverse modulo the order. */
  const R: nat := 0x1_0000000000000000_0000000000000000_0000000000000000_0000000000000000_0000000000000000
  const RINV: nat := 0x3e48b90839622cffcc3e68b9872381be9ac322bef265189aec41f9947d5941b1b5cd839d4f621868

  function BPow(k: nat): (r: nat)
    ensures r >= 1
  {
    if k == 0 then 1 else TWO64 * BPow(k - 1)
  }

  /** The value of the lowest `k` limbs. */
  function Prefix(s: seq<u64>, k: nat): nat
    requires k <= |s|
  {
    if k == 0 then 0 else Prefix(s, k - 1) + s[k - 1] * BPow(k - 1)
  }

  function Value(s: Limbs): nat {
    Prefix(s, 5)
  }

  /** A limb as an integer. */
  function Digit(s: seq<u64>, i: nat): (d: int)
    requires i < |s|
    ensures 0 <= d < TWO64
  {
    s[i]
  }

  /** The value, written out: every coefficient is a literal. */
  lemma {:induction false} ValueIs(s: Limbs)
    ensures Value(s) == Digit(s, 0) + 0x1_0000_0000_0000_0000 * Digit(s, 1)
                      + 0x1_0000_0000_0000_0000_0000_0000_0000_0000 * Digit(s, 2)
                      + 0x1_0000_0000_0000_0000_0000_0000_0000_0000_0000_0000_0000_0000 * Digit(s, 3)
                      + 0x1_0000_0000_0000_0000_0000_0000_0000_0000_0000_0000_0000_0000_0000_0000_0000_0000
                        * Digit(s, 4)
    ensures Value(s) < R
    ensures BPow(5) == R
  {
    BPowIs();
    assert Prefix(s, 1) == s[0];
    assert Prefix(s, 2) == Prefix(s, 1) + s[1] * BPow(1);
    assert Prefix(s, 3) == Prefix(s, 2) + s[2] * BPow(2);
    assert Prefix(s, 4) == Prefix(s, 3) + s[3] * BPow(3);
    assert Prefix(s, 5) == Prefix(s, 4) + s[4] * BPow(4);
  }

  lemma {:induction false} BPowIs()
    ensures BPow(0) == 1 && BPow(1) == TWO64 && BPow(2) == TWO128
    ensures BPow(3) == 0x1_0000_0000_0000_0000_0000_0000_0000_0000_0000_0000_0000_0000
    ensures BPow(4) == 0x1_0000_0000_0000_0000_0000_0000_0000_0000_0000_0000_0000_0000_0000_0000_0000_0000
    ensures BPow(5) == R
  {
    assert BPow(1) == TWO64 * BPow(0);
    assert BPow(2) == TWO64 * BPow(1);
    assert BPow(3) == TWO64 * BPow(2);
    assert BPow(4) == TWO64 * BPow(3);
    assert BPow(5) == TWO64 * BPow(4);
  }

  lemma {:induction false} OrderIs()
    ensures Value(N) == ORDER && Value(ZERO) == 0
    ensures 2 * ORDER < R
  {
    ValueIs(N);
    ValueIs(ZERO);
  }

  lemma {:induction false} PrefixFrame(s: seq<u64>, t: seq<u64>, k: nat)
    requires k <= |s| && k <= |t| && s[..k] == t[..k]
    ensures Prefix(s, k) == Prefix(t, k)
  {
    if k > 0 {
      assert s[..k - 1] == s[..k][..k - 1] && t[..k - 1] == t[..k][..k - 1];
      assert s[k - 1] == s[..k][k - 1] && t[k - 1] == t[..k][k - 1];
      PrefixFrame(s, t, k - 1);
    }
  }

  /** Writing the next limb extends the value of the written prefix. */
  lemma {:induction false} PrefixWrite(s: seq<u64>, k: nat, v: u64)
    requires k < |s|
    ensures Prefix(s[k := v], k + 1) == Prefix(s, k) + v * BPow(k)
  {
    PrefixFrame(s, s[k := v], k);
  }

  // --- addition and subtraction with carry ---------------------------------------------------

  lemma {:induction false} CarryStep(x: int, c: int, w: int, c': int, bp: int)
    requires x + c == w + TWO64 * c'
    ensures x * bp + c * bp == w * bp + c' * (TWO64 * bp)
  {
    calc {
      x * bp + c * bp;
      (x + c) * bp;
      (w + TWO64 * c') * bp;
      w * bp + c' * (TWO64 * bp);
    }
  }

  lemma {:induction false} AddStep(x: int, a: int, c: int, w: int, c': int, bp: int)
    requires x + a + c == w + TWO64 * c'
    ensures x * bp + a * bp + c * bp == w * bp + c' * (TWO64 * bp)
  {
    CarryStep(x + a, c, w, c', bp);
    assert (x + a) * bp == x * bp + a * bp;
  }

  /** `add_inner`: the sum modulo 2^320. */
  method AddInner(x: Limbs, a: Limbs) returns (r: Limbs)
    ensures Value(x) + Value(a) < R ==> Value(r) == Value(x) + Value(a)
    ensures Value(r) == (Value(x) + Value(a)) % R
  {
    var s: seq<u64> := ZERO;
    var c: u64 := 0;
    for i := 0 to 5
      invariant |s| == 5 && c <= 1
      invariant Prefix(s, i) + c * BPow(i) == Prefix(x, i) + Prefix(a, i)
    {
      var xi, ai := Digit(x, i), Digit(a, i);
      var z := (xi + ai + c) % TWO128;
      assert z == xi + ai + c;
      AddStep(xi, ai, c, z % TWO64, z / TWO64, BPow(i));
      PrefixWrite(s, i, z % TWO64);
      s := s[i := z % TWO64];
      c := z / TWO64;
    }
    r := s;
    ValueIs(r);
    DivModUnique(Value(x) + Value(a), c, Value(r), R);
  }

  /** `sub_inner`: the difference modulo 2^320 and the borrow. */
  method SubInner(x: Limbs, a: Limbs) returns (r: Limbs, borrow: u64)
    ensures borrow == if Value(x) < Value(a) then 1 else 0
    ensures Value(r) == Value(x) - Value(a) + borrow * R
  {
    var s: seq<u64> := ZERO;
    var c: u64 := 0;
    for i := 0 to 5
      invariant |s| == 5 && c <= 1
      invariant Prefix(s, i) == Prefix(x, i) - Prefix(a, i) + c * BPow(i)
    {
      var xi, ai := Digit(x, i), Digit(a, i);
      var z := (xi - ai - c) % TWO128;
      var w, c' := z % TWO64, (z / TWO64) % 2;
      BorrowDigit(xi - ai - c, z);
      BorrowStep(xi, ai, c, w, c', BPow(i));
      PrefixWrite(s, i, w);
      s := s[i := w];
      c := c';
    }
    r := s;
    borrow := c;
    ValueIs(r);
    ValueIs(x);
    ValueIs(a);
  }

  lemma {:induction false} BorrowStep(x: int, a: int, c: int, w: int, c': int, bp: int)
    requires x - a - c == w - TWO64 * c'
    ensures x * bp - a * bp - c * bp == w * bp - c' * (TWO64 * bp)
  {
    calc {
      x * bp - a * bp - c * bp;
      (x - a - c) * bp;
      (w - TWO64 * c') * bp;
      w * bp - c' * (TWO64 * bp);
    }
  }

  /** A 128-bit wrap of a small negative difference leaves the digit and a borrow of one. */
  lemma {:induction false} BorrowDigit(d: int, z: nat)
    requires 0 <= d + TWO64 && d < TWO64 && z == d % TWO128
    ensures d == z % TWO64 - TWO64 * ((z / TWO64) % 2)
  {
    if d < 0 {
      DivModUnique(d, -1, d + TWO128, TWO128);
      DivModUnique(z, TWO64 - 1, d + TWO64, TWO64);
    } else {
      SmallIsItsRemainder(d, TWO128);
      DivModUnique(z, 0, d, TWO64);
    }
  }

  /** `add_mod` */
  method AddMod(x: Limbs, a: Limbs) returns (r: Limbs)
    requires Value(x) < ORDER && Value(a) < ORDER
    ensures Value(r) == (Value(x) + Value(a)) % ORDER
  {
    OrderIs();
    var t := AddInner(x, a);
    var w, cc := SubInner(t, N);
    if cc == 0 {
      r := w;
      DivModUnique(Value(x) + Value(a), 1, Value(w), ORDER);
    } else {
      r := t;
      SmallIsItsRemainder(Value(t), ORDER);
    }
  }

  /** `sub_mod` */
  method SubMod(x: Limbs, a: Limbs) returns (r: Limbs)
    requires Value(x) < ORDER && Value(a) < ORDER
    ensures Value(r) == (Value(x) - Value(a)) % ORDER
  {
    OrderIs();
    var t, cc := SubInner(x, a);
    if cc == 0 {
      r := t;
      SmallIsItsRemainder(Value(t), ORDER);
    } else {
      r := AddInner(t, N);
      DivModUnique(Value(t) + Value(N), 1, Value(x) - Value(a) + ORDER, R);
      DivModUnique(Value(x) - Value(a), -1, Value(r), ORDER);
    }
  }

  /** `neg_mod` */
  method NegMod(x: Limbs) returns (r: Limbs)
    requires Value(x) < ORDER
    ensures Value(r) == (0 - Value(x)) % ORDER
  {
    OrderIs();
    r := SubMod(ZERO, x);
  }

  // --- Montgomery multiplication -----------------------------------------------------------------

  /** The equation the inner loop keeps: what has been added equals what has been written plus the carries. */
  ghost predicate RowHolds(pa: int, m: int, f: int, pn: int, pr: int, low: int, c: int, bp: int) {
    pa * m + f * pn + pr == low + c * bp
  }

  lemma {:induction false} RowStep(pa: int, pn: int, pr: int, m: int, f: int, aj: int, nj: int, rj: int,
                                   low: int, c: int, w: int, c': int, bp: int)
    requires RowHolds(pa, m, f, pn, pr, low, c, bp)
    requires aj * m + f * nj + rj + c == w + TWO64 * c'
    ensures RowHolds(pa + aj * bp, m, f, pn + nj * bp, pr + rj * bp, low + w * bp, c', TWO64 * bp)
  {
    var x := aj * m + f * nj + rj;
    CarryStep(x, c, w, c', bp);
    assert (pa + aj * bp) * m == pa * m + (aj * m) * bp;
    assert f * (pn + nj * bp) == f * pn + (f * nj) * bp;
    assert x * bp == (aj * m) * bp + (f * nj) * bp + rj * bp;
  }

  /** A product of two limbs plus two limbs fits in 128 bits. */
  lemma {:induction false} ProductFits(a: u64, b: u64)
    ensures a as int * b as int <= (TWO64 - 1) * (TWO64 - 1)
  {
    var x: int, y: int := a, b;
    MulMono(x, TWO64 - 1, y);
    MulMono(y, TWO64 - 1, TWO64 - 1);
    assert y * (TWO64 - 1) == (TWO64 - 1) * y;
  }

  /** The quotient digit makes the lowest limb of `r + a*m + f*n` vanish. */
  lemma {:induction false} LowLimbVanishes(t: nat, f: nat)
    requires f == (t % TWO64) * N0I % TWO64
    ensures (t + f * Digit(N, 0)) % TWO64 == 0
  {
    var n0 := Digit(N, 0);
    var u := t % TWO64;
    assert N0I * n0 == TWO64 * ((N0I * n0 + 1) / TWO64) - 1;
    CongMod(t, TWO64);
    CongMod(u * N0I, TWO64);
    CongMul(f, u * N0I, n0, TWO64);
    assert (u * N0I) * n0 == u * (N0I * n0);
    var k := (N0I * n0 + 1) / TWO64;
    assert u * (TWO64 * k - 1) == (u * k) * TWO64 - u;
    CongByMultiple(u * (N0I * n0), -u, u * k, TWO64);
    CongAdd(t, u, f * n0, -u, TWO64);
  }

  /**
  The inner loop of `montymul`: one limb `m` of the right operand. The result is the exact
  quotient of `r + a*m + f*n` by 2^64; the dropped limb is zero and nothing wraps.
  */
  method MontyRow(a: Limbs, m: u64, r0: Limbs) returns (r: Limbs, ghost f: nat)
    requires Value(a) < ORDER && Value(r0) < Value(a) + ORDER
    ensures TWO64 * Value(r) == Value(r0) + Value(a) * m + f * ORDER
    ensures Value(r) < Value(a) + ORDER
  {
    var q := QuotientDigit(a, m, r0);
    f := q;
    var s: seq<u64> := r0;
    var cc1: u64, cc2: u64 := 0, 0;
    for j := 0 to 5
      invariant RowInvariant(a, m, q, r0, s, j, cc1 as int + cc2)
      invariant j == 0 ==> cc1 == 0 && cc2 == 0
    {
      s, cc1, cc2 := RowLimb(a, m, q, r0, s, j, cc1, cc2);
    }
    r := RowTop(a, m, q, r0, s, cc1 as int + cc2);
  }

  /** What the first `j` passes have written, at its place in the sum. */
  ghost function Written(s: seq<u64>, j: nat): int
    requires j <= |s| + 1
  {
    if j == 0 then 0 else TWO64 * Prefix(s, j - 1)
  }

  ghost predicate RowInvariant(a: Limbs, m: u64, f: u64, r0: Limbs, s: seq<u64>, j: nat, carry: int) {
    && j <= 5 && |s| == 5 && (forall i | j <= i < 5 :: s[i] == r0[i])
    && RowHolds(Prefix(a, j), m, f, Prefix(N, j), Prefix(r0, j), Written(s, j), carry, BPow(j))
  }

  /** One pass of the inner loop: limb `j` is consumed, limb `j - 1` is written. */
  method RowLimb(a: Limbs, m: u64, f: u64, r0: Limbs, s: seq<u64>, j: nat, cc1: u64, cc2: u64)
    returns (t: seq<u64>, d1: u64, d2: u64)
    requires j < 5 && RowInvariant(a, m, f, r0, s, j, cc1 as int + cc2)
    requires j == 0 ==> cc1 == 0 && cc2 == 0
    requires (Digit(a, 0) * m + Digit(r0, 0) + f * Digit(N, 0)) % TWO64 == 0
    ensures RowInvariant(a, m, f, r0, t, j + 1, d1 as int + d2)
  {
    var w;
    w, d1, d2 := MontyDigit(Digit(a, j), m, Digit(s, j), f, Digit(N, j), cc1, cc2);
    if j > 0 {
      t := WriteLimb(s, j - 1, w);
    } else {
      DroppedLimb(Digit(a, 0) * m + Digit(r0, 0) + f * Digit(N, 0), w, d1 as int + d2);
      t := s;
    }
    RowInvariantNext(a, m, f, r0, s, t, j, w, cc1 as int + cc2, d1 as int + d2);
  }

  lemma {:induction false} RowInvariantNext(a: Limbs, m: u64, f: u64, r0: Limbs, s: seq<u64>, t: seq<u64>, j: nat,
                                            w: u64, c: int, d: int)
    requires j < 5 && RowInvariant(a, m, f, r0, s, j, c)
    requires Digit(a, j) * m + f * Digit(N, j) + Digit(r0, j) + c == w + TWO64 * d
    requires |t| == 5 && (forall i | j < i < 5 :: t[i] == s[i])
    requires Written(t, j + 1) == Written(s, j) + w * BPow(j)
    ensures RowInvariant(a, m, f, r0, t, j + 1, d)
  {
    RowStep(Prefix(a, j), Prefix(N, j), Prefix(r0, j), m, f, Digit(a, j), Digit(N, j), Digit(r0, j),
            Written(s, j), c, w, d, BPow(j));
    PrefixNext(a, j);
    PrefixNext(N, j);
    PrefixNext(r0, j);
  }

  lemma {:induction false} PrefixNext(s: seq<u64>, j: nat)
    requires j < |s|
    ensures Prefix(s, j + 1) == Prefix(s, j) + Digit(s, j) * BPow(j)
    ensures BPow(j + 1) == TWO64 * BPow(j)
  {
  }

  /** After the inner loop: the carries become the top limb, which does not wrap. */
  method RowTop(a: Limbs, m: u64, f: u64, r0: Limbs, s: seq<u64>, top: nat) returns (r: Limbs)
    requires RowInvariant(a, m, f, r0, s, 5, top)
    requires Value(a) < ORDER && Value(r0) < Value(a) + ORDER
    ensures TWO64 * Value(r) == Value(r0) + Value(a) * m + f * ORDER
    ensures Value(r) < Value(a) + ORDER
  {
    OrderIs();
    RowBounds(Value(a), m, Value(r0), f, Prefix(s, 4), top);
    SmallIsItsRemainder(top, TWO64);
    PrefixWrite(s, 4, top % TWO64);
    r := s[4 := top % TWO64];
  }

  method WriteLimb(s: seq<u64>, k: nat, w: u64) returns (t: seq<u64>)
    requires k < |s|
    ensures t == s[k := w]
    ensures TWO64 * Prefix(t, k + 1) == TWO64 * Prefix(s, k) + w * BPow(k + 1)
  {
    t := s[k := w];
    PrefixWrite(s, k, w);
    assert TWO64 * (w * BPow(k)) == w * (TWO64 * BPow(k));
  }

  /** The digit `f`: it makes the lowest limb of `r + a*m + f*n` vanish. */
  method QuotientDigit(a: Limbs, m: u64, r0: Limbs) returns (f: u64)
    ensures (Digit(a, 0) * m + Digit(r0, 0) + f * Digit(N, 0)) % TWO64 == 0
  {
    var t := (Digit(a, 0) * m) % TWO64;
    f := (((t + Digit(r0, 0)) % TWO64) * N0I) % TWO64;
    LowDigit(Digit(a, 0) * m, t, Digit(r0, 0));
    LowLimbVanishes(Digit(a, 0) * m + Digit(r0, 0), f);
  }

  lemma {:induction false} LowDigit(p: nat, t: nat, r: nat)
    requires t == p % TWO64
    ensures (t + r) % TWO64 == (p + r) % TWO64
  {
    CongMod(p, TWO64);
    CongAdd(t, p, r, r, TWO64);
  }

  lemma {:induction false} DroppedLimb(x: int, w: int, c: int)
    requires x % TWO64 == 0 && x == w + TWO64 * c && 0 <= w < TWO64
    ensures w == 0
  {
    DivModUnique(x, c, w, TWO64);
  }

  /** One limb of the row: two multiply-accumulate steps of 128 bits each. */
  method MontyDigit(aj: int, m: u64, rj: int, f: u64, nj: int, cc1: u64, cc2: u64) returns (w: u64, d1: u64, d2: u64)
    requires 0 <= aj < TWO64 && 0 <= rj < TWO64 && 0 <= nj < TWO64
    ensures aj * m + f * nj + rj + (cc1 as int + cc2) == w + TWO64 * (d1 as int + d2)
  {
    ProductFits(aj, m);
    ProductFits(f, nj);
    var p1 := aj * m + rj + cc1;
    var z := p1 % TWO128;
    SmallIsItsRemainder(p1, TWO128);
    d1 := z / TWO64;
    var p2 := f as int * nj + z % TWO64 + cc2;
    var y := p2 % TWO128;
    SmallIsItsRemainder(p2, TWO128);
    d2 := y / TWO64;
    w := y % TWO64;
  }

  /** The running value stays below `a + n`, so its top limb does not wrap. */
  lemma {:induction false} RowBounds(a: nat, m: nat, r0: nat, f: nat, low: nat, top: int)
    requires a < ORDER && r0 < a + ORDER && m < TWO64 && f < TWO64 && 0 <= top
    requires RowHolds(a, m, f, ORDER, r0, TWO64 * low, top, BPow(5))
    ensures top < TWO64
    ensures low + top * BPow(4) < a + ORDER
    ensures TWO64 * (low + top * BPow(4)) == r0 + a * m + f * ORDER
  {
    BPowIs();
    MulMono(m, TWO64 - 1, a);
    assert a * m == m * a && (TWO64 - 1) * a == TWO64 * a - a;
    MulMono(f, TWO64 - 1, ORDER);
    var v := low + top * BPow(4);
    assert TWO64 * v == TWO64 * low + top * BPow(5);
    assert TWO64 * v < TWO64 * (a + ORDER);
  }

  /** `montymul`: `a * b / 2^320` modulo the order, for any 320-bit `b`. */
  method MontyMul(a: Limbs, b: Limbs) returns (r: Limbs)
    requires Value(a) < ORDER
    ensures Value(r) < ORDER
    ensures Cong(Value(r) * R, Value(a) * Value(b), ORDER)
  {
    var acc, q := MontyAccumulate(a, b);
    OrderIs();
    var w, cc := SubInner(acc, N);
    r := if cc == 0 then w else acc;
    MontyFinish(Value(acc), Value(r), Value(a), Value(b), q);
  }

  /** The outer loop, before the final conditional subtraction. */
  method MontyAccumulate(a: Limbs, b: Limbs) returns (acc: Limbs, ghost q: nat)
    requires Value(a) < ORDER
    ensures Value(acc) < Value(a) + ORDER
    ensures MontyHolds(R, Value(acc), Value(a), Value(b), q)
  {
    acc, q := ZERO, 0;
    OrderIs();
    for i := 0 to 5
      invariant Value(acc) < Value(a) + ORDER
      invariant MontyHolds(BPow(i), Value(acc), Value(a), Prefix(b, i), q)
    {
      acc, q := MontyLimb(a, b, i, acc, q);
    }
    BPowIs();
  }

  method MontyLimb(a: Limbs, b: Limbs, i: nat, acc: Limbs, ghost q: nat) returns (next: Limbs, ghost q': nat)
    requires Value(a) < ORDER && i < 5
    requires Value(acc) < Value(a) + ORDER
    requires MontyHolds(BPow(i), Value(acc), Value(a), Prefix(b, i), q)
    ensures Value(next) < Value(a) + ORDER
    ensures MontyHolds(BPow(i + 1), Value(next), Value(a), Prefix(b, i + 1), q')
  {
    ghost var f: nat;
    next, f := MontyRow(a, b[i], acc);
    q' := q + f * BPow(i);
    MontyStep(Value(a), Prefix(b, i), Digit(b, i), Value(acc), Value(next), q, f, BPow(i));
    PrefixNext(b, i);
  }

  /** The equation the outer loop keeps. */
  ghost predicate MontyHolds(bp: int, acc: int, a: int, pb: int, q: int) {
    bp * acc == a * pb + q * ORDER
  }

  lemma {:induction false} MontyStep(a: nat, pb: nat, m: nat, was: nat, next: nat, q: nat, f: nat, bp: nat)
    requires MontyHolds(bp, was, a, pb, q)
    requires TWO64 * next == was + a * m + f * ORDER
    ensures MontyHolds(TWO64 * bp, next, a, pb + m * bp, q + f * bp)
  {
    calc {
      (TWO64 * bp) * next;
      bp * (TWO64 * next);
      bp * (was + a * m + f * ORDER);
      bp * was + bp * (a * m) + bp * (f * ORDER);
      a * pb + q * ORDER + a * (m * bp) + (f * bp) * ORDER;
    }
    assert a * (pb + m * bp) == a * pb + a * (m * bp);
    assert (q + f * bp) * ORDER == q * ORDER + (f * bp) * ORDER;
  }

  lemma {:induction false} MontyFinish(acc: nat, r: nat, a: nat, b: nat, q: nat)
    requires MontyHolds(R, acc, a, b, q)
    requires r == acc || r + ORDER == acc
    ensures Cong(r * R, a * b, ORDER)
  {
    if r == acc {
      CongByMultiple(r * R, a * b, q, ORDER);
    } else {
      assert r * R == a * b + (q - R) * ORDER;
      CongByMultiple(r * R, a * b, q - R, ORDER);
    }
  }

  lemma {:induction false} MontyFactorInverts()
    ensures Cong(R * RINV, 1, ORDER)
  {
    CongByMultiple(R * RINV, 1, 0x7c917212e19b9456b4010817f339d900f4425e0b5cdd0e2958bcef3f3d2c510ed78bef72057b7bdf,
        ORDER);
  }

  /** There is only one reduced Montgomery product. */
  lemma {:induction false} MontyProductIsUnique(r: nat, s: nat, x: int)
    requires r < ORDER && s < ORDER
    requires Cong(r * R, x, ORDER) && Cong(s * R, x, ORDER)
    ensures r == s
  {
    MontyFactorInverts();
    CongCancel(r, s, R, RINV, ORDER);
    SmallIsItsRemainder(r, ORDER);
    SmallIsItsRemainder(s, ORDER);
  }

  /** `mul_mod`: two Montgomery products, the first by 2^640. */
  method MulMod(a: Limbs, b: Limbs) returns (r: Limbs)
    requires Value(a) < ORDER
    ensures Value(r) == (Value(a) * Value(b)) % ORDER
  {
    var t := MontyMul(a, R2);
    r := MontyMul(t, b);
    MulModAgrees(Value(a), Value(b), Value(t), Value(r));
  }

  lemma {:induction false} R2Is()
    ensures Cong(Value(R2), R * R, ORDER) && Value(R2) < ORDER
  {
    ValueIs(R2);
    CongByMultiple(R * R, Value(R2),
      0x20000000a0000001400000009ffffffd7ffffff9cc11fe71fe91d998040bac1fc3ddc128d76ebeda7, ORDER);
  }

  lemma {:induction false} MulModAgrees(a: nat, b: nat, t: nat, r: nat)
    requires r < ORDER
    requires Cong(t * R, a * Value(R2), ORDER) && Cong(r * R, t * b, ORDER)
    ensures r == (a * b) % ORDER
  {
    R2Is();
    MontyFactorInverts();
    CongMul(Value(R2), R * R, a, ORDER);
    assert a * (R * R) == (a * R) * R;
    CongCancel(t, a * R, R, RINV, ORDER);
    CongMul(t, a * R, b, ORDER);
    assert (a * R) * b == (a * b) * R;
    CongCancel(r, a * b, R, RINV, ORDER);
    SmallIsItsRemainder(r, ORDER);
  }
}
