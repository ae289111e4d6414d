/**
The arithmetic of the emitted Poseidon code: 256-bit words that wrap, a matrix product that packs
three rows in one word, and partial rounds that leave eleven lanes unreduced. Each is proved equal
to the plain form that reduces modulo the Goldilocks prime at once. The round constants are
arbitrary 64-bit values.
*/
module Yul {
  import opened Arith
  import opened MachineWords
  import opened Modular

  const W: nat := 0x1_0000000000000000_0000000000000000_0000000000000000_0000000000000000
  const TWO65: nat := 0x2_0000_0000_0000_0000
  const TWO130: nat := 0x4_0000_0000_0000_0000_0000_0000_0000_0000
  const TWO86: nat := 0x40_0000_0000_0000_0000_0000
  const TWO172: nat := 0x1000_0000_0000_0000_0000_0000_0000_0000_0000_0000_0000

  type word = x: nat | x < W

  function AddW(a: word, b: word): word { (a as int + b) % W }
  function MulW(a: word, b: word): word { (a as int * b) % W }
  function MulModW(a: word, b: word): (r: word)
    ensures r < P
  {
    (a as int * b) % P
  }

  lemma {:induction false} AddFits(a: word, b: word)
    requires a as int + b < W
    ensures AddW(a, b) == a as int + b
  {
    SmallIsItsRemainder(a as int + b, W);
  }

  lemma {:induction false} MulFits(a: word, b: word)
    requires a as int * b < W
    ensures MulW(a, b) == a as int * b
  {
    SmallIsItsRemainder(a as int * b, W);
  }

  lemma {:induction false} ReduceW(a: word)
    ensures MulModW(a, 1) == a % P
  {
    assert a as int * 1 == a as int;
  }

  // --- the S-box ---------------------------------------------------------------------------------------

  function Pow7(x: int): int {
    ((x * x * x) * (x * x * x)) * x
  }

  /** The S-box in the field. */
  function Sbox(x: nat): (r: nat)
    ensures r < P
  {
    Pow7(x) % P
  }

  lemma {:induction false} SboxCong(x: nat, y: nat)
    requires Cong(x, y, P)
    ensures Sbox(x) == Sbox(y)
  {
    CongMulBoth(x, y, x, y, P);
    CongMulBoth(x * x, y * y, x, y, P);
    CongMulBoth(x * x * x, y * y * y, x * x * x, y * y * y, P);
    CongMulBoth((x * x * x) * (x * x * x), (y * y * y) * (y * y * y), x, y, P);
  }

  lemma {:induction false} CubeBounds(x: nat)
    requires x < TWO65
    ensures x * x < TWO130 && x * x * x < W
  {
    MulMono(x, TWO65 - 1, x);
    MulMono(x, TWO65 - 1, TWO65 - 1);
    MulMono(x * x, TWO130, x);
    MulMono(x, TWO65, TWO130);
  }

  /** `sbox7`: two plain products that fit, then two modular ones. */
  method Sbox7(x: word) returns (r: word)
    requires x < TWO65
    ensures r == Sbox(x) && r < P
  {
    CubeBounds(x);
    MulFits(x, x);
    var x2 := MulW(x, x);
    MulFits(x2, x);
    var x3 := MulW(x2, x);
    var x6 := MulModW(x3, x3);
    r := MulModW(x6, x);
    CongMod(x3 as int * x3, P);
    CongMul(x6, x3 as int * x3, x, P);
  }

  // --- sums of products ---------------------------------------------------------------------------------

  /** `a[0]*b[0] + ... + a[k-1]*b[k-1]` */
  function Dot(a: seq<nat>, b: seq<nat>, k: nat): nat
    requires k <= |a| && k <= |b|
    decreases |a|, k
  {
    if k == 0 then 0 else Dot(a, b, k - 1) + a[k - 1] * b[k - 1]
  }

  lemma {:induction false} DotBound(a: seq<nat>, b: seq<nat>, k: nat, x: nat, y: nat)
    requires k <= |a| && k <= |b|
    requires forall i | 0 <= i < k :: a[i] <= x && b[i] <= y
    ensures Dot(a, b, k) <= k * (x * y)
  {
    if k > 0 {
      DotBound(a, b, k - 1, x, y);
      ProductBound(a[k - 1], b[k - 1], x, y);
      assert k * (x * y) == (k - 1) * (x * y) + x * y;
    }
  }

  lemma {:induction false} ProductBound(a: nat, b: nat, x: nat, y: nat)
    requires a <= x && b <= y
    ensures a * b <= x * y
  {
    MulMono(a, x, b);
    MulMono(b, y, x);
    assert b * x == x * b && y * x == x * y;
  }

  /** Sums of products agree modulo P when the left factors do. */
  lemma {:induction false} DotCong(a: seq<nat>, a': seq<nat>, b: seq<nat>, k: nat)
    requires k <= |a| && k <= |a'| && k <= |b|
    requires forall i | 0 <= i < k :: Cong(a[i], a'[i], P)
    ensures Cong(Dot(a, b, k), Dot(a', b, k), P)
  {
    if k > 0 {
      DotCong(a, a', b, k - 1);
      CongMul(a[k - 1], a'[k - 1], b[k - 1], P);
      CongAdd(Dot(a, b, k - 1), Dot(a', b, k - 1), a[k - 1] * b[k - 1], a'[k - 1] * b[k - 1], P);
    }
  }

  // --- the matrix, three rows at a time --------------------------------------------------------------------

  const CIRC: seq<nat> := [17, 15, 41, 16, 2, 28, 13, 13, 39, 18, 34, 20]

  /** `mds_coeff`: circulant plus 8 on the first diagonal entry. */
  function Coeff(row: nat, col: nat): (c: nat)
    requires row < 12 && col < 12
    ensures c <= 49
  {
    CIRC[(col - row) % 12] + (if row == 0 && col == 0 then 8 else 0)
  }

  function Row(row: nat): (r: seq<nat>)
    requires row < 12
    ensures |r| == 12 && forall c | 0 <= c < 12 :: r[c] == Coeff(row, c) && r[c] <= 49
  {
    seq(12, c requires 0 <= c < 12 => Coeff(row, c))
  }

  /** The matrix product in the field. */
  function MdsSpec(s: seq<nat>): (r: seq<nat>)
    requires |s| == 12
    ensures |r| == 12 && forall i | 0 <= i < 12 :: r[i] == Dot(Row(i), s, 12) % P && r[i] < P
  {
    seq(12, i requires 0 <= i < 12 => Dot(Row(i), s, 12) % P)
  }

  /** `packed_coeff` for the rows `r`, `r + 1` and `r + 2`. */
  function PackedCoeff(r: nat, col: nat): (c: nat)
    requires r <= 9 && col < 12
    ensures c <= 49 + TWO86 * 49 + TWO172 * 49
  {
    Coeff(r, col) + TWO86 * Coeff(r + 1, col) + TWO172 * Coeff(r + 2, col)
  }

  /** Three lanes in one number. */
  function Lanes(a: nat, b: nat, c: nat): nat {
    a + TWO86 * b + TWO172 * c
  }

  /** What the accumulator of a row group holds after `k` columns. */
  ghost function Packed(s: seq<nat>, r: nat, k: nat): nat
    requires |s| == 12 && r <= 9 && k <= 12
  {
    Lanes(Dot(Row(r), s, k), Dot(Row(r + 1), s, k), Dot(Row(r + 2), s, k))
  }

  lemma {:induction false} LaneBound(s: seq<nat>, row: nat, k: nat)
    requires |s| == 12 && row < 12 && k <= 12 && forall i | 0 <= i < 12 :: s[i] < P
    ensures Dot(Row(row), s, k) <= 588 * P
  {
    DotBound(Row(row), s, k, 49, P);
    MulMono(k, 12, 49 * P);
  }

  lemma {:induction false} PackedStep(s: seq<nat>, r: nat, k: nat)
    requires |s| == 12 && r <= 9 && k < 12 && forall i | 0 <= i < 12 :: s[i] < P
    ensures Packed(s, r, k + 1) == Packed(s, r, k) + PackedCoeff(r, k) * s[k]
    ensures Packed(s, r, k) <= Packed(s, r, k + 1) < W && PackedCoeff(r, k) < W
  {
    PackedSum(s, r, k);
    MulMono(0, PackedCoeff(r, k), s[k]);
    PackedFits(s, r, k + 1);
  }

  lemma {:induction false} PackedSum(s: seq<nat>, r: nat, k: nat)
    requires |s| == 12 && r <= 9 && k < 12
    ensures Packed(s, r, k + 1) == Packed(s, r, k) + PackedCoeff(r, k) * s[k]
  {
    DotNext(Row(r), s, k);
    DotNext(Row(r + 1), s, k);
    DotNext(Row(r + 2), s, k);
    LanesTimes(Coeff(r, k), Coeff(r + 1, k), Coeff(r + 2, k), s[k]);
  }

  lemma {:induction false} PackedFits(s: seq<nat>, r: nat, k: nat)
    requires |s| == 12 && r <= 9 && k <= 12 && forall i | 0 <= i < 12 :: s[i] < P
    ensures Packed(s, r, k) < W
  {
    LaneBound(s, r, k);
    LaneBound(s, r + 1, k);
    LaneBound(s, r + 2, k);
  }

  lemma {:induction false} DotNext(a: seq<nat>, b: seq<nat>, k: nat)
    requires k < |a| && k < |b|
    ensures Dot(a, b, k + 1) == Dot(a, b, k) + a[k] * b[k]
  {
  }

  lemma {:induction false} LanesTimes(x: nat, y: nat, z: nat, v: nat)
    ensures Lanes(x, y, z) * v == Lanes(x * v, y * v, z * v)
  {
    assert (TWO86 * y) * v == TWO86 * (y * v) && (TWO172 * z) * v == TWO172 * (z * v);
  }

  /** Masking and shifting takes the lanes apart when none overflows. */
  lemma {:induction false} Unpack(a: nat, b: nat, c: nat)
    requires a < TWO86 && b < TWO86
    ensures Lanes(a, b, c) % TWO86 == a
    ensures (Lanes(a, b, c) / TWO86) % TWO86 == b
    ensures Lanes(a, b, c) / TWO172 == c
  {
    DivModUnique(Lanes(a, b, c), b + TWO86 * c, a, TWO86);
    DivModUnique(b + TWO86 * c, c, b, TWO86);
    DivModUnique(Lanes(a, b, c), c, a + TWO86 * b, TWO172);
  }

  /** The accumulator of one row group, from column `from`, without a carry out of the word. */
  method AccumulateGroup(s: seq<word>, r: nat, from: nat, start: word) returns (acc: word)
    requires |s| == 12 && r <= 9 && from <= 12 && forall i | 0 <= i < 12 :: s[i] < P
    requires start == Packed(s, r, from)
    ensures acc == Packed(s, r, 12)
  {
    acc := start;
    for col := from to 12
      invariant acc == Packed(s, r, col)
    {
      PackedStep(s, r, col);
      MulFits(PackedCoeff(r, col), s[col]);
      AddFits(acc, MulW(PackedCoeff(r, col), s[col]));
      acc := AddW(acc, MulW(PackedCoeff(r, col), s[col]));
    }
  }

  /** Mask and shift the three lanes out of an accumulator and reduce them. */
  method ReducedLanes(s: seq<word>, r: nat, acc: word, ghost out: seq<nat>) returns (x: word, y: word, z: word)
    requires Below(s, 12, P) && r <= 9 && acc == Packed(s, r, 12) && out == MdsSpec(s)
    ensures x == out[r] && y == out[r + 1] && z == out[r + 2]
  {
    LaneBound(s, r, 12);
    LaneBound(s, r + 1, 12);
    Unpack(Dot(Row(r), s, 12), Dot(Row(r + 1), s, 12), Dot(Row(r + 2), s, 12));
    ReduceW(acc % TWO86);
    ReduceW((acc / TWO86) % TWO86);
    ReduceW(acc / TWO172);
    x := MulModW(acc % TWO86, 1);
    y := MulModW((acc / TWO86) % TWO86, 1);
    z := MulModW(acc / TWO172, 1);
  }

  /** The first `n` lanes have been written. */
  ghost predicate Stored(mem: array<word>, out: seq<nat>, n: nat)
    reads mem
  {
    n <= mem.Length == |out| == 12 && forall i | 0 <= i < n :: mem[i] == out[i]
  }

  method StoreLanes(mem: array<word>, r: nat, x: word, y: word, z: word, ghost out: seq<nat>)
    requires Stored(mem, out, r) && r <= 9 && x == out[r] && y == out[r + 1] && z == out[r + 2]
    modifies mem
    ensures Stored(mem, out, r + 3)
  {
    mem[r], mem[r + 1], mem[r + 2] := x, y, z;
  }

  /** The first `k` terms of `c[0]*s[i] + c[1]*s[i + 1] + ...`, with the lanes of `s` read around. */
  function Around(c: seq<nat>, s: seq<nat>, i: nat, k: nat): nat
    requires |c| == |s| == 12 && k <= 12
    decreases |s|, k
  {
    if k == 0 then 0 else Around(c, s, i, k - 1) + c[k - 1] * s[(i + k - 1) % 12]
  }

  /** Eight times lane 0, in row 0 only. */
  function Corner(s: seq<nat>, i: nat): nat
    requires |s| == 12
  {
    if i == 0 then 8 * s[0] else 0
  }

  /** The row reads `c` from its own position `i` around; the corner entry has 8 more. */
  ghost predicate ReadsAround(row: seq<nat>, c: seq<nat>, i: nat) {
    && |row| == |c| == 12 && i < 12
    && (forall k, col | 0 <= k < 12 && 0 <= col < 12 && col == (i + k) % 12 ::
          row[col] == c[k] + if i == 0 && k == 0 then 8 else 0)
  }

  lemma {:induction false} RowReadsAround(i: nat)
    requires i < 12
    ensures ReadsAround(Row(i), CIRC, i)
  {
    forall k, col | 0 <= k < 12 && 0 <= col < 12 && col == (i + k) % 12
      ensures Row(i)[col] == CIRC[k] + if i == 0 && k == 0 then 8 else 0
    {
      assert (col - i) % 12 == k;
    }
  }

  /** A term of the sum, as a term of the row. */
  lemma {:induction false} AroundTerm(row: seq<nat>, c: seq<nat>, s: seq<nat>, i: nat, k: nat, col: nat)
    requires ReadsAround(row, c, i) && |s| == 12 && k < 12 && col < 12 && col == (i + k) % 12
    ensures Around(c, s, i, k + 1) + (if k == 0 then Corner(s, i) else 0) == Around(c, s, i, k) + row[col] * s[col]
  {
    assert Around(c, s, i, k + 1) == Around(c, s, i, k) + c[k] * s[col];
    if i == 0 && k == 0 {
      assert row[col] * s[col] == c[k] * s[col] + 8 * s[col];
    }
  }

  /** Up to lane 11 the terms are those of the columns from `i` on. */
  lemma {:induction false} AroundStart(row: seq<nat>, c: seq<nat>, s: seq<nat>, i: nat, k: nat)
    requires ReadsAround(row, c, i) && |s| == 12 && 0 < k && i + k <= 12
    ensures Around(c, s, i, k) + Corner(s, i) == Dot(row, s, i + k) - Dot(row, s, i)
  {
    AroundTerm(row, c, s, i, k - 1, i + k - 1);
    DotNext(row, s, i + k - 1);
    if k > 1 {
      AroundStart(row, c, s, i, k - 1);
    } else {
      AroundNothing(c, s, i);
    }
  }

  lemma {:induction false} AroundNothing(c: seq<nat>, s: seq<nat>, i: nat)
    requires |c| == |s| == 12
    ensures Around(c, s, i, 0) == 0 && Dot(c, s, 0) == 0
  {
  }

  /** After lane 11 the columns from 0 follow. */
  lemma {:induction false} AroundRest(row: seq<nat>, c: seq<nat>, s: seq<nat>, i: nat, k: nat)
    requires ReadsAround(row, c, i) && |s| == 12 && 0 < k <= 12 <= i + k
    ensures Around(c, s, i, k) + Corner(s, i) == Dot(row, s, 12) - Dot(row, s, i) + Dot(row, s, i + k - 12)
  {
    if i + k == 12 {
      AroundStart(row, c, s, i, k);
      AroundNothing(row, s, i);
    } else {
      AroundRest(row, c, s, i, k - 1);
      AroundTerm(row, c, s, i, k - 1, i + k - 13);
      DotNext(row, s, i + k - 13);
    }
  }

  /** A row of the matrix is the circulant read from the row's own lane around, and the corner. */
  lemma {:induction false} RowIsAround(s: seq<nat>, i: nat, row: seq<nat>)
    requires |s| == 12 && i < 12 && row == Row(i)
    ensures Dot(row, s, 12) == Around(CIRC, s, i, 12) + Corner(s, i)
  {
    RowReadsAround(i);
    AroundRest(row, CIRC, s, i, 12);
  }

  /** What the matrix does to lane `i`, without naming its entries. */
  ghost predicate RotatedSums(s: seq<nat>, out: seq<nat>) {
    |s| == |out| == 12 && forall i | 0 <= i < 12 :: out[i] == (Around(CIRC, s, i, 12) + Corner(s, i)) % P
  }

  lemma {:induction false} MdsRotates(s: seq<nat>)
    requires |s| == 12
    ensures RotatedSums(s, MdsSpec(s))
  {
    forall i | 0 <= i < 12 ensures MdsSpec(s)[i] == (Around(CIRC, s, i, 12) + Corner(s, i)) % P {
      RowIsAround(s, i, Row(i));
    }
  }

  /** `mds`: four groups of three rows. */
  method Mds(mem: array<word>)
    requires mem.Length == 12 && forall i | 0 <= i < 12 :: mem[i] < P
    modifies mem
    ensures mem[..] == MdsSpec(old(mem[..])) && RotatedSums(old(mem[..]), mem[..])
  {
    var s := mem[..];
    ghost var out := MdsSpec(s);
    MdsRotates(s);
    for g := 0 to 4
      invariant Stored(mem, out, 3 * g)
    {
      var x, y, z := GroupLanes(s, 3 * g, out);
      StoreLanes(mem, 3 * g, x, y, z, out);
    }
  }

  /** One group: sum the twelve columns, then take the three lanes apart. */
  method GroupLanes(s: seq<word>, r: nat, ghost out: seq<nat>) returns (x: word, y: word, z: word)
    requires Below(s, 12, P) && r <= 9 && out == MdsSpec(s)
    ensures x == out[r] && y == out[r + 1] && z == out[r + 2]
  {
    assert Packed(s, r, 0) == 0;
    var acc := AccumulateGroup(s, r, 0, 0);
    x, y, z := ReducedLanes(s, r, acc, out);
  }

  // --- full rounds ----------------------------------------------------------------------------------------

  function SboxLayer(s: seq<nat>, rc: seq<nat>): (r: seq<nat>)
    requires |s| == |rc| == 12
    ensures |r| == 12 && forall i | 0 <= i < 12 :: r[i] == Sbox(s[i] + rc[i]) && r[i] < P
  {
    seq(12, i requires 0 <= i < 12 => Sbox(s[i] + rc[i]))
  }

  /** A full round in the field: constants, S-box on every lane, matrix. */
  function FullRound(s: seq<nat>, rc: seq<nat>): seq<nat>
    requires |s| == |rc| == 12
  {
    MdsSpec(SboxLayer(s, rc))
  }

  ghost predicate Below(s: seq<nat>, n: nat, bound: nat) {
    |s| == n && forall i | 0 <= i < n :: s[i] < bound
  }

  /** The lanes round 26 reads: all but lane 0 are reduced first. */
  function Settled(s: seq<nat>): (r: seq<nat>)
    requires |s| == 12
    ensures |r| == 12 && forall i | 0 <= i < 12 :: r[i] == if i > 0 then s[i] % P else s[i]
  {
    seq(12, i requires 0 <= i < 12 => if i > 0 then s[i] % P else s[i])
  }

  /** One lane of `gen_sbox_full_with_rc`. */
  method SboxLane(x: word, rc: nat, reduce: bool) returns (r: word)
    requires rc < TWO64 && (reduce || x < TWO64)
    ensures r == Sbox((if reduce then x % P else x) + rc) && r < P
  {
    var y := if reduce then MulModW(x, 1) else x;
    ReduceW(x);
    AddFits(y, rc);
    r := Sbox7(AddW(y, rc));
  }

  /** `gen_round`: add constants and S-box every lane in place, then the packed matrix. */
  method YulFullRound(mem: array<word>, rc: seq<nat>, reduceLanes: bool)
    requires mem.Length == 12 && Below(rc, 12, TWO64)
    requires forall i | 0 <= i < 12 :: mem[i] < TWO64 || (reduceLanes && i > 0)
    modifies mem
    ensures mem[..] == FullRound(if reduceLanes then Settled(old(mem[..])) else old(mem[..]), rc)
  {
    ghost var s := if reduceLanes then Settled(mem[..]) else mem[..];
    for i := 0 to 12
      invariant forall j | 0 <= j < i :: mem[j] == SboxLayer(s, rc)[j]
      invariant forall j | i <= j < 12 :: mem[j] == old(mem[j])
    {
      mem[i] := SboxLane(mem[i], rc[i], reduceLanes && i > 0);
    }
    assert mem[..] == SboxLayer(s, rc);
    Mds(mem);
  }

  /** `round0_packed_const_contrib`: the constant share of the four capacity lanes `cap`. */
  function CapacityShare(cap: seq<nat>, r: nat, k: nat): int
    requires |cap| == 4 && r <= 9 && k <= 4
    decreases |cap|, k
  {
    if k == 0 then 0 else CapacityShare(cap, r, k - 1) + PackedCoeff(r, 7 + k) * cap[k - 1]
  }

  /** Reordering the columns: the capacity columns first, the other eight after them. */
  ghost function Folded(s: seq<nat>, r: nat, k: nat): int
    requires |s| == 12 && r <= 9 && k <= 8
  {
    Packed(s, r, 12) - Packed(s, r, 8) + Packed(s, r, k)
  }

  lemma {:induction false} CapacityShareIsFold(s: seq<nat>, cap: seq<nat>, r: nat, k: nat)
    requires Below(s, 12, P) && |cap| == 4 && s[8..] == cap && r <= 9 && k <= 4
    ensures CapacityShare(cap, r, k) == Packed(s, r, 8 + k) - Packed(s, r, 8)
  {
    if k > 0 {
      CapacityShareIsFold(s, cap, r, k - 1);
      PackedStep(s, r, 7 + k);
      assert s[7 + k] == s[8..][k - 1];
    }
  }

  lemma {:induction false} PackedMonotone(s: seq<nat>, r: nat, k: nat)
    requires Below(s, 12, P) && r <= 9 && k <= 12
    ensures Packed(s, r, k) <= Packed(s, r, 12) < W
    decreases 12 - k
  {
    if k == 12 {
      PackedStep(s, r, 11);
    } else {
      PackedStep(s, r, k);
      PackedMonotone(s, r, k + 1);
    }
  }

  /** The accumulator of `round0` for one row group. */
  method Round0Group(s: seq<word>, cap: seq<nat>, r: nat) returns (acc: word)
    requires Below(s, 12, P) && |cap| == 4 && s[8..] == cap && r <= 9
    ensures acc == Packed(s, r, 12)
  {
    CapacityShareIsFold(s, cap, r, 4);
    PackedMonotone(s, r, 8);
    assert Packed(s, r, 0) == 0;
    acc := CapacityShare(cap, r, 4);
    for col := 0 to 8
      invariant acc == Folded(s, r, col)
    {
      PackedStep(s, r, col);
      PackedMonotone(s, r, 8);
      PackedGrows(s, r, col + 1, 8);
      MulFits(PackedCoeff(r, col), s[col]);
      AddFits(acc, MulW(PackedCoeff(r, col), s[col]));
      acc := AddW(acc, MulW(PackedCoeff(r, col), s[col]));
    }
  }

  lemma {:induction false} PackedGrows(s: seq<nat>, r: nat, a: nat, b: nat)
    requires Below(s, 12, P) && r <= 9 && a <= b <= 12
    ensures Packed(s, r, a) <= Packed(s, r, b)
    decreases b - a
  {
    if a < b {
      PackedGrows(s, r, a, b - 1);
      PackedStep(s, r, b - 1);
    }
  }

  /** `round0`: a full round on a state whose capacity lanes are zero, with their part precomputed. */
  method Round0(mem: array<word>, rc: seq<nat>)
    requires mem.Length == 12 && Below(rc, 12, TWO64)
    requires forall i | 0 <= i < 8 :: mem[i] < TWO64
    requires forall i | 8 <= i < 12 :: mem[i] == 0
    modifies mem
    ensures mem[..] == FullRound(old(mem[..]), rc)
  {
    var s, cap := Round0Lanes(mem, rc);
    Round0Groups(mem, s, cap);
  }

  /** The S-box of the eight rate lanes; the capacity lanes are those of the constants alone. */
  method Round0Lanes(mem: array<word>, rc: seq<nat>) returns (s: seq<word>, cap: seq<nat>)
    requires mem.Length == 12 && Below(rc, 12, TWO64)
    requires forall i | 0 <= i < 8 :: mem[i] < TWO64
    requires forall i | 8 <= i < 12 :: mem[i] == 0
    ensures s == SboxLayer(mem[..], rc) && |cap| == 4 && s[8..] == cap
  {
    s := [];
    for i := 0 to 8
      invariant |s| == i && forall j | 0 <= j < i :: s[j] == SboxLayer(mem[..], rc)[j]
    {
      var x := SboxLane(mem[i], rc[i], false);
      s := s + [x];
    }
    cap := [Sbox(rc[8]), Sbox(rc[9]), Sbox(rc[10]), Sbox(rc[11])];
    s := s + cap;
  }

  /** The matrix, with the capacity part of every accumulator as a constant. */
  method Round0Groups(mem: array<word>, s: seq<word>, cap: seq<nat>)
    requires mem.Length == 12 && Below(s, 12, P) && |cap| == 4 && s[8..] == cap
    modifies mem
    ensures mem[..] == MdsSpec(s)
  {
    ghost var out := MdsSpec(s);
    for g := 0 to 4
      invariant Stored(mem, out, 3 * g)
    {
      var acc := Round0Group(s, cap, 3 * g);
      var x, y, z := ReducedLanes(s, 3 * g, acc, out);
      StoreLanes(mem, 3 * g, x, y, z, out);
    }
  }
}
