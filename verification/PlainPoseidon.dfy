/**
The permutation of the emitted code against the plain one. In the plain permutation every round adds
twelve constants, applies the S-box to all lanes or to lane 0, and multiplies by the matrix. The tables
of the fast partial rounds factor the matrix below its first row and column: `Factored` says how, and
under it the two permutations are the same function.
*/
module PlainPoseidon {
  import opened Arith
  import opened MachineWords
  import opened Modular
  import opened Yul
  import opened YulPermutation

  // --- the plain permutation ------------------------------------------------------------------------------

  /** Constants on every lane, the S-box on lane 0 only. */
  function PartialLayer(s: seq<nat>, rc: seq<nat>): (r: seq<nat>)
    requires |s| == |rc| == 12
    ensures |r| == 12 && r[0] == Sbox(s[0] + rc[0]) && forall i | 1 <= i < 12 :: r[i] == s[i] + rc[i]
  {
    [Sbox(s[0] + rc[0])] + seq(11, i requires 0 <= i < 11 => s[i + 1] + rc[i + 1])
  }

  /** Round `r` of 30: rounds 4 to 25 are the partial ones. */
  ghost function PlainRound(t: Tables, s: seq<nat>, r: nat): (out: seq<nat>)
    requires InRange(t) && |s| == 12 && r < 30
    ensures |out| == 12 && forall i | 0 <= i < 12 :: out[i] < P
  {
    MdsSpec(if 4 <= r < 26 then PartialLayer(s, t.rc[r]) else SboxLayer(s, t.rc[r]))
  }

  /** The rounds from `r` up to `n`. */
  ghost function PlainRounds(t: Tables, s: seq<nat>, r: nat, n: nat): (out: seq<nat>)
    requires InRange(t) && |s| == 12 && r <= n <= 30
    ensures |out| == 12 && (n > r ==> forall i | 0 <= i < 12 :: out[i] < P)
    decreases |s|, n
  {
    if n == r then s else PlainRound(t, PlainRounds(t, s, r, n - 1), n - 1)
  }

  /** Plain Poseidon on twelve lanes: 30 rounds. */
  ghost function Poseidon(t: Tables, s: seq<nat>): (out: seq<nat>)
    requires InRange(t) && |s| == 12
    ensures |out| == 12
  {
    PlainRounds(t, s, 0, 30)
  }

  // --- what the tables factor ---------------------------------------------------------------------------------

  /** Column `j` of the matrix without its first row. */
  function LowerColumn(j: nat): (r: seq<nat>)
    requires j < 12
    ensures |r| == 11 && forall i | 0 <= i < 11 :: r[i] == Coeff(i + 1, j)
  {
    seq(11, i requires 0 <= i < 11 => Coeff(i + 1, j))
  }

  /** Row `i` of the matrix without its first column. */
  function RowTail(i: nat): (r: seq<nat>)
    requires i < 12
    ensures |r| == 11 && forall j | 0 <= j < 11 :: r[j] == Coeff(i, j + 1)
  {
    seq(11, j requires 0 <= j < 11 => Coeff(i, j + 1))
  }

  ghost predicate Square(m: seq<seq<nat>>) {
    |m| == 11 && forall i | 0 <= i < 11 :: |m[i]| == 11
  }

  function Unit(i: nat): (r: seq<nat>)
    ensures |r| == 11 && forall j | 0 <= j < 11 :: r[j] == if i == j then 1 else 0
  {
    seq(11, j => if i == j then 1 else 0)
  }

  /** `row` times the lower right block. */
  function TimesBlock(row: seq<nat>): (r: seq<nat>)
    requires |row| == 11
    ensures |r| == 11 && forall j | 0 <= j < 11 :: r[j] == Dot(row, LowerColumn(j + 1), 11)
  {
    seq(11, j requires 0 <= j < 11 => Dot(row, LowerColumn(j + 1), 11))
  }

  function Column(m: seq<seq<nat>>, j: nat): (r: seq<nat>)
    requires j < 11 && forall i | 0 <= i < |m| :: |m[i]| == 11
    ensures |r| == |m| && forall i | 0 <= i < |m| :: r[i] == m[i][j]
  {
    seq(|m|, i requires 0 <= i < |m| => m[i][j])
  }

  /** `m` is, modulo P, the block's power `n`. */
  ghost predicate IsBlockPower(m: seq<seq<nat>>, n: nat) {
    && Square(m)
    && forall i | 0 <= i < 11 :: CongAll(m[i], BlockPowerRow(i, n))
  }

  ghost predicate CongAll(x: seq<nat>, y: seq<nat>) {
    |x| == |y| && forall j | 0 <= j < |x| :: Cong(x[j], y[j], P)
  }

  /** Row `i` of the block's power `n`. */
  ghost function BlockPowerRow(i: nat, n: nat): (r: seq<nat>)
    ensures |r| == 11
  {
    if n == 0 then Unit(i) else TimesBlock(BlockPowerRow(i, n - 1))
  }

  ghost function BlockPower(n: nat): (m: seq<seq<nat>>)
    ensures Square(m) && forall i | 0 <= i < 11 :: m[i] == BlockPowerRow(i, n)
  {
    seq(11, i requires 0 <= i < 11 => BlockPowerRow(i, n))
  }

  /** The first column below the corner, times the block's power. */
  ghost predicate IsV(v: seq<nat>, n: nat) {
    |v| == 11 && forall i | 0 <= i < 11 :: Cong(v[i], Dot(BlockPowerRow(i, n), LowerColumn(0), 11), P)
  }

  /** `w` times the block's power is the first row beside the corner. */
  ghost predicate IsW(w: seq<nat>, n: nat) {
    |w| == 11 && forall j | 0 <= j < 11 :: Cong(Dot(w, Column(BlockPower(n), j), 11), Coeff(0, j + 1), P)
  }

  /** The constants the fast path still has to take back, before and after partial round `k`. */
  ghost predicate Carries(u: seq<nat>, rc: seq<nat>, prc: nat, u': seq<nat>) {
    && |u| == |rc| == |u'| == 12 && Cong(u[0], rc[0], P)
    && forall i | 0 <= i < 12 :: CarriesLane(Row(i), [0] + rc[1..], [prc] + u[1..], u'[i])
  }

  ghost predicate CarriesLane(row: seq<nat>, taken: seq<nat>, given: seq<nat>, carried: nat) {
    |row| == |taken| == |given| == 12 && Cong(carried + Dot(row, taken, 12), Dot(row, given, 12), P)
  }

  /**
  The tables of the fast partial rounds fit the matrix and the constants: the initial matrix is the
  block's power 22, `vs` and `ws` are its first column and row carried through the remaining and the
  past powers, and the constants `us`, from `first` to zeros, are carried from round to round.
  */
  ghost predicate Factored(t: Tables, us: seq<seq<nat>>) {
    && InRange(t) && |us| == 23
    && IsBlockPower(t.columns, 22)
    && (forall k | 0 <= k < 22 :: IsV(t.vs[k], 21 - k) && IsW(t.ws[k], 22 - k))
    && us[0] == t.first && us[22] == seq(12, _ => 0)
    && (forall k | 0 <= k < 22 :: Carries(us[k], t.rc[4 + k], t.prc[k], us[k + 1]))
  }

  // --- sums of products ---------------------------------------------------------------------------------------

  lemma {:induction false} DotSwap(a: seq<nat>, b: seq<nat>, k: nat)
    requires k <= |a| && k <= |b|
    ensures Dot(a, b, k) == Dot(b, a, k)
  {
    if k > 0 {
      DotSwap(a, b, k - 1);
      assert a[k - 1] * b[k - 1] == b[k - 1] * a[k - 1];
    }
  }

  lemma {:induction false} DotSplit(a: seq<nat>, b: seq<nat>, k: nat)
    requires k < |a| && k < |b|
    ensures Dot(a, b, k + 1) == a[0] * b[0] + Dot(a[1..], b[1..], k)
    decreases k
  {
    if k > 0 {
      DotSplit(a, b, k - 1);
      DotNext(a, b, k);
    } else {
      DotNext(a, b, 0);
    }
  }

  lemma {:induction false} ProductSum(x: int, y: int, m: int, z: int, b: int)
    requires x == y + m * z
    ensures x * b == y * b + m * (z * b)
  {
  }

  /** A sum of products is linear in its left factors. */
  lemma {:induction false} DotLinear(a: seq<nat>, c: seq<nat>, m: nat, d: seq<nat>, y: seq<nat>, k: nat)
    requires k <= |a| == |c| == |d| && k <= |y| && forall i | 0 <= i < k :: a[i] == c[i] + m * d[i]
    ensures Dot(a, y, k) == Dot(c, y, k) + m * Dot(d, y, k)
  {
    if k > 0 {
      DotLinear(a, c, m, d, y, k - 1);
      ProductSum(a[k - 1], c[k - 1], m, d[k - 1], y[k - 1]);
      LinearStep(m, Dot(d, y, k - 1), d[k - 1] * y[k - 1]);
    }
  }

  lemma {:induction false} LinearStep(m: nat, x: nat, y: nat)
    ensures m * (x + y) == m * x + m * y
  {
  }

  /** Two vectors with the same sum as two others. */
  lemma {:induction false} DotBalance(row: seq<nat>, a: seq<nat>, b: seq<nat>, c: seq<nat>, d: seq<nat>, k: nat)
    requires k <= |row| && k <= |a| && k <= |b| && k <= |c| && k <= |d|
    requires forall i | 0 <= i < k :: a[i] + b[i] == c[i] + d[i]
    ensures Dot(row, a, k) + Dot(row, b, k) == Dot(row, c, k) + Dot(row, d, k)
  {
    if k > 0 {
      DotBalance(row, a, b, c, d, k - 1);
      var r := row[k - 1];
      LinearStep(r, a[k - 1], b[k - 1]);
      LinearStep(r, c[k - 1], d[k - 1]);
    }
  }

  /** `(x A) y` is `x (A y)`, for the first `n` rows of `A`. */
  lemma {:induction false} Reassociate(x: seq<nat>, m: seq<seq<nat>>, y: seq<nat>, my: seq<nat>, xm: seq<nat>, n: nat)
    requires n <= |x| == |m| == |my| && |y| == |xm| == 11 && forall i | 0 <= i < |m| :: |m[i]| == 11
    requires forall i | 0 <= i < n :: my[i] == Dot(m[i], y, 11)
    requires forall j | 0 <= j < 11 :: xm[j] == Dot(x, Column(m, j), n)
    ensures Dot(x, my, n) == Dot(xm, y, 11)
    decreases n
  {
    if n == 0 {
      DotNothing(xm, y, 11);
    } else {
      var init: seq<nat> := seq(11, j requires 0 <= j < 11 => Dot(x, Column(m, j), n - 1));
      Reassociate(x, m, y, my, init, n - 1);
      DotLinear(xm, init, x[n - 1], m[n - 1], y, 11);
    }
  }

  lemma {:induction false} DotNothing(a: seq<nat>, b: seq<nat>, k: nat)
    requires k <= |a| && k <= |b| && forall i | 0 <= i < k :: a[i] == 0
    ensures Dot(a, b, k) == 0
  {
    if k > 0 {
      DotNothing(a, b, k - 1);
    }
  }

  /** Sums of products agree modulo P when the right factors do. */
  lemma {:induction false} DotCongRight(a: seq<nat>, b: seq<nat>, b': seq<nat>, k: nat)
    requires k <= |a| && k <= |b| && k <= |b'| && forall i | 0 <= i < k :: Cong(b[i], b'[i], P)
    ensures Cong(Dot(a, b, k), Dot(a, b', k), P)
  {
    DotSwap(a, b, k);
    DotSwap(a, b', k);
    DotCong(b, b', a, k);
  }

  // --- one partial round ------------------------------------------------------------------------------------------

  function Sum(p: seq<nat>, u: seq<nat>): (r: seq<nat>)
    requires |p| == |u|
    ensures |r| == |p| && forall i | 0 <= i < |p| :: r[i] == p[i] + u[i]
  {
    seq(|p|, i requires 0 <= i < |p| => p[i] + u[i])
  }

  /**
  Before the partial round with `n` rounds to go, the fast state `f` is the plain state `p` plus the
  carried constants, with the lanes above 0 multiplied by the block's power `n`.
  */
  ghost predicate Tracks(f: seq<nat>, p: seq<nat>, u: seq<nat>, n: nat) {
    && |f| == |p| == |u| == 12 && Cong(f[0], p[0] + u[0], P)
    && forall i | 0 <= i < 11 :: Cong(f[i + 1], Dot(BlockPowerRow(i, n), Sum(p, u)[1..], 11), P)
  }

  /** What both rounds multiply: `x + prc` on lane 0, plain lanes and carried constants above it. */
  function Mixed(x: nat, prc: nat, y: seq<nat>): (z: seq<nat>)
    requires |y| == 11
    ensures |z| == 12 && z[0] == x + prc && z[1..] == y
  {
    [x + prc] + y
  }

  /** The matrix takes the mixed vector to the next plain state plus the next carried constants. */
  lemma {:induction false} MixedIsNext(p: seq<nat>, u: seq<nat>, rc: seq<nat>, prc: nat, u': seq<nat>, a: seq<nat>,
                                       z: seq<nat>, i: nat)
    requires |p| == 12 && Carries(u, rc, prc, u') && i < 12
    requires a == PartialLayer(p, rc) && z == Mixed(a[0], prc, Sum(p, u)[1..])
    ensures Cong(Dot(Row(i), z, 12), MdsSpec(a)[i] + u'[i], P)
  {
    MixedBalances(p, u, rc, prc, a, z);
    RowBalance(Row(i), z, [0] + rc[1..], a, [prc] + u[1..], MdsSpec(a)[i], u'[i]);
  }

  lemma {:induction false} MixedBalances(p: seq<nat>, u: seq<nat>, rc: seq<nat>, prc: nat, a: seq<nat>, z: seq<nat>)
    requires |p| == |u| == |rc| == |a| == 12 && z == Mixed(a[0], prc, Sum(p, u)[1..])
    requires forall i | 1 <= i < 12 :: a[i] == p[i] + rc[i]
    ensures forall j | 0 <= j < 12 :: z[j] + ([0] + rc[1..])[j] == a[j] + ([prc] + u[1..])[j]
  {
    assert forall j | 1 <= j < 12 :: z[j] == z[1..][j - 1];
  }

  lemma {:induction false} RowBalance(row: seq<nat>, z: seq<nat>, c: seq<nat>, a: seq<nat>, d: seq<nat>, next: nat,
                                      carried: nat)
    requires |row| == |z| == |c| == |a| == |d| == 12 && forall j | 0 <= j < 12 :: z[j] + c[j] == a[j] + d[j]
    requires next == Dot(row, a, 12) % P && CarriesLane(row, c, d, carried)
    ensures Cong(Dot(row, z, 12), next + carried, P)
  {
    DotBalance(row, z, c, a, d, 12);
    CongMod(Dot(row, a, 12), P);
    Balance(Dot(row, z, 12), Dot(row, c, 12), Dot(row, a, 12), Dot(row, d, 12), next, carried);
  }

  lemma {:induction false} Balance(z: nat, c: nat, a: nat, d: nat, p: nat, u: nat)
    requires z + c == a + d && Cong(p, a, P) && Cong(u + c, d, P)
    ensures Cong(z, p + u, P)
  {
    CongAdd(p, a, u + c, d, P);
    CongAdd(p + (u + c), a + d, c, c, P);
  }

  /** Row `i` of the matrix on a mixed vector: the entry of its first column, and the rest. */
  lemma {:induction false} RowSplits(i: nat, z: seq<nat>)
    requires i < 12 && |z| == 12
    ensures Dot(Row(i), z, 12) == Coeff(i, 0) * z[0] + Dot(RowTail(i), z[1..], 11)
  {
    DotSplit(Row(i), z, 11);
    assert Row(i)[1..] == RowTail(i);
  }

  /** Lane 0 after a fast partial round. */
  lemma {:induction false} FirstLane(f1: seq<nat>, w: seq<nat>, y: seq<nat>, n: nat, first: nat, total: nat,
                                     tail: seq<nat>)
    requires |f1| == |y| == 11 && IsW(w, n) && tail == RowTail(0)
    requires forall i | 0 <= i < 11 :: Cong(f1[i], Dot(BlockPowerRow(i, n), y, 11), P)
    requires total == first + Dot(tail, y, 11)
    ensures Cong(first + Dot(f1, w, 11), total, P)
  {
    PowerCarries(w, y, f1, n, tail);
    SameFirst(first, Dot(f1, w, 11), Dot(tail, y, 11));
  }

  lemma {:induction false} SameFirst(first: nat, x: nat, y: nat)
    requires Cong(x, y, P)
    ensures Cong(first + x, first + y, P)
  {
    CongAdd(first, first, x, y, P);
  }

  lemma {:induction false} PowerCarries(w: seq<nat>, y: seq<nat>, f1: seq<nat>, n: nat, tail: seq<nat>)
    requires |f1| == |y| == 11 && IsW(w, n) && tail == RowTail(0)
    requires forall i | 0 <= i < 11 :: Cong(f1[i], Dot(BlockPowerRow(i, n), y, 11), P)
    ensures Cong(Dot(f1, w, 11), Dot(tail, y, 11), P)
  {
    var m := BlockPower(n);
    var my: seq<nat> := seq(11, i requires 0 <= i < 11 => Dot(m[i], y, 11));
    var wm: seq<nat> := seq(11, j requires 0 <= j < 11 => Dot(w, Column(m, j), 11));
    MatrixCarries(w, m, y, my, wm, f1, tail);
  }

  lemma {:induction false} MatrixCarries(w: seq<nat>, m: seq<seq<nat>>, y: seq<nat>, my: seq<nat>, wm: seq<nat>,
                                         f1: seq<nat>, tail: seq<nat>)
    requires Square(m) && |w| == |y| == |tail| == 11 && |my| == |wm| == 11
    requires forall i | 0 <= i < 11 :: my[i] == Dot(m[i], y, 11)
    requires forall j | 0 <= j < 11 :: wm[j] == Dot(w, Column(m, j), 11)
    requires CongAll(f1, my) && CongAll(wm, tail)
    ensures Cong(Dot(f1, w, 11), Dot(tail, y, 11), P)
  {
    DotCong(f1, my, w, 11);
    DotSwap(my, w, 11);
    Reassociate(w, m, y, my, wm, 11);
    DotCong(wm, tail, y, 11);
  }

  /** The lower right block as a matrix. */
  function Block(): (m: seq<seq<nat>>)
    ensures Square(m) && forall i | 0 <= i < 11 :: m[i] == RowTail(i + 1)
  {
    seq(11, i requires 0 <= i < 11 => RowTail(i + 1))
  }

  lemma {:induction false} BlockColumn(j: nat)
    requires j < 11
    ensures Column(Block(), j) == LowerColumn(j + 1)
  {
  }

  /** A lane above 0 after a fast partial round. */
  lemma {:induction false} OtherLane(b: seq<nat>, y: seq<nat>, z: seq<nat>, v: nat, f: nat, q: seq<nat>)
    requires |b| == |y| == |q| == 11 && |z| == 12 && z[1..] == y
    requires forall l | 0 <= l < 11 :: q[l] == Dot(Row(l + 1), z, 12)
    requires Cong(v, Dot(b, LowerColumn(0), 11), P) && Cong(f, Dot(TimesBlock(b), y, 11), P)
    ensures Cong(f + z[0] * v, Dot(b, q, 11), P)
  {
    var column, nb := LowerColumn(0), TimesBlock(b);
    BlockLane(b, y, z, q, column, nb);
    CongMul(v, Dot(b, column, 11), z[0], P);
    CongAdd(f, Dot(nb, y, 11), z[0] * v, z[0] * Dot(b, column, 11), P);
  }

  /** A row of a block power on the vector that the lower rows of the matrix give. */
  lemma {:induction false} BlockLane(b: seq<nat>, y: seq<nat>, z: seq<nat>, q: seq<nat>, column: seq<nat>, nb: seq<nat>)
    requires |b| == |y| == |q| == 11 && |z| == 12 && z[1..] == y
    requires forall l | 0 <= l < 11 :: q[l] == Dot(Row(l + 1), z, 12)
    requires column == LowerColumn(0) && nb == TimesBlock(b)
    ensures Dot(b, q, 11) == Dot(nb, y, 11) + z[0] * Dot(b, column, 11)
  {
    var ny: seq<nat> := seq(11, i requires 0 <= i < 11 => Dot(RowTail(i + 1), y, 11));
    BlockProduct(b, y, ny, nb);
    forall l | 0 <= l < 11 ensures q[l] == ny[l] + z[0] * column[l] {
      LowerRowSplits(l, z, y, column);
    }
    LinearRight(b, q, ny, z[0], column);
  }

  lemma {:induction false} LowerRowSplits(l: nat, z: seq<nat>, y: seq<nat>, column: seq<nat>)
    requires l < 11 && |z| == 12 && z[1..] == y && column == LowerColumn(0)
    ensures Dot(Row(l + 1), z, 12) == Dot(RowTail(l + 1), y, 11) + z[0] * column[l]
  {
    RowSplits(l + 1, z);
  }

  lemma {:induction false} LinearRight(b: seq<nat>, q: seq<nat>, x: seq<nat>, m: nat, y: seq<nat>)
    requires |b| == |q| == |x| == |y| == 11 && forall l | 0 <= l < 11 :: q[l] == x[l] + m * y[l]
    ensures Dot(b, q, 11) == Dot(b, x, 11) + m * Dot(b, y, 11)
  {
    DotSwap(b, q, 11);
    DotSwap(b, x, 11);
    DotSwap(b, y, 11);
    DotLinear(q, x, m, y, b, 11);
  }

  lemma {:induction false} BlockProduct(b: seq<nat>, y: seq<nat>, ny: seq<nat>, nb: seq<nat>)
    requires |b| == |y| == |ny| == 11 && nb == TimesBlock(b)
    requires forall i | 0 <= i < 11 :: ny[i] == Dot(RowTail(i + 1), y, 11)
    ensures Dot(b, ny, 11) == Dot(nb, y, 11)
  {
    forall j | 0 <= j < 11 ensures nb[j] == Dot(b, Column(Block(), j), 11) {
      BlockColumn(j);
    }
    Reassociate(b, Block(), y, ny, nb, 11);
  }

  /** A fast partial round keeps track of the plain one. */
  lemma {:induction false} RoundTracks(f: seq<nat>, p: seq<nat>, u: seq<nat>, u': seq<nat>, rc: seq<nat>, prc: nat,
                                       v: seq<nat>, w: seq<nat>, n: nat)
    requires n > 0 && Tracks(f, p, u, n) && Carries(u, rc, prc, u') && IsV(v, n - 1) && IsW(w, n)
    ensures Tracks(EagerPartial(f, prc, v, w), MdsSpec(PartialLayer(p, rc)), u', n - 1)
  {
    var a := PartialLayer(p, rc);
    var z := Mixed(a[0], prc, Sum(p, u)[1..]);
    CongAdd(u[0], rc[0], p[0], p[0], P);
    SboxCong(f[0], p[0] + rc[0]);
    CongMod(Sbox(f[0]) + prc, P);
    var p' := MdsSpec(a);
    forall i | 0 <= i < 12 ensures NextLane(z, p', u', i) {
      MixedIsNext(p, u, rc, prc, u', a, z, i);
    }
    LanesTrack(f, Sum(p, u)[1..], z, (Sbox(f[0]) + prc) % P, v, w, n, EagerPartial(f, prc, v, w), p', u');
  }

  ghost predicate NextLane(z: seq<nat>, p': seq<nat>, u': seq<nat>, i: nat) {
    |z| == |p'| == |u'| == 12 && i < 12 && Cong(Dot(Row(i), z, 12), p'[i] + u'[i], P)
  }

  /** What `EagerPartial` makes of the lanes, from the value `s0` after its S-box. */
  ghost predicate IsPartial(f: seq<nat>, s0: nat, v: seq<nat>, w: seq<nat>, f': seq<nat>) {
    && |f| == |f'| == 12 && |v| == |w| == 11
    && f'[0] == (Coeff(0, 0) * s0 + Dot(f[1..], w, 11)) % P
    && forall i | 0 <= i < 11 :: f'[i + 1] == (f[i + 1] + s0 * v[i]) % P
  }

  /** The lanes above 0 are the block's power `n` times `y`. */
  ghost predicate LanesAre(f1: seq<nat>, y: seq<nat>, n: nat) {
    |f1| == |y| == 11 && forall i | 0 <= i < 11 :: Cong(f1[i], Dot(BlockPowerRow(i, n), y, 11), P)
  }

  lemma {:induction false} LanesTrack(f: seq<nat>, y: seq<nat>, z: seq<nat>, s0: nat, v: seq<nat>, w: seq<nat>, n: nat,
                                      f': seq<nat>, p': seq<nat>, u': seq<nat>)
    requires n > 0 && IsPartial(f, s0, v, w, f') && IsV(v, n - 1) && IsW(w, n) && LanesAre(f[1..], y, n)
    requires |z| == 12 && z[1..] == y && Cong(s0, z[0], P) && forall i | 0 <= i < 12 :: NextLane(z, p', u', i)
    ensures Tracks(f', p', u', n - 1)
  {
    assert NextLane(z, p', u', 0);
    FirstTracks(f[1..], y, z, s0, w, n, f'[0], p'[0] + u'[0], Row(0), Coeff(0, 0));
    var y' := Sum(p', u')[1..];
    var m := n - 1;
    forall i | 0 <= i < 11 ensures Cong(f'[i + 1], Dot(BlockPowerRow(i, m), y', 11), P) {
      assert Cong(f[1..][i], Dot(BlockPowerRow(i, n), y, 11), P);
      LaneTracks(BlockPowerRow(i, m), y, z, s0, v[i], f[i + 1], p', u');
    }
  }

  lemma {:induction false} FirstTracks(f1: seq<nat>, y: seq<nat>, z: seq<nat>, s0: nat, w: seq<nat>, n: nat, f0: nat,
                                       next: nat, row: seq<nat>, corner: nat)
    requires LanesAre(f1, y, n) && IsW(w, n) && |z| == 12 && z[1..] == y && Cong(s0, z[0], P)
    requires row == Row(0) && corner == row[0]
    requires f0 == (corner * s0 + Dot(f1, w, 11)) % P && Cong(Dot(row, z, 12), next, P)
    ensures Cong(f0, next, P)
  {
    FirstTail(row, row[1..]);
    DotSplit(row, z, 11);
    FirstLane(f1, w, y, n, corner * z[0], Dot(row, z, 12), row[1..]);
    FirstIsNext(corner, s0, z[0], Dot(f1, w, 11), Dot(row, z, 12), next);
  }

  lemma {:induction false} FirstTail(row: seq<nat>, tail: seq<nat>)
    requires row == Row(0) && tail == row[1..]
    ensures tail == RowTail(0)
  {
  }

  lemma {:induction false} LaneTracks(b: seq<nat>, y: seq<nat>, z: seq<nat>, s0: nat, v: nat, f: nat, p': seq<nat>,
                                      u': seq<nat>)
    requires |b| == |y| == 11 && |z| == 12 && z[1..] == y && Cong(s0, z[0], P)
    requires forall i | 0 <= i < 12 :: NextLane(z, p', u', i)
    requires Cong(v, Dot(b, LowerColumn(0), 11), P) && Cong(f, Dot(TimesBlock(b), y, 11), P)
    ensures |p'| == |u'| == 12 && Cong((f + s0 * v) % P, Dot(b, Sum(p', u')[1..], 11), P)
  {
    assert NextLane(z, p', u', 0);
    var q: seq<nat> := seq(11, l requires 0 <= l < 11 => Dot(Row(l + 1), z, 12));
    var y' := Sum(p', u')[1..];
    OtherLane(b, y, z, v, f, q);
    forall l | 0 <= l < 11 ensures Cong(q[l], y'[l], P) {
      assert NextLane(z, p', u', l + 1);
    }
    DotCongRight(b, q, y', 11);
    LaneIsNext(f, s0, z[0], v, Dot(b, q, 11), Dot(b, y', 11));
  }

  lemma {:induction false} FirstIsNext(corner: nat, s0: nat, z0: nat, fw: nat, row: nat, next: nat)
    requires Cong(s0, z0, P) && Cong(corner * z0 + fw, row, P) && Cong(row, next, P)
    ensures Cong((corner * s0 + fw) % P, next, P)
  {
    CongMul(s0, z0, corner, P);
    CongAdd(corner * s0, corner * z0, fw, fw, P);
    CongMod(corner * s0 + fw, P);
  }

  lemma {:induction false} LaneIsNext(f: nat, s0: nat, z0: nat, v: nat, mid: nat, next: nat)
    requires Cong(s0, z0, P) && Cong(f + z0 * v, mid, P) && Cong(mid, next, P)
    ensures Cong((f + s0 * v) % P, next, P)
  {
    CongMul(s0, z0, v, P);
    CongAdd(f, f, s0 * v, z0 * v, P);
    CongMod(f + s0 * v, P);
  }

  // --- all partial rounds, and the permutation ----------------------------------------------------------------

  lemma {:induction false} StartTracks(t: Tables, us: seq<seq<nat>>, s: seq<nat>)
    requires Factored(t, us) && |s| == 12
    ensures Tracks(PartialRounds(t, s, 0), s, us[0], 22)
  {
    var first, y := EagerFirst(s, t.first), Sum(s, us[0])[1..];
    CongMod(s[0] + t.first[0], P);
    forall j | 0 <= j < 11 ensures Cong(first[1..][j], y[j], P) {
      CongMod(s[j + 1] + t.first[j + 1], P);
    }
    var f := EagerInit(first, t.columns);
    forall i | 0 <= i < 11 ensures Cong(f[i + 1], Dot(BlockPowerRow(i, 22), y, 11), P) {
      assert CongAll(t.columns[i], BlockPowerRow(i, 22));
      StartLane(first[1..], y, t.columns[i], BlockPowerRow(i, 22));
    }
  }

  lemma {:induction false} StartLane(x: seq<nat>, y: seq<nat>, col: seq<nat>, b: seq<nat>)
    requires |x| == |y| == |col| == |b| == 11 && CongAll(x, y) && CongAll(col, b)
    ensures Cong(Dot(x, col, 11) % P, Dot(b, y, 11), P)
  {
    DotCong(x, y, col, 11);
    DotCongRight(y, col, b, 11);
    DotSwap(y, b, 11);
    CongMod(Dot(x, col, 11), P);
  }

  lemma {:induction false} NextRounds(t: Tables, s: seq<nat>, k: nat)
    requires InRange(t) && |s| == 12 && k < 22
    ensures PartialRounds(t, s, k + 1) == EagerPartial(PartialRounds(t, s, k), t.prc[k], t.vs[k], t.ws[k])
    ensures PlainRounds(t, s, 4, 5 + k) == MdsSpec(PartialLayer(PlainRounds(t, s, 4, 4 + k), t.rc[4 + k]))
  {
  }

  lemma {:induction false} NextTracks(t: Tables, us: seq<seq<nat>>, k: nat, f: seq<nat>, p: seq<nat>)
    requires Factored(t, us) && k < 22 && Tracks(f, p, us[k], 22 - k)
    ensures Tracks(EagerPartial(f, t.prc[k], t.vs[k], t.ws[k]), MdsSpec(PartialLayer(p, t.rc[4 + k])), us[k + 1],
                   21 - k)
  {
    RoundTracks(f, p, us[k], us[k + 1], t.rc[4 + k], t.prc[k], t.vs[k], t.ws[k], 22 - k);
  }

  lemma {:induction false} PartialTracks(t: Tables, us: seq<seq<nat>>, s: seq<nat>, k: nat)
    requires Factored(t, us) && |s| == 12 && k <= 22
    ensures Tracks(PartialRounds(t, s, k), PlainRounds(t, s, 4, 4 + k), us[k], 22 - k)
  {
    if k == 0 {
      StartTracks(t, us, s);
    } else {
      PartialTracks(t, us, s, k - 1);
      NextRounds(t, s, k - 1);
      NextTracks(t, us, k - 1, PartialRounds(t, s, k - 1), PlainRounds(t, s, 4, 3 + k));
    }
  }

  lemma {:induction false} DotUnit(i: nat, y: seq<nat>, k: nat)
    requires i < 11 && |y| == 11 && k <= 11
    ensures Dot(Unit(i), y, k) == if i < k then y[i] else 0
  {
    if k > 0 {
      DotUnit(i, y, k - 1);
    }
  }

  /** With no rounds and no constants to go, the two states are equal. */
  lemma {:induction false} TracksAtEnd(f: seq<nat>, p: seq<nat>, u: seq<nat>)
    requires Tracks(f, p, u, 0) && forall i | 0 <= i < 12 :: f[i] < P && p[i] < P && u[i] == 0
    ensures f == p
  {
    forall i | 0 <= i < 12 ensures f[i] == p[i] {
      SmallIsItsRemainder(f[i], P);
      SmallIsItsRemainder(p[i], P);
      if i > 0 {
        DotUnit(i - 1, Sum(p, u)[1..], 11);
        assert Cong(f[(i - 1) + 1], Dot(BlockPowerRow(i - 1, 0), Sum(p, u)[1..], 11), P);
      }
    }
  }

  /** The fast partial rounds are the plain ones. */
  lemma {:induction false} FastIsPlain(t: Tables, us: seq<seq<nat>>, s: seq<nat>)
    requires Factored(t, us) && |s| == 12
    ensures PartialRounds(t, s, 22) == PlainRounds(t, s, 4, 26)
  {
    PartialTracks(t, us, s, 22);
    TracksAtEnd(PartialRounds(t, s, 22), PlainRounds(t, s, 4, 26), us[22]);
  }

  lemma {:induction false} FullIsPlain(t: Tables, s: seq<nat>, r: nat, n: nat)
    requires InRange(t) && |s| == 12 && r <= n <= 30 && (n <= 4 || 26 <= r)
    ensures FullRounds(t, s, r, n) == PlainRounds(t, s, r, n)
    decreases n
  {
    if r < n {
      FullIsPlain(t, s, r, n - 1);
    }
  }

  lemma {:induction false} RoundsJoin(t: Tables, s: seq<nat>, r: nat, m: nat, n: nat)
    requires InRange(t) && |s| == 12 && r <= m <= n <= 30
    ensures PlainRounds(t, PlainRounds(t, s, r, m), m, n) == PlainRounds(t, s, r, n)
    decreases n
  {
    if m < n {
      RoundsJoin(t, s, r, m, n - 1);
    }
  }

  /** Factored tables make the emitted permutation plain Poseidon. */
  lemma {:induction false} PermutationIsPoseidon(t: Tables, us: seq<seq<nat>>, s: seq<nat>)
    requires Factored(t, us) && |s| == 12
    ensures Permutation(t, s) == Poseidon(t, s)
  {
    FullIsPlain(t, s, 0, 4);
    var a := PlainRounds(t, s, 0, 4);
    MiddleIsPlain(t, us, a);
    RoundsJoin(t, s, 0, 4, 30);
  }

  lemma {:induction false} MiddleIsPlain(t: Tables, us: seq<seq<nat>>, a: seq<nat>)
    requires Factored(t, us) && |a| == 12
    ensures FullRounds(t, PartialRounds(t, a, 22), 26, 30) == PlainRounds(t, a, 4, 30)
  {
    FastIsPlain(t, us, a);
    FullIsPlain(t, PlainRounds(t, a, 4, 26), 26, 30);
    RoundsJoin(t, a, 4, 26, 30);
  }
}
