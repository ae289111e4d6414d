/**
The 22 fast partial rounds, whose lanes 1 to 11 stay unreduced, and the whole `compress` function:
eight full rounds around the partial block, on 256-bit words, against the permutation that reduces
every lane at every step.
*/
module YulPermutation {
  import opened Arith
  import opened MachineWords
  import opened Modular
  import opened BitOps
  import opened Encoding
  import opened Yul

  const TWO129: nat := 0x2_0000_0000_0000_0000_0000_0000_0000_0000

  // --- packed 64-bit constants ------------------------------------------------------------------------

  lemma {:induction false} Pow2Words()
    ensures Pow2(64) == TWO64 && Pow2(128) == TWO128 && Pow2(192) == TWO192
  {
    Pow2Of64();
    Pow2Adds(64, 64);
    assert Pow2(128) == TWO64 * TWO64;
    Pow2Adds(64, 128);
  }

  /** Four 64-bit values side by side. */
  function Join(a: nat, b: nat, c: nat, d: nat): nat {
    a + TWO64 * b + TWO128 * c + TWO192 * d
  }

  lemma {:induction false} OrAbove(x: nat, y: nat, shifted: nat, k: nat, p: nat)
    requires p == Pow2(k) && x < p && shifted == p * y
    ensures BitOr(x, shifted) == x + shifted
  {
    assert shifted == y * Pow2(k);
    BitOrDisjoint(x, y, k);
  }

  /** `or`-ing shifted values that do not overlap joins them. */
  lemma {:induction false} OrJoins(a: nat, b: nat, c: nat, d: nat)
    requires a < TWO64 && b < TWO64 && c < TWO64 && d < TWO64
    ensures BitOr(BitOr(BitOr(a, TWO64 * b), TWO128 * c), TWO192 * d) == Join(a, b, c, d) < W
  {
    Pow2Words();
    OrAbove(a, b, TWO64 * b, 64, TWO64);
    OrAbove(a + TWO64 * b, c, TWO128 * c, 128, TWO128);
    OrAbove(a + TWO64 * b + TWO128 * c, d, TWO192 * d, 192, TWO192);
  }

  /** Shifting and masking takes them apart again. */
  lemma {:induction false} JoinSplits(a: nat, b: nat, c: nat, d: nat)
    requires a < TWO64 && b < TWO64 && c < TWO64 && d < TWO64
    ensures var w := Join(a, b, c, d);
            w % TWO64 == a && (w / TWO64) % TWO64 == b && (w / TWO128) % TWO64 == c && (w / TWO192) % TWO64 == d
    ensures Join(a, b, c, d) / TWO192 == d
  {
    var w := Join(a, b, c, d);
    DivModUnique(w, b + TWO64 * c + TWO128 * d, a, TWO64);
    DivModUnique(b + TWO64 * c + TWO128 * d, c + TWO64 * d, b, TWO64);
    DivModUnique(w, c + TWO64 * d, a + TWO64 * b, TWO128);
    DivModUnique(c + TWO64 * d, d, c, TWO64);
    DivModUnique(w, d, a + TWO64 * b + TWO128 * c, TWO192);
    SmallIsItsRemainder(d, TWO64);
  }

  function At(values: seq<nat>, i: nat): nat {
    if i < |values| then values[i] else 0
  }

  /** `pack_u64_words`: up to four values per word. */
  method PackU64Words(values: seq<nat>) returns (words: seq<word>)
    requires forall i | 0 <= i < |values| :: values[i] < TWO64
    ensures |words| == (|values| + 3) / 4
    ensures forall i | 0 <= i < |words| ::
              words[i] == Join(At(values, 4 * i), At(values, 4 * i + 1), At(values, 4 * i + 2), At(values, 4 * i + 3))
  {
    words := [];
    var i := 0;
    while i < |values|
      invariant i == 4 * |words| && |words| <= (|values| + 3) / 4
      invariant forall j | 0 <= j < |words| ::
              words[j] == Join(At(values, 4 * j), At(values, 4 * j + 1), At(values, 4 * j + 2), At(values, 4 * j + 3))
    {
      var a, b, c, d := At(values, i), At(values, i + 1), At(values, i + 2), At(values, i + 3);
      OrJoins(a, b, c, d);
      words := words + [BitOr(BitOr(BitOr(a, TWO64 * b), TWO128 * c), TWO192 * d)];
      i := i + 4;
    }
  }

  /** The shift and mask a call site of `fast_partial_round` uses for one lane. */
  function UnpackLane(words: seq<word>, lane: nat): (v: nat)
    requires lane / 4 < |words|
    ensures v < TWO64
  {
    var w := words[lane / 4];
    match lane % 4
    case 0 => w % TWO64
    case 1 => (w / TWO64) % TWO64
    case 2 => (w / TWO128) % TWO64
    case _ => (w / TWO192) % TWO64
  }

  ghost predicate IsPacked(words: seq<word>, values: seq<nat>) {
    && |words| == 3 && |values| == 11
    && (forall i | 0 <= i < 11 :: UnpackLane(words, i) == values[i] < TWO64)
  }

  /** Packing and unpacking is the identity. */
  lemma {:induction false} PackedLanes(values: seq<nat>, words: seq<word>, lane: nat)
    requires |values| == 11 && |words| == 3 && lane < 11
    requires forall i | 0 <= i < |values| :: values[i] < TWO64
    requires forall i | 0 <= i < |words| ::
               words[i] == Join(At(values, 4 * i), At(values, 4 * i + 1), At(values, 4 * i + 2), At(values, 4 * i + 3))
    ensures UnpackLane(words, lane) == values[lane]
  {
    var i := lane / 4;
    JoinSplits(At(values, 4 * i), At(values, 4 * i + 1), At(values, 4 * i + 2), At(values, 4 * i + 3));
    assert lane == 4 * i + lane % 4;
  }

  // --- the eager partial rounds --------------------------------------------------------------------------

  function EagerFirst(s: seq<nat>, first: seq<nat>): (r: seq<nat>)
    requires |s| == |first| == 12
    ensures |r| == 12 && forall i | 0 <= i < 12 :: r[i] == (s[i] + first[i]) % P && r[i] < P
  {
    seq(12, i requires 0 <= i < 12 => (s[i] + first[i]) % P)
  }

  ghost predicate MatrixInRange(columns: seq<seq<nat>>) {
    && |columns| == 11
    && (forall c | 0 <= c < 11 :: |columns[c]| == 11)
    && (forall c, r | 0 <= c < 11 && 0 <= r < 11 :: columns[c][r] < TWO64)
  }

  /** `columns[c]` is the column of the initial matrix that makes lane `c + 1`. */
  function EagerInit(s: seq<nat>, columns: seq<seq<nat>>): (r: seq<nat>)
    requires |s| == 12 && |columns| == 11 && forall c | 0 <= c < 11 :: |columns[c]| == 11
    ensures |r| == 12 && r[0] == s[0]
    ensures forall c | 0 <= c < 11 :: r[c + 1] == Dot(s[1..], columns[c], 11) % P && r[c + 1] < P
  {
    [s[0]] + seq(11, c requires 0 <= c < 11 => Dot(s[1..], columns[c], 11) % P)
  }

  /** One partial round, every lane reduced. */
  function EagerPartial(s: seq<nat>, rc: nat, v: seq<nat>, w: seq<nat>): (r: seq<nat>)
    requires |s| == 12 && |v| == |w| == 11
    ensures |r| == 12 && (forall i | 0 <= i < 12 :: r[i] < P)
    ensures var s0 := (Sbox(s[0]) + rc) % P;
            && r[0] == (Coeff(0, 0) * s0 + Dot(s[1..], w, 11)) % P
            && forall i | 0 <= i < 11 :: r[i + 1] == (s[i + 1] + s0 * v[i]) % P
  {
    var s0 := (Sbox(s[0]) + rc) % P;
    [(Coeff(0, 0) * s0 + Dot(s[1..], w, 11)) % P] + seq(11, i requires 0 <= i < 11 => (s[i + 1] + s0 * v[i]) % P)
  }

  // --- the lazy ones --------------------------------------------------------------------------------------

  /** The lazy state agrees with the eager one modulo P and keeps its bounds. */
  ghost predicate Agrees(lazy: seq<nat>, eager: seq<nat>, bound: nat) {
    && |lazy| == |eager| == 12
    && (forall i | 0 <= i < 12 :: Cong(lazy[i], eager[i], P) && eager[i] < P)
    && lazy[0] < TWO65
    && (forall i | 1 <= i < 12 :: lazy[i] <= bound)
  }

  /** How large an unreduced lane can be after `k` partial rounds. */
  function LaneLimit(k: nat): nat {
    (11 + k) * TWO129
  }

  /** `gen_partial_first_constant_layer` */
  method FirstConstants(mem: array<word>, first: seq<nat>)
    requires mem.Length == 12 && Below(first, 12, TWO64) && Below(mem[..], 12, P)
    modifies mem
    ensures Agrees(mem[..], EagerFirst(old(mem[..]), first), TWO65 - 1)
  {
    for i := 0 to 12
      invariant forall j | 0 <= j < i :: mem[j] == old(mem[j]) as int + first[j]
      invariant forall j | i <= j < 12 :: mem[j] == old(mem[j])
    {
      AddFits(mem[i], first[i]);
      mem[i] := AddW(mem[i], first[i]);
    }
    ghost var was := old(mem[..]);
    forall i | 0 <= i < 12
      ensures mem[..][i] < TWO65 && Cong(mem[..][i], EagerFirst(was, first)[i], P)
    {
      CongMod(was[i] + first[i], P);
    }
  }

  /** A sum of products that fits, by wrapping additions. */
  method DotW(a: seq<word>, b: seq<nat>, x: nat) returns (acc: word)
    requires |a| == |b| == 11 && (forall i | 0 <= i < 11 :: a[i] <= x && b[i] < TWO64)
    requires 11 * (x * TWO64) < W
    ensures acc == Dot(a, b, 11)
  {
    acc := 0;
    for k := 0 to 11
      invariant acc == Dot(a, b, k)
    {
      DotNext(a, b, k);
      DotBound(a, b, k + 1, x, TWO64);
      MulMono(k + 1, 11, x * TWO64);
      MulMono(0, a[k], b[k]);
      MulFits(a[k], b[k]);
      AddFits(acc, MulW(a[k], b[k]));
      acc := AddW(acc, MulW(a[k], b[k]));
    }
  }

  /** `mds_partial_init`: eleven sums of products, left unreduced. */
  method MdsPartialInit(mem: array<word>, columns: seq<seq<nat>>, ghost eager: seq<nat>)
    requires mem.Length == 12 && MatrixInRange(columns)
    requires Agrees(mem[..], eager, TWO65 - 1)
    modifies mem
    ensures Agrees(mem[..], EagerInit(eager, columns), LaneLimit(0))
  {
    var s := mem[1..];
    for c := 0 to 11
      invariant mem[0] == old(mem[0])
      invariant forall j | 0 <= j < c :: mem[j + 1] == Dot(s, columns[j], 11)
    {
      var acc := DotW(s, columns[c], TWO65 - 1);
      mem[c + 1] := acc;
    }
    forall i | 1 <= i < 12
      ensures mem[i] <= LaneLimit(0) && Cong(mem[i], EagerInit(eager, columns)[i], P)
    {
      var c := i - 1;
      assert mem[c + 1] == Dot(s, columns[c], 11);
      DotBound(s, columns[c], 11, TWO65, TWO64);
      DotCong(s, eager[1..], columns[c], 11);
      CongMod(Dot(eager[1..], columns[c], 11), P);
    }
  }

  /** Everything one lane of a partial round computes fits in a word. */
  lemma {:induction false} PartialFits(s: seq<nat>, w: seq<nat>, i: nat, s0: nat, v: nat)
    requires |s| == |w| == 11 && i < 11 && s0 < TWO65 && v < TWO64
    requires forall j | 0 <= j < 11 :: s[j] <= LaneLimit(21) && w[j] < TWO64
    ensures 0 <= s[i] * w[i] && 25 * s0 + Dot(s, w, i + 1) < W
    ensures Dot(s, w, i + 1) == Dot(s, w, i) + s[i] * w[i]
    ensures 0 <= s0 * v <= TWO129 && s[i] + s0 * v < W
  {
    DotNext(s, w, i);
    DotBound(s, w, i + 1, LaneLimit(21), TWO64);
    MulMono(i + 1, 11, LaneLimit(21) * TWO64);
    ProductBound(s0, v, TWO65, TWO64);
    MulMono(0, s[i], w[i]);
    MulMono(0, s0, v);
  }

  /** One lane of `fast_partial_round`: accumulate into `d` and update the lane. */
  method PartialLane(d: word, si: word, s0: word, wi: nat, vi: nat, ghost s: seq<nat>, ghost w: seq<nat>, ghost i: nat)
    returns (d': word, lane: word)
    requires |s| == |w| == 11 && i < 11 && s0 < TWO65 && vi < TWO64
    requires forall j | 0 <= j < 11 :: s[j] <= LaneLimit(21) && w[j] < TWO64
    requires si == s[i] && wi == w[i] && d == 25 * s0 + Dot(s, w, i)
    ensures d' == 25 * s0 + Dot(s, w, i + 1)
    ensures lane == s[i] + s0 * vi
  {
    PartialFits(s, w, i, s0, vi);
    MulFits(si, wi);
    AddFits(d, MulW(si, wi));
    d' := AddW(d, MulW(si, wi));
    MulFits(s0, vi);
    AddFits(si, MulW(s0, vi));
    lane := AddW(si, MulW(s0, vi));
  }

  /** Lanes 1 up to `lane` have been updated, and `d` holds their products. */
  ghost predicate InRound(mem: array<word>, s: seq<nat>, s0: nat, v: seq<nat>, w: seq<nat>, lane: nat, d: nat)
    reads mem
  {
    && mem.Length == 12 && |s| == |v| == |w| == 11 && 1 <= lane <= 12
    && (forall j | lane <= j < 12 :: mem[j] == s[j - 1])
    && (forall j | 1 <= j < lane :: mem[j] == s[j - 1] + s0 * v[j - 1])
    && d == 25 * s0 + Dot(s, w, lane - 1)
  }

  /** One lane in place. */
  method UpdateLane(mem: array<word>, lane: nat, d: word, s0: word, wi: nat, vi: nat,
                    ghost s: seq<nat>, ghost v: seq<nat>, ghost w: seq<nat>) returns (d': word)
    requires InRound(mem, s, s0, v, w, lane, d) && lane < 12 && s0 < TWO65
    requires wi == w[lane - 1] && vi == v[lane - 1] < TWO64
    requires forall j | 0 <= j < 11 :: s[j] <= LaneLimit(21) && w[j] < TWO64
    modifies mem
    ensures InRound(mem, s, s0, v, w, lane + 1, d')
  {
    var y;
    d', y := PartialLane(d, mem[lane], s0, wi, vi, s, w, lane - 1);
    mem[lane] := y;
  }

  /** `fast_partial_round`: lane 0 is reduced, the others only grow. */
  method FastPartialRound(mem: array<word>, rc: nat, vWords: seq<word>, wWords: seq<word>,
                          ghost v: seq<nat>, ghost w: seq<nat>, ghost eager: seq<nat>, ghost k: nat)
    requires mem.Length == 12 && rc < TWO64 && k < 22
    requires IsPacked(vWords, v) && IsPacked(wWords, w)
    requires Agrees(mem[..], eager, LaneLimit(k))
    modifies mem
    ensures Agrees(mem[..], EagerPartial(eager, rc, v, w), LaneLimit(k + 1)) && mem[0] < P
  {
    ghost var s: seq<nat> := mem[1..];
    var x := Sbox7(mem[0]);
    AddFits(x, rc);
    var s0 := AddW(x, rc);
    MulFits(25, s0);
    var d := MulW(25, s0);
    for lane := 1 to 12
      invariant InRound(mem, s, s0, v, w, lane, d)
    {
      d := UpdateLane(mem, lane, d, s0, UnpackLane(wWords, lane - 1), UnpackLane(vWords, lane - 1), s, v, w);
    }
    ReduceW(d);
    mem[0] := MulModW(d, 1);
    RoundAgrees(old(mem[..]), eager, rc, v, w, s, s0, mem[..], k);
  }

  lemma {:induction false} RoundAgrees(was: seq<nat>, eager: seq<nat>, rc: nat, v: seq<nat>, w: seq<nat>,
                                       s: seq<nat>, s0: nat, now: seq<nat>, k: nat)
    requires Agrees(was, eager, LaneLimit(k)) && |v| == |w| == 11 && s == was[1..]
    requires rc < TWO64 && forall i | 0 <= i < 11 :: v[i] < TWO64
    requires s0 == Sbox(was[0]) + rc && |now| == 12
    requires now[0] == (25 * s0 + Dot(s, w, 11)) % P
    requires forall j | 1 <= j < 12 :: now[j] == s[j - 1] + s0 * v[j - 1]
    ensures Agrees(now, EagerPartial(eager, rc, v, w), LaneLimit(k + 1))
  {
    var e0 := (Sbox(eager[0]) + rc) % P;
    var next := EagerPartial(eager, rc, v, w);
    SboxCong(was[0], eager[0]);
    CongMod(s0, P);
    assert Cong(s0, e0, P);
    DotCong(s, eager[1..], w, 11);
    CongMul(s0, e0, 25, P);
    CongAdd(25 * s0, 25 * e0, Dot(s, w, 11), Dot(eager[1..], w, 11), P);
    assert now[0] == next[0];
    forall j | 1 <= j < 12 ensures Cong(now[j], next[j], P) && now[j] <= LaneLimit(k + 1) {
      LaneAgrees(s[j - 1], eager[j], s0, e0, v[j - 1], k);
      assert next[(j - 1) + 1] == (eager[(j - 1) + 1] + e0 * v[j - 1]) % P;
    }
  }

  lemma {:induction false} LaneAgrees(si: nat, ei: nat, s0: nat, e0: nat, vi: nat, k: nat)
    requires Cong(si, ei, P) && Cong(s0, e0, P) && si <= LaneLimit(k) && s0 < TWO65 && vi < TWO64
    ensures Cong(si + s0 * vi, (ei + e0 * vi) % P, P)
    ensures si + s0 * vi <= LaneLimit(k + 1)
  {
    CongMul(s0, e0, vi, P);
    CongAdd(si, ei, s0 * vi, e0 * vi, P);
    CongMod(ei + e0 * vi, P);
    ProductBound(s0, vi, TWO65, TWO64);
  }

  // --- the whole permutation --------------------------------------------------------------------------------

  /** The generator's tables; only their ranges matter. */
  datatype Tables = Tables(
    rc: seq<seq<nat>>,
    first: seq<nat>,
    columns: seq<seq<nat>>,
    prc: seq<nat>,
    vs: seq<seq<nat>>,
    ws: seq<seq<nat>>)

  ghost predicate InRange(t: Tables) {
    && |t.rc| == 30 && (forall r | 0 <= r < 30 :: Below(t.rc[r], 12, TWO64))
    && Below(t.first, 12, TWO64) && MatrixInRange(t.columns) && Below(t.prc, 22, TWO64)
    && |t.vs| == |t.ws| == 22
    && (forall k | 0 <= k < 22 :: Below(t.vs[k], 11, TWO64) && Below(t.ws[k], 11, TWO64))
  }

  /** The full rounds numbered from `r` up to `n`, in the field. */
  ghost function FullRounds(t: Tables, s: seq<nat>, r: nat, n: nat): (out: seq<nat>)
    requires InRange(t) && |s| == 12 && r <= n <= 30
    ensures |out| == 12
    decreases |s|, n
  {
    if n == r then s else FullRound(FullRounds(t, s, r, n - 1), t.rc[n - 1])
  }

  /** The first `k` partial rounds, in the field. */
  ghost function PartialRounds(t: Tables, s: seq<nat>, k: nat): (out: seq<nat>)
    requires InRange(t) && |s| == 12 && k <= 22
    ensures |out| == 12
    decreases |s|, k
  {
    if k == 0 then EagerInit(EagerFirst(s, t.first), t.columns)
    else EagerPartial(PartialRounds(t, s, k - 1), t.prc[k - 1], t.vs[k - 1], t.ws[k - 1])
  }

  /** The permutation with every lane reduced at every step. */
  ghost function Permutation(t: Tables, s: seq<nat>): (out: seq<nat>)
    requires InRange(t) && |s| == 12
    ensures |out| == 12
  {
    FullRounds(t, PartialRounds(t, FullRounds(t, s, 0, 4), 22), 26, 30)
  }

  /** The partial block as emitted: constants, initial matrix, 22 lazy rounds. */
  method PartialBlock(mem: array<word>, t: Tables)
    requires InRange(t) && mem.Length == 12 && Below(mem[..], 12, P)
    modifies mem
    ensures Agrees(mem[..], PartialRounds(t, old(mem[..]), 22), LaneLimit(22)) && mem[0] < P
  {
    ghost var s: seq<nat> := mem[..];
    FirstConstants(mem, t.first);
    MdsPartialInit(mem, t.columns, EagerFirst(s, t.first));
    for k := 0 to 22
      invariant Agrees(mem[..], PartialRounds(t, s, k), LaneLimit(k)) && (k > 0 ==> mem[0] < P)
    {
      var vWords := PackRow(t.vs[k]);
      var wWords := PackRow(t.ws[k]);
      FastPartialRound(mem, t.prc[k], vWords, wWords, t.vs[k], t.ws[k], PartialRounds(t, s, k), k);
    }
  }

  method PackRow(values: seq<nat>) returns (words: seq<word>)
    requires Below(values, 11, TWO64)
    ensures IsPacked(words, values)
  {
    words := PackU64Words(values);
    forall i | 0 <= i < 11 ensures UnpackLane(words, i) == values[i] {
      PackedLanes(values, words, i);
    }
  }

  /** A run of full rounds on canonical lanes. */
  method YulFullRounds(mem: array<word>, t: Tables, ghost s: seq<nat>, ghost from: nat, lo: nat, hi: nat)
    requires InRange(t) && mem.Length == 12 && |s| == 12 && from <= lo <= hi <= 30
    requires mem[..] == FullRounds(t, s, from, lo) && Below(mem[..], 12, P)
    modifies mem
    ensures mem[..] == FullRounds(t, s, from, hi) && Below(mem[..], 12, P)
  {
    for r := lo to hi
      invariant mem[..] == FullRounds(t, s, from, r) && Below(mem[..], 12, P)
    {
      YulFullRound(mem, t.rc[r], false);
    }
  }

  /** After the partial block, round 26 reduces the lazy lanes: they are the eager ones. */
  lemma {:induction false} SettledIsEager(lazy: seq<nat>, eager: seq<nat>, bound: nat)
    requires Agrees(lazy, eager, bound) && lazy[0] < P
    ensures Settled(lazy) == eager
  {
    forall i | 0 <= i < 12 ensures Settled(lazy)[i] == eager[i] {
      SmallIsItsRemainder(eager[i], P);
      SmallIsItsRemainder(lazy[0], P);
    }
  }

  /** A word holds four 64-bit elements, the first in the low bits. */
  ghost predicate Holds(w: nat, x: seq<nat>) {
    Below(x, 4, TWO64) && w == Join(x[0], x[1], x[2], x[3])
  }

  lemma {:induction false} UnpackedHolds(w: word)
    ensures Holds(w, Unpacked(w))
  {
    var b := w / TWO64;
    var c := b / TWO64;
    var d := c / TWO64;
    DivModUnique(w, c, w - c * TWO128, TWO128);
    DivModUnique(w, d, w - d * TWO192, TWO192);
  }

  /** So every word holds exactly one such sequence. */
  lemma {:induction false} HoldsOnce(w: word, x: seq<nat>)
    requires Holds(w, x)
    ensures x == Unpacked(w)
  {
    JoinSplits(x[0], x[1], x[2], x[3]);
  }

  /** Shifts and masks, as `compress` reads its two arguments. */
  function Unpacked(w: word): (x: seq<nat>)
    ensures |x| == 4
  {
    [w % TWO64, (w / TWO64) % TWO64, (w / TWO128) % TWO64, w / TWO192]
  }

  /** The specialised round 0 and three more full rounds. */
  method FirstHalf(mem: array<word>, t: Tables, ghost s: seq<nat>)
    requires InRange(t) && mem.Length == 12 && mem[..] == s && Below(s, 12, TWO64)
    requires forall i | 8 <= i < 12 :: s[i] == 0
    modifies mem
    ensures mem[..] == FullRounds(t, s, 0, 4) && Below(mem[..], 12, P)
  {
    Round0(mem, t.rc[0]);
    assert mem[..] == FullRounds(t, s, 0, 1);
    YulFullRounds(mem, t, s, 0, 1, 4);
  }

  /** The partial block, round 26 with its reduction, and the last three full rounds. */
  method SecondHalf(mem: array<word>, t: Tables, ghost a: seq<nat>)
    requires InRange(t) && mem.Length == 12 && mem[..] == a && Below(a, 12, P)
    modifies mem
    ensures mem[..] == FullRounds(t, PartialRounds(t, a, 22), 26, 30) && Below(mem[..], 12, P)
  {
    PartialBlock(mem, t);
    ghost var b := PartialRounds(t, a, 22);
    SettledIsEager(mem[..], b, LaneLimit(22));
    YulFullRound(mem, t.rc[26], true);
    assert mem[..] == FullRounds(t, b, 26, 27);
    YulFullRounds(mem, t, b, 26, 27, 30);
  }

  /** The word of a digest, as the client packs it, holds its four elements. */
  lemma {:induction false} DigestWord(h: HashOutput)
    ensures Holds(HashToU256(h), h)
  {
  }

  /** Four lanes of the state setup. */
  method LoadDigest(mem: array<word>, from: nat, w: word)
    requires from + 4 <= mem.Length
    modifies mem
    ensures mem[..] == old(mem[..from]) + Unpacked(w) + old(mem[from + 4..])
  {
    mem[from], mem[from + 1] := w % TWO64, (w / TWO64) % TWO64;
    mem[from + 2], mem[from + 3] := (w / TWO128) % TWO64, w / TWO192;
  }

  /** The state setup: the lanes of both words, then four zeros. */
  method LoadState(left: word, right: word) returns (mem: array<word>)
    ensures fresh(mem) && mem.Length == 12 && Below(mem[..], 12, TWO64) && forall i | 8 <= i < 12 :: mem[i] == 0
    ensures forall a, b | Holds(left, a) && Holds(right, b) :: a + b + [0, 0, 0, 0] == mem[..]
  {
    mem := new word[12](i requires 0 <= i < 12 => 0);
    LoadDigest(mem, 0, left);
    LoadDigest(mem, 4, right);
    LoadedDigests(left, right, mem[..]);
  }

  lemma {:induction false} LoadedDigests(left: word, right: word, s: seq<nat>)
    requires |s| == 12 && s[..4] == Unpacked(left) && s[4..8] == Unpacked(right)
    requires forall i | 8 <= i < 12 :: s[i] == 0
    ensures Below(s, 12, TWO64)
    ensures forall a, b | Holds(left, a) && Holds(right, b) :: a + b + [0, 0, 0, 0] == s
  {
    UnpackedHolds(left);
    UnpackedHolds(right);
    assert s == s[..4] + s[4..8] + [0, 0, 0, 0];
    forall a, b | Holds(left, a) && Holds(right, b) ensures a + b + [0, 0, 0, 0] == s {
      HoldsOnce(left, a);
      HoldsOnce(right, b);
    }
  }

  lemma {:induction false} DigestHolds(out: seq<nat>, digest: nat)
    requires Below(out, 12, TWO64) && digest == Join(out[0], out[1], out[2], out[3])
    ensures Holds(digest, out[..4])
  {
  }

  /**
  `compress`: for digests `a` and `b` packed into two words the emitted code gives the packed first four
  lanes of the permutation of `a`, `b` and four zeros.
  */
  method Compress(left: word, right: word, t: Tables) returns (digest: word)
    requires InRange(t)
    ensures forall a, b | Holds(left, a) && Holds(right, b) :: Holds(digest, Permutation(t, a + b + [0, 0, 0, 0])[..4])
  {
    var mem := LoadState(left, right);
    ghost var s: seq<nat> := mem[..];
    FirstHalf(mem, t, s);
    SecondHalf(mem, t, FullRounds(t, s, 0, 4));
    OrJoins(mem[0], mem[1], mem[2], mem[3]);
    digest := BitOr(BitOr(BitOr(mem[0], TWO64 * mem[1]), TWO128 * mem[2]), TWO192 * mem[3]);
    DigestHolds(mem[..], digest);
  }
}
