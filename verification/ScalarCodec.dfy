/** Byte strings to scalars: `decode`, `decode_reduce` and the hash-to-scalar map. */
module ScalarCodec {
  import opened Arith
  import opened MachineWords
  import opened Modular
  import opened BitOps
  import opened Scalars

  // --- little-endian byte strings -------------------------------------------------------------------

  function Bytes(n: nat): (r: nat)
    ensures r >= 1
  {
    if n == 0 then 1 else 256 * Bytes(n - 1)
  }

  /** The little-endian value of a byte string. */
  function LE(buf: seq<byte>): nat {
    if |buf| == 0 then 0 else buf[0] + 256 * LE(buf[1..])
  }

  lemma {:induction false} BytesAdd(a: nat, b: nat)
    ensures Bytes(a + b) == Bytes(a) * Bytes(b)
  {
    if a > 0 {
      BytesAdd(a - 1, b);
      assert Bytes(a + b) == 256 * Bytes(a - 1 + b);
      assert 256 * (Bytes(a - 1) * Bytes(b)) == (256 * Bytes(a - 1)) * Bytes(b);
    }
  }

  lemma {:induction false} LESplit(x: seq<byte>, y: seq<byte>)
    ensures LE(x + y) == LE(x) + Bytes(|x|) * LE(y)
  {
    if |x| == 0 {
      assert x + y == y;
    } else {
      LESplit(x[1..], y);
      assert (x + y)[1..] == x[1..] + y;
      assert 256 * (Bytes(|x| - 1) * LE(y)) == (256 * Bytes(|x| - 1)) * LE(y);
    }
  }

  lemma {:induction false} LEBelow(buf: seq<byte>)
    ensures LE(buf) < Bytes(|buf|)
  {
    if |buf| > 0 {
      LEBelow(buf[1..]);
    }
  }

  lemma {:induction false} LEZero(buf: seq<byte>)
    ensures LE(buf) == 0 <==> forall i | 0 <= i < |buf| :: buf[i] == 0
  {
    if |buf| > 0 {
      LEZero(buf[1..]);
      assert forall i | 0 < i < |buf| :: buf[i] == buf[1..][i - 1];
    }
  }

  /** Byte `i` of the value sits in limb `i / 8`, shifted by `8 * (i % 8)` bits. */
  lemma {:induction false} BytePlace(q: nat, s: nat)
    ensures Bytes(8 * q + s) == Bytes(s) * BPow(q)
    ensures Bytes(s) == Pow2(8 * s)
  {
    ByteIsEightBits(s);
    LimbIsEightBytes(q);
    BytesAdd(8 * q, s);
    assert Bytes(8 * q) * Bytes(s) == Bytes(s) * Bytes(8 * q);
  }

  lemma {:induction false} ByteIsEightBits(s: nat)
    ensures Bytes(s) == Pow2(8 * s)
  {
    if s > 0 {
      ByteIsEightBits(s - 1);
      assert Pow2(8) == 256 by {
        assert Pow2(4) == 16;
        assert Pow2(6) == 64;
      }
      Pow2Adds(8, 8 * (s - 1));
    }
  }

  lemma {:induction false} LimbIsEightBytes(q: nat)
    ensures Bytes(8 * q) == BPow(q)
  {
    if q > 0 {
      LimbIsEightBytes(q - 1);
      assert Bytes(8) == TWO64 by {
        assert Bytes(4) == 0x1_0000_0000;
        assert Bytes(6) == 0x1_0000_0000_0000;
      }
      BytesAdd(8, 8 * (q - 1));
    }
  }

  lemma {:induction false} PrefixUpdate(s: seq<u64>, k: nat, v: u64, delta: int, n: nat)
    requires k < n <= |s| && v == Digit(s, k) + delta
    ensures Prefix(s[k := v], n) == Prefix(s, n) + delta * BPow(k)
    decreases n
  {
    if n == k + 1 {
      PrefixFrame(s, s[k := v], k);
      assert v * BPow(k) == Digit(s, k) * BPow(k) + delta * BPow(k);
    } else {
      PrefixUpdate(s, k, v, delta, n - 1);
    }
  }

  /** A byte or-ed into a limb above everything the limb holds is added, and fits. */
  lemma {:induction false} PlaceByteFits(d: nat, k: nat, b: byte, shifted: nat)
    requires k < 8 && d < Bytes(k) && shifted == b * Bytes(k)
    ensures BitOr(d, shifted) == d + shifted
    ensures d + shifted < Bytes(k + 1) <= TWO64
  {
    ByteIsEightBits(k);
    BitOrDisjoint(d, b, 8 * k);
    MulMono(b, 255, Bytes(k));
    ByteTop(k);
  }

  lemma {:induction false} MulAssoc(a: int, b: int, c: int)
    ensures (a * b) * c == a * (b * c)
  {
  }

  lemma {:induction false} PlaceByteValue(s: seq<u64>, q: nat, k: nat, i: nat, b: byte, v: u64)
    requires |s| == 5 && q < 5 && i == 8 * q + k && v == Digit(s, q) + b * Bytes(k)
    ensures Prefix(s[q := v], 5) == Prefix(s, 5) + b * Bytes(i)
  {
    BytePlace(q, k);
    PrefixUpdate(s, q, v, b * Bytes(k), 5);
    MulAssoc(b, Bytes(k), BPow(q));
  }

  lemma {:induction false} ByteTop(k: nat)
    requires k < 8
    ensures Bytes(k + 1) <= TWO64
  {
    LimbIsEightBytes(1);
    BytesGrow(k + 1, 8);
    assert BPow(1) == TWO64 * BPow(0);
  }

  lemma {:induction false} BytesGrow(a: nat, b: nat)
    requires a <= b
    ensures Bytes(a) <= Bytes(b)
    decreases b - a
  {
    if a < b {
      BytesGrow(a, b - 1);
    }
  }

  // --- decode ------------------------------------------------------------------------------------------

  /** Only the lowest `i` bytes of the limbs may be nonzero. */
  ghost predicate OnlyLow(s: seq<u64>, i: nat) {
    && |s| == 5 && i <= 40
    && (forall t | i / 8 < t < 5 :: s[t] == 0)
    && (i < 40 ==> Digit(s, i / 8) < Bytes(i % 8))
  }

  lemma {:induction false} OnlyLowNext(s: seq<u64>, i: nat, v: u64)
    requires i < 40 && OnlyLow(s, i) && v < Bytes(i % 8 + 1)
    ensures OnlyLow(s[i / 8 := v], i + 1)
  {
    var t := s[i / 8 := v];
    if i % 8 == 7 {
      assert (i + 1) / 8 == i / 8 + 1 && (i + 1) % 8 == 0;
      assert i + 1 < 40 ==> t[(i + 1) / 8] == 0;
    } else {
      assert (i + 1) / 8 == i / 8 && (i + 1) % 8 == i % 8 + 1;
    }
  }

  /** The limbs hold the first `i` bytes, and nothing above them. */
  ghost predicate Holds(s: seq<u64>, buf: seq<byte>, i: nat) {
    && OnlyLow(s, i) && i <= |buf|
    && Prefix(s, 5) == LE(buf[..i])
  }

  method DecodeByte(s: seq<u64>, buf: seq<byte>, i: nat) returns (t: seq<u64>)
    requires i < 40 && i < |buf| && Holds(s, buf, i)
    ensures Holds(t, buf, i + 1)
  {
    var q, k, b := i / 8, i % 8, buf[i];
    var v := OrByte(s[q], k, b);
    t := s[q := v];
    OnlyLowNext(s, i, v);
    HoldsNext(s, buf, i, v);
  }

  /** `limb |= byte << (8 * k)`, into a limb that holds only lower bytes. */
  method OrByte(limb: u64, k: nat, b: byte) returns (v: u64)
    requires k < 8 && limb < Bytes(k)
    ensures v == limb as int + b * Bytes(k) && v < Bytes(k + 1)
  {
    var shifted := b * Bytes(k);
    PlaceByteFits(limb, k, b, shifted);
    v := BitOr(limb, shifted);
  }

  lemma {:induction false} HoldsNext(s: seq<u64>, buf: seq<byte>, i: nat, v: u64)
    requires i < 40 && i < |buf| && Holds(s, buf, i)
    requires v == Digit(s, i / 8) + buf[i] * Bytes(i % 8)
    ensures Prefix(s[i / 8 := v], 5) == LE(buf[..i + 1])
  {
    PlaceByteValue(s, i / 8, i % 8, i, buf[i], v);
    LENext(buf, i);
  }

  lemma {:induction false} LENext(buf: seq<byte>, i: nat)
    requires i < |buf|
    ensures LE(buf[..i + 1]) == LE(buf[..i]) + buf[i] * Bytes(i)
  {
    LESplit(buf[..i], [buf[i]]);
    assert buf[..i + 1] == buf[..i] + [buf[i]];
    assert LE([buf[i]]) == buf[i];
  }

  /**
  `decode`: the limbs of the little-endian value when it is below the order, and nothing
  otherwise, for a buffer of any length.
  */
  method Decode(buf: seq<byte>) returns (r: Option<Limbs>)
    ensures r.Some? <==> LE(buf) < ORDER
    ensures r.Some? ==> Value(r.value) == LE(buf)
  {
    var s, extra := DecodeBytes(buf);
    OrderIs();
    if |buf| <= 39 {
      assert buf[..|buf|] == buf;
      ShortIsBelowOrder(buf);
      return Some(s);
    }
    var _, c := SubInner(s, N);
    // c & (((extra + 0xFF) >> 8) - 1), with the subtraction wrapping
    var mask := ((extra + 0xFF) / 256 - 1) % TWO64;
    var valid := if mask == 0 then 0 else c;
    HighBytes(buf);
    if valid != 0 {
      return Some(s);
    } else {
      return None;
    }
  }

  /** The loop of `decode`: the first 40 bytes fill the limbs, the others are collected. */
  method DecodeBytes(buf: seq<byte>) returns (s: seq<u64>, extra: nat)
    ensures Holds(s, buf, if |buf| < 40 then |buf| else 40)
    ensures extra < 256 && (extra == 0 <==> forall j | 40 <= j < |buf| :: buf[j] == 0)
  {
    s, extra := ZERO, 0;
    for i := 0 to |buf|
      invariant Holds(s, buf, if i < 40 then i else 40)
      invariant extra < 256
      invariant extra == 0 <==> forall j | 40 <= j < i :: buf[j] == 0
    {
      if i < 40 {
        s := DecodeByte(s, buf, i);
      } else {
        BitOrZero(extra, buf[i]);
        BitOrBelow(extra, buf[i], 8);
        extra := BitOr(extra, buf[i]);
      }
    }
  }

  lemma {:induction false} ShortIsBelowOrder(buf: seq<byte>)
    requires |buf| <= 39
    ensures LE(buf) < Bytes(39) < ORDER
  {
    LEBelow(buf);
    BytesGrow(|buf|, 39);
    Bytes39();
  }

  const TWO312: nat := 0x1_000000000000000000000000000000000000000000000000000000000000000000000000000000

  lemma {:induction false} Bytes39()
    ensures Bytes(39) == TWO312
    ensures Bytes(40) == R
  {
    LimbIsEightBytes(5);
    BPowIs();
    assert Bytes(40) == 256 * Bytes(39);
  }

  /** Bytes beyond the fortieth keep a value below the order only when they are all zero. */
  lemma {:induction false} HighBytes(buf: seq<byte>)
    requires |buf| >= 40
    ensures LE(buf) == LE(buf[..40]) + R * LE(buf[40..])
    ensures (forall j | 40 <= j < |buf| :: buf[j] == 0) <==> LE(buf[40..]) == 0
    ensures LE(buf[40..]) > 0 ==> LE(buf) >= R
  {
    assert buf == buf[..40] + buf[40..];
    LESplit(buf[..40], buf[40..]);
    Bytes39();
    LEZero(buf[40..]);
    assert forall j | 40 <= j < |buf| :: buf[j] == buf[40..][j - 40];
  }

  // --- decode_reduce -----------------------------------------------------------------------------------

  /** `decode_reduce`: the little-endian value modulo the order, in chunks of 39 bytes. */
  method DecodeReduce(buf: seq<byte>) returns (acc: Limbs)
    ensures Value(acc) == LE(buf) % ORDER
  {
    var n := |buf|;
    if n <= 39 {
      acc := DecodeShort(buf);
      return;
    }
    var k := ((n - 1) / 39) * 39;
    ghost var chunks := (n - 1) / 39;
    acc := DecodeShort(buf[k..n]);
    assert buf[k..n] == buf[k..];
    while k > 0
      invariant k == 39 * chunks && 0 <= k < n
      invariant Value(acc) == LE(buf[k..]) % ORDER
    {
      k := k - 39;
      chunks := chunks - 1;
      acc := ReduceChunk(buf, k, acc);
    }
    assert buf[0..] == buf;
  }

  /** One pass of the loop: multiply by 2^312 and add the next lower 39 bytes. */
  method ReduceChunk(buf: seq<byte>, k: nat, acc: Limbs) returns (sum: Limbs)
    requires k + 39 <= |buf| && Value(acc) == LE(buf[k + 39..]) % ORDER
    ensures Value(sum) == LE(buf[k..]) % ORDER
  {
    var chunk := DecodeShort(buf[k..k + 39]);
    var shifted := MontyMul(acc, T632);
    T632Is();
    sum := AddMod(shifted, chunk);
    LEChunk(buf, k);
    ChunkSum(LE(buf[k + 39..]), Value(acc), Value(T632), Value(shifted), Value(chunk));
  }

  /** Decoding a chunk of at most 39 bytes cannot fail. */
  method DecodeShort(buf: seq<byte>) returns (r: Limbs)
    requires |buf| <= 39
    ensures Value(r) == LE(buf) == LE(buf) % ORDER && Value(r) < ORDER
  {
    var d := Decode(buf);
    ShortIsBelowOrder(buf);
    SmallIsItsRemainder(LE(buf), ORDER);
    r := d.value;
  }

  lemma {:induction false} T632Is()
    ensures Cong(TWO312 * R, Value(T632), ORDER)
  {
    ValueIs(T632);
    CongByMultiple(TWO312 * R, Value(T632),
      0x20000000a0000001400000009ffffffd7ffffff9cc11fe71fe91d998040bac1fc3ddc128d76ebed, ORDER);
  }

  lemma {:induction false} LEChunk(buf: seq<byte>, k: nat)
    requires k + 39 <= |buf|
    ensures LE(buf[k..]) == LE(buf[k..k + 39]) + TWO312 * LE(buf[k + 39..])
  {
    assert buf[k..] == buf[k..k + 39] + buf[k + 39..];
    LESplit(buf[k..k + 39], buf[k + 39..]);
    Bytes39();
  }

  /** A Montgomery product by 2^632 multiplies by 2^312. */
  lemma {:induction false} ChunkStep(high: nat, acc: nat, t: nat, shifted: nat)
    requires acc == high % ORDER && Cong(TWO312 * R, t, ORDER)
    requires Cong(shifted * R, acc * t, ORDER)
    ensures Cong(shifted, high * TWO312, ORDER)
  {
    MontyFactorInverts();
    CongMod(high, ORDER);
    CongMulBoth(acc, high, t, TWO312 * R, ORDER);
    assert high * (TWO312 * R) == (high * TWO312) * R;
    CongCancel(shifted, high * TWO312, R, RINV, ORDER);
  }

  lemma {:induction false} ChunkSum(high: nat, acc: nat, t: nat, shifted: nat, chunk: nat)
    requires acc == high % ORDER && Cong(TWO312 * R, t, ORDER)
    requires Cong(shifted * R, acc * t, ORDER)
    ensures (shifted + chunk) % ORDER == (chunk + TWO312 * high) % ORDER
  {
    ChunkStep(high, acc, t, shifted);
    CongAdd(shifted, high * TWO312, chunk, chunk, ORDER);
  }

  // --- hash to scalar ------------------------------------------------------------------------------------

  function ClearTopBits(h: Limbs): Limbs {
    h[4 := h[4] % 0x4000_0000_0000_0000]
  }

  /** The integer a hash stands for: limbs 0 to 3 as they are, limb 4 without its two top bits. */
  ghost function Worth(h: Limbs): nat {
    Digit(h, 0) + TWO64 * (Digit(h, 1) + TWO64 * (Digit(h, 2) + TWO64 * (Digit(h, 3) + TWO64 * (h[4] % TWO62))))
  }

  const TWO62: nat := 0x4000_0000_0000_0000

  lemma {:induction false} ClearedIsWorth(h: Limbs)
    ensures Value(ClearTopBits(h)) == Worth(h) < TWO62 * BPow(4) < ORDER
  {
    ValueIs(ClearTopBits(h));
    BPowIs();
  }

  lemma {:induction false} ShiftPair(x: u64, up: u64)
    requires up == (x * 4) % TWO64
    ensures up / 4 == x % TWO62
  {
  }

  /** `from_hash`: drop the two top bits of the last element (shift left, then right, in 64 bits). */
  method FromHash(elements: Limbs) returns (r: Limbs)
    ensures r == ClearTopBits(elements) && Value(r) == Worth(elements) < ORDER
  {
    var up: u64 := (elements[4] * 4) % TWO64;
    ShiftPair(elements[4], up);
    r := elements[4 := up / 4];
    ClearedIsWorth(elements);
  }
}
