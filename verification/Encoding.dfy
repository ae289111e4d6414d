/**
Goldilocks digests as bytes: the `bytes32` form (big-endian limbs), the preimage form (the two
halves of each limb swapped) and the little-endian `uint256` form.
*/
module Encoding {
  import opened Arith
  import opened MachineWords
  import opened Modular

  /** Four field elements. */
  type HashOutput = s: seq<felt> | |s| == 4 witness [0, 0, 0, 0]

  const ZERO: HashOutput := [0, 0, 0, 0]

  // --- 32- and 64-bit words ----------------------------------------------------------------------------

  /** `u32::to_be_bytes` */
  function BE32(w: nat): (b: seq<byte>)
    requires w < TWO32
    ensures |b| == 4
  {
    [w / 0x100_0000, (w / 0x1_0000) % 256, (w / 256) % 256, w % 256]
  }

  /** `u32::from_be_bytes` */
  function FromBE32(b: seq<byte>): (w: nat)
    requires |b| == 4
    ensures w < TWO32
  {
    b[0] as int * 0x100_0000 + b[1] as int * 0x1_0000 + b[2] as int * 256 + b[3]
  }

  lemma {:induction false} BE32RoundTrip(w: nat)
    requires w < TWO32
    ensures FromBE32(BE32(w)) == w
  {
    var a := w / 256;
    var b := a / 256;
    var c := b / 256;
    DivModUnique(w, b, w - b * 0x1_0000, 0x1_0000);
    DivModUnique(w, c, w - c * 0x100_0000, 0x100_0000);
  }

  lemma {:induction false} BE32Inverse(b: seq<byte>)
    requires |b| == 4
    ensures BE32(FromBE32(b)) == b
  {
    var x, y, z, t: int := b[0] as int, b[1] as int, b[2] as int, b[3];
    var w := FromBE32(b);
    DivModUnique(w, x, y * 0x1_0000 + z * 256 + t, 0x100_0000);
    DivModUnique(w, x * 256 + y, z * 256 + t, 0x1_0000);
    DivModUnique(w, x * 0x1_0000 + y * 256 + z, t, 256);
    DivModUnique(x * 256 + y, x, y, 256);
    DivModUnique(x * 0x1_0000 + y * 256 + z, x * 256 + y, z, 256);
  }

  /** The value of a byte string whose first byte is the most significant. */
  function BigEndian(b: seq<byte>): nat {
    if |b| == 0 then 0 else 256 * BigEndian(b[..|b| - 1]) + b[|b| - 1]
  }

  lemma {:induction false} BigEndianAppend(x: seq<byte>, y: byte)
    ensures BigEndian(x + [y]) == 256 * BigEndian(x) + y
  {
    assert (x + [y])[..|x|] == x;
  }

  lemma {:induction false} BigEndianOfFour(b: seq<byte>)
    requires |b| == 4
    ensures BigEndian(b) == FromBE32(b)
  {
    assert b == [] + [b[0]] + [b[1]] + [b[2]] + [b[3]];
    BigEndianAppend([], b[0]);
    BigEndianAppend([] + [b[0]], b[1]);
    BigEndianAppend([] + [b[0]] + [b[1]], b[2]);
    BigEndianAppend([] + [b[0]] + [b[1]] + [b[2]], b[3]);
  }

  /** `u64::to_be_bytes` */
  function BE64(v: nat): (b: seq<byte>)
    requires v < TWO64
    ensures |b| == 8
  {
    BE32(v / TWO32) + BE32(v % TWO32)
  }

  /** `u64::from_be_bytes` */
  function FromBE64(b: seq<byte>): (v: nat)
    requires |b| == 8
    ensures v < TWO64
  {
    FromBE32(b[..4]) * TWO32 + FromBE32(b[4..])
  }

  lemma {:induction false} BE64RoundTrip(v: nat)
    requires v < TWO64
    ensures FromBE64(BE64(v)) == v
  {
    BE32RoundTrip(v / TWO32);
    BE32RoundTrip(v % TWO32);
    assert BE64(v)[..4] == BE32(v / TWO32) && BE64(v)[4..] == BE32(v % TWO32);
  }

  lemma {:induction false} BE64Inverse(b: seq<byte>)
    requires |b| == 8
    ensures BE64(FromBE64(b)) == b
  {
    BE32Inverse(b[..4]);
    BE32Inverse(b[4..]);
    DivModUnique(FromBE64(b), FromBE32(b[..4]), FromBE32(b[4..]), TWO32);
    assert b == b[..4] + b[4..];
  }

  lemma {:induction false} BigEndianJoin(x: seq<byte>, y: seq<byte>)
    requires |y| == 4
    ensures BigEndian(x + y) == TWO32 * BigEndian(x) + BigEndian(y)
  {
    BigEndianOfFour(y);
    assert x + y == x + [y[0]] + [y[1]] + [y[2]] + [y[3]];
    BigEndianAppend(x, y[0]);
    BigEndianAppend(x + [y[0]], y[1]);
    BigEndianAppend(x + [y[0]] + [y[1]], y[2]);
    BigEndianAppend(x + [y[0]] + [y[1]] + [y[2]], y[3]);
  }

  /** Both word encodings put the most significant byte first. */
  lemma {:induction false} WordsAreBigEndian(w: nat, v: nat)
    requires w < TWO32 && v < TWO64
    ensures BigEndian(BE32(w)) == w && BigEndian(BE64(v)) == v
  {
    BE32RoundTrip(w);
    BigEndianOfFour(BE32(w));
    BE32RoundTrip(v / TWO32);
    BE32RoundTrip(v % TWO32);
    BigEndianOfFour(BE32(v / TWO32));
    BigEndianOfFour(BE32(v % TWO32));
    BigEndianJoin(BE32(v / TWO32), BE32(v % TWO32));
  }

  // --- bytes32 -------------------------------------------------------------------------------------------

  /** The big-endian limbs one after another. */
  function Bytes32(h: seq<nat>, n: nat): (b: seq<byte>)
    requires n <= |h| && forall i | 0 <= i < n :: h[i] < TWO64
    ensures |b| == 8 * n
    ensures forall i | 0 <= i < n :: b[8 * i..8 * i + 8] == BE64(h[i])
  {
    if n == 0 then []
    else
      var init := Bytes32(h, n - 1);
      var b := init + BE64(h[n - 1]);
      assert forall i | 0 <= i < n - 1 :: b[8 * i..8 * i + 8] == init[8 * i..8 * i + 8];
      assert b[8 * (n - 1)..8 * (n - 1) + 8] == BE64(h[n - 1]);
      b
  }

  function HashBytes(h: HashOutput): seq<byte> {
    Bytes32(h, 4)
  }

  /** `hash_to_bytes32` */
  method HashToBytes32(h: HashOutput) returns (b: seq<byte>)
    ensures |b| == 32 && b == HashBytes(h)
  {
    b := [];
    for i := 0 to 4
      invariant b == Bytes32(h, i)
    {
      b := b + BE64(h[i]);
    }
  }

  /** The limb at chunk `i`. */
  function LimbAt(b: seq<byte>, i: nat): (v: nat)
    requires 8 * i + 8 <= |b|
    ensures v < TWO64
  {
    FromBE64(b[8 * i..8 * i + 8])
  }

  ghost predicate Canonical32(b: seq<byte>) {
    |b| == 32 && forall i | 0 <= i < 4 :: LimbAt(b, i) < P
  }

  function DigestAt(b: seq<byte>): (h: seq<nat>)
    requires |b| == 32
    ensures |h| == 4 && forall i | 0 <= i < 4 :: h[i] == LimbAt(b, i)
  {
    [LimbAt(b, 0), LimbAt(b, 1), LimbAt(b, 2), LimbAt(b, 3)]
  }

  /** `bytes32_to_hash`: fails exactly when a limb is outside the field. */
  method Bytes32ToHash(b: seq<byte>) returns (r: Result<HashOutput, nat>)
    requires |b| == 32
    ensures r.Ok? <==> Canonical32(b)
    ensures r.Ok? ==> r.value == DigestAt(b)
    ensures r.Err? ==> r.error < 4 && LimbAt(b, r.error) >= P && forall i | 0 <= i < r.error :: LimbAt(b, i) < P
  {
    var elems: seq<felt> := [];
    for i := 0 to 4
      invariant |elems| == i && forall j | 0 <= j < i :: elems[j] == LimbAt(b, j)
    {
      var val := FromBE64(b[8 * i..8 * i + 8]);
      if val >= P {
        assert LimbAt(b, i) >= P;
        return Err(i);
      }
      elems := elems + [val];
    }
    return Ok(elems);
  }

  /** Decoding the bytes of a digest gives it back. */
  lemma {:induction false} HashRoundTrip(h: HashOutput)
    ensures Canonical32(HashBytes(h)) && DigestAt(HashBytes(h)) == h
  {
    forall i: nat | i < 4 ensures LimbAt(HashBytes(h), i) == h[i] {
      BE64RoundTrip(h[i]);
    }
  }

  /** Different digests have different bytes. */
  lemma {:induction false} HashBytesInjective(g: HashOutput, h: HashOutput)
    requires HashBytes(g) == HashBytes(h)
    ensures g == h
  {
    HashRoundTrip(g);
    HashRoundTrip(h);
  }

  /** Every canonical 32-byte string is the encoding of the digest it decodes to. */
  lemma {:induction false} BytesRoundTrip(b: seq<byte>)
    requires Canonical32(b)
    ensures HashBytes(DigestAt(b)) == b
  {
    var h: HashOutput := DigestAt(b);
    ChunkRoundTrip(b, 0);
    ChunkRoundTrip(b, 1);
    ChunkRoundTrip(b, 2);
    ChunkRoundTrip(b, 3);
    Chunks(HashBytes(h));
    Chunks(b);
  }

  lemma {:induction false} ChunkRoundTrip(b: seq<byte>, i: nat)
    requires Canonical32(b) && i < 4
    ensures HashBytes(DigestAt(b))[8 * i..8 * i + 8] == b[8 * i..8 * i + 8]
  {
    var limb := b[8 * i..8 * i + 8];
    assert HashBytes(DigestAt(b))[8 * i..8 * i + 8] == BE64(DigestAt(b)[i]);
    assert DigestAt(b)[i] == FromBE64(limb);
    BE64Inverse(limb);
  }

  lemma {:induction false} Chunks(b: seq<byte>)
    requires |b| == 32
    ensures b == b[8 * 0..8 * 0 + 8] + b[8 * 1..8 * 1 + 8] + b[8 * 2..8 * 2 + 8] + b[8 * 3..8 * 3 + 8]
  {
  }

  // --- the preimage form -----------------------------------------------------------------------------------

  /** A limb with its 4-byte halves swapped. */
  function SwapHalves(c: seq<byte>): (r: seq<byte>)
    requires |c| == 8
    ensures |r| == 8
  {
    c[4..] + c[..4]
  }

  /** The swap on the first `n` limbs. */
  function Swapped(raw: seq<byte>, n: nat): (out: seq<byte>)
    requires 8 * n <= |raw|
    ensures |out| == 8 * n
    ensures forall i | 0 <= i < n :: out[8 * i..8 * i + 8] == SwapHalves(raw[8 * i..8 * i + 8])
  {
    if n == 0 then []
    else
      var init := Swapped(raw, n - 1);
      var c := SwapHalves(raw[8 * (n - 1)..8 * (n - 1) + 8]);
      var out := init + c;
      assert forall i | 0 <= i < n - 1 :: out[8 * i..8 * i + 8] == init[8 * i..8 * i + 8];
      assert out[8 * (n - 1)..8 * (n - 1) + 8] == c;
      out
  }

  /** `raw_to_preimage_bytes32`, which is also `preimage_bytes32_to_raw`. */
  method RawToPreimage(raw: seq<byte>) returns (out: seq<byte>)
    requires |raw| == 32
    ensures out == Swapped(raw, 4)
  {
    out := [];
    for i := 0 to 4
      invariant out == Swapped(raw, i)
    {
      assert raw[8 * i..8 * i + 8][4..] == raw[8 * i + 4..8 * i + 8]
          && raw[8 * i..8 * i + 8][..4] == raw[8 * i..8 * i + 4];
      out := out + (raw[8 * i + 4..8 * i + 8] + raw[8 * i..8 * i + 4]);
    }
  }

  /** The swap undoes itself. */
  lemma {:induction false} SwapTwice(raw: seq<byte>)
    requires |raw| == 32
    ensures Swapped(Swapped(raw, 4), 4) == raw
  {
    var once := Swapped(raw, 4);
    var twice := Swapped(once, 4);
    forall i: nat | i < 4 ensures twice[8 * i..8 * i + 8] == raw[8 * i..8 * i + 8] {
      var c := raw[8 * i..8 * i + 8];
      assert SwapHalves(SwapHalves(c)) == c;
    }
    Chunks(twice);
    Chunks(raw);
  }

  /** The preimage form of one field element: low word, then high word, each big-endian. */
  function PrintField(f: felt): (b: seq<byte>)
    ensures |b| == 8
  {
    BE32(f % TWO32) + BE32(f / TWO32)
  }

  lemma {:induction false} PrintFieldIsSwapped(f: felt)
    ensures SwapHalves(PrintField(f)) == BE64(f) && PrintField(f) == SwapHalves(BE64(f))
  {
  }

  // --- uint256 -----------------------------------------------------------------------------------------------

  /** `hash_to_u256_le` */
  function HashToU256(h: HashOutput): nat {
    h[0] as int + TWO64 * h[1] as int + TWO128 * h[2] as int + TWO192 * h[3] as int
  }

  function U256Limb(v: nat, i: nat): nat
    requires i < 4
  {
    match i
    case 0 => v % TWO64
    case 1 => (v / TWO64) % TWO64
    case 2 => (v / TWO128) % TWO64
    case _ => v / TWO192
  }

  /** `u256_le_to_hash` */
  method U256ToHash(v: nat) returns (r: Result<HashOutput, nat>)
    requires v < TWO64 * TWO192
    ensures r.Ok? <==> forall i | 0 <= i < 4 :: U256Limb(v, i) < P
    ensures r.Ok? ==> HashToU256(r.value) == v
    ensures r.Err? ==> r.error < 4 && U256Limb(v, r.error) >= P && forall i | 0 <= i < r.error :: U256Limb(v, i) < P
  {
    var elems: seq<felt> := [];
    for i := 0 to 4
      invariant |elems| == i && forall j | 0 <= j < i :: elems[j] == U256Limb(v, j) < P
    {
      var l := U256Limb(v, i);
      if l >= P {
        return Err(i);
      }
      elems := elems + [l];
    }
    LimbsJoin(v);
    return Ok(elems);
  }

  lemma {:induction false} LimbsJoin(v: nat)
    requires v < TWO64 * TWO192
    ensures v == U256Limb(v, 0) + TWO64 * U256Limb(v, 1) + TWO128 * U256Limb(v, 2) + TWO192 * U256Limb(v, 3)
  {
    var a := v / TWO64;
    var b := a / TWO64;
    var c := b / TWO64;
    DivModUnique(v, b, v - b * TWO128, TWO128);
    DivModUnique(v, c, v - c * TWO192, TWO192);
  }

  /** Packing a digest and unpacking it gives it back. */
  lemma {:induction false} U256RoundTrip(h: HashOutput)
    ensures forall i: nat | i < 4 :: U256Limb(HashToU256(h), i) == h[i]
  {
    var a, b, c, d := h[0] as int, h[1] as int, h[2] as int, h[3] as int;
    var w := HashToU256(h);
    DivModUnique(w, b + TWO64 * c + TWO128 * d, a, TWO64);
    DivModUnique(b + TWO64 * c + TWO128 * d, c + TWO64 * d, b, TWO64);
    DivModUnique(w, c + TWO64 * d, a + TWO64 * b, TWO128);
    DivModUnique(c + TWO64 * d, d, c, TWO64);
    DivModUnique(w, d, a + TWO64 * b + TWO128 * c, TWO192);
  }
}
