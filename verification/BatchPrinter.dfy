/**
The server's side of a batch: output commitments, the subtree root over them, and the preimage
bytes that are submitted on chain.
*/
module BatchPrinter {
  import opened Arith
  import opened MachineWords
  import opened Encoding
  import opened MerkleSpec
  import opened Merkle

  datatype Kind = Private | Withdraw | Deposit

  /** A transaction proof, as far as a batch sees it: its public inputs. */
  datatype Proof = Proof(kind: Kind, pis: seq<felt>) {
    ghost predicate WellFormed() {
      |pis| == 8 + UniqueLen(kind)
    }
  }

  /** How many public inputs of a proof are its own: everything from the ninth on. */
  function UniqueLen(kind: Kind): nat {
    match kind
    case Private => 65
    case Withdraw => 77
    case Deposit => 27
  }

  function CommitmentCount(kind: Kind): nat {
    if kind == Private then 8 else 1
  }

  /** `output_commitments`: the account commitment, then the note commitments of a private proof. */
  function OutputCommitments(p: Proof): (r: seq<HashOutput>)
    requires p.WellFormed()
    ensures |r| == CommitmentCount(p.kind)
  {
    if p.kind == Private then
      [p.pis[13..17]] + seq(7, i requires 0 <= i < 7 => p.pis[45 + 4 * i..49 + 4 * i])
    else
      [p.pis[13..17]]
  }

  ghost predicate AllWellFormed(proofs: seq<Proof>) {
    forall i | 0 <= i < |proofs| :: proofs[i].WellFormed()
  }

  /** A finalized private batch: 64 private proofs. */
  ghost predicate PrivateBatch(proofs: seq<Proof>) {
    && |proofs| == 64 && AllWellFormed(proofs)
    && forall i | 0 <= i < 64 :: proofs[i].kind == Private
  }

  /** A finalized bridge batch: 256 withdrawals, then 256 deposits. */
  ghost predicate BridgeBatch(proofs: seq<Proof>) {
    && |proofs| == 512 && AllWellFormed(proofs)
    && (forall i | 0 <= i < 256 :: proofs[i].kind == Withdraw)
    && (forall i | 256 <= i < 512 :: proofs[i].kind == Deposit)
  }

  // --- the subtree ------------------------------------------------------------------------------------

  /** The leaves of the batch subtree, in slot order. */
  function Leaves(proofs: seq<Proof>): seq<HashOutput>
    requires AllWellFormed(proofs)
  {
    if |proofs| == 0 then []
    else Leaves(proofs[..|proofs| - 1]) + OutputCommitments(proofs[|proofs| - 1])
  }

  /** Where the leaves of a slot start. */
  function LeafStart(proofs: seq<Proof>, s: nat): nat
    requires s <= |proofs|
  {
    if s == 0 then 0 else LeafStart(proofs, s - 1) + CommitmentCount(proofs[s - 1].kind)
  }

  lemma {:induction false} LeafStartFrame(proofs: seq<Proof>, n: nat, s: nat)
    requires s <= n <= |proofs|
    ensures LeafStart(proofs[..n], s) == LeafStart(proofs, s)
  {
    if s > 0 {
      LeafStartFrame(proofs, n, s - 1);
    }
  }

  /** Leaf `j` of slot `s` is its `j`-th output commitment. */
  lemma {:induction false} LeafAt(proofs: seq<Proof>, s: nat, j: nat)
    requires AllWellFormed(proofs) && s < |proofs| && j < CommitmentCount(proofs[s].kind)
    ensures |Leaves(proofs)| == LeafStart(proofs, |proofs|)
    ensures LeafStart(proofs, s) + j < |Leaves(proofs)|
    ensures Leaves(proofs)[LeafStart(proofs, s) + j] == OutputCommitments(proofs[s])[j]
    decreases |proofs|
  {
    var n := |proofs| - 1;
    LeavesLength(proofs);
    LeavesLength(proofs[..n]);
    LeafStartFrame(proofs, n, n);
    if s < n {
      LeafAt(proofs[..n], s, j);
      LeafStartFrame(proofs, n, s);
    }
    LastLeaves(proofs, n, s, j);
  }

  /** The leaves of the last slot come after those of the others. */
  lemma {:induction false} LastLeaves(proofs: seq<Proof>, n: nat, s: nat, j: nat)
    requires AllWellFormed(proofs) && |proofs| == n + 1 && s <= n && j < CommitmentCount(proofs[s].kind)
    requires |Leaves(proofs[..n])| == LeafStart(proofs, n)
    requires s < n ==> LeafStart(proofs, s) + j < |Leaves(proofs[..n])|
    ensures LeafStart(proofs, s) + j < |Leaves(proofs)|
    ensures Leaves(proofs)[LeafStart(proofs, s) + j]
         == if s < n then Leaves(proofs[..n])[LeafStart(proofs, s) + j] else OutputCommitments(proofs[n])[j]
  {
  }

  lemma {:induction false} LeavesLength(proofs: seq<Proof>)
    requires AllWellFormed(proofs)
    ensures |Leaves(proofs)| == LeafStart(proofs, |proofs|)
  {
    if |proofs| > 0 {
      var n := |proofs| - 1;
      LeavesLength(proofs[..n]);
      LeafStartFrame(proofs, n, n);
    }
  }

  lemma {:induction false} PrivateLeafStart(proofs: seq<Proof>, s: nat)
    requires PrivateBatch(proofs) && s <= 64
    ensures LeafStart(proofs, s) == 8 * s
  {
    if s > 0 {
      PrivateLeafStart(proofs, s - 1);
    }
  }

  lemma {:induction false} BridgeLeafStart(proofs: seq<Proof>, s: nat)
    requires BridgeBatch(proofs) && s <= 512
    ensures LeafStart(proofs, s) == s
  {
    if s > 0 {
      BridgeLeafStart(proofs, s - 1);
    }
  }

  /** `batch_poseidon_root`: collect the commitments and fold them. */
  method BatchPoseidonRoot(h: Hasher<HashOutput>, proofs: seq<Proof>, batchSize: nat)
    returns (r: Result<HashOutput, ()>)
    requires AllWellFormed(proofs)
    ensures r.Ok? <==> |proofs| == batchSize && |Leaves(proofs)| == 512
    ensures r.Ok? ==> r.value == RootOf(h, Leaves(proofs), 9)
  {
    if |proofs| != batchSize {
      return Err(());
    }
    var leaves: seq<HashOutput> := [];
    for i := 0 to |proofs|
      invariant leaves == Leaves(proofs[..i])
    {
      leaves := leaves + OutputCommitments(proofs[i]);
      assert proofs[..i + 1][..i] == proofs[..i];
    }
    assert proofs[..|proofs|] == proofs;
    if |leaves| != 512 {
      return Err(());
    }
    Pow2Of9();
    var a := new HashOutput[512](i requires 0 <= i < 512 => leaves[i]);
    assert a[..] == leaves;
    var root := ComputeRootNative(h, a, 9);
    return Ok(root);
  }

  lemma {:induction false} Pow2Of9()
    ensures Pow2(9) == 512
  {
    Pow2Of32();
    assert Pow2(9) == 2 * Pow2(8);
  }

  // --- the preimage -----------------------------------------------------------------------------------

  /** The unique public inputs of the first proofs, one after another. */
  function Unique(proofs: seq<Proof>): seq<felt>
    requires AllWellFormed(proofs)
  {
    if |proofs| == 0 then [] else Unique(proofs[..|proofs| - 1]) + proofs[|proofs| - 1].pis[8..]
  }

  /** The printed field elements: subtree root, the common inputs once, every slot's own inputs. */
  function Fields(root: HashOutput, proofs: seq<Proof>): seq<felt>
    requires AllWellFormed(proofs) && |proofs| > 0
  {
    root + proofs[0].pis[..8] + Unique(proofs)
  }

  /** The header: the root, then the first proof's first eight public inputs. */
  lemma {:induction false} HeaderAt(root: HashOutput, proofs: seq<Proof>, k: nat)
    requires AllWellFormed(proofs) && |proofs| > 0 && k < 12
    ensures k < |Fields(root, proofs)|
    ensures Fields(root, proofs)[k] == if k < 4 then root[k] else proofs[0].pis[k - 4]
  {
  }

  function SlotStart(proofs: seq<Proof>, s: nat): nat
    requires s <= |proofs|
  {
    if s == 0 then 0 else SlotStart(proofs, s - 1) + UniqueLen(proofs[s - 1].kind)
  }

  lemma {:induction false} SlotStartFrame(proofs: seq<Proof>, n: nat, s: nat)
    requires s <= n <= |proofs|
    ensures SlotStart(proofs[..n], s) == SlotStart(proofs, s)
  {
    if s > 0 {
      SlotStartFrame(proofs, n, s - 1);
    }
  }

  lemma {:induction false} UniqueLength(proofs: seq<Proof>)
    requires AllWellFormed(proofs)
    ensures |Unique(proofs)| == SlotStart(proofs, |proofs|)
  {
    if |proofs| > 0 {
      var n := |proofs| - 1;
      UniqueLength(proofs[..n]);
      SlotStartFrame(proofs, n, n);
    }
  }

  /** Field `j` of slot `s` is public input `8 + j` of that proof. */
  lemma {:induction false} UniqueAt(proofs: seq<Proof>, s: nat, j: nat)
    requires AllWellFormed(proofs) && s < |proofs| && j < UniqueLen(proofs[s].kind)
    ensures SlotStart(proofs, s) + j < |Unique(proofs)|
    ensures Unique(proofs)[SlotStart(proofs, s) + j] == proofs[s].pis[8 + j]
    decreases |proofs|
  {
    var n := |proofs| - 1;
    UniqueLength(proofs);
    UniqueLength(proofs[..n]);
    SlotStartFrame(proofs, n, n);
    if s < n {
      UniqueAt(proofs[..n], s, j);
      SlotStartFrame(proofs, n, s);
    }
  }

  /** A window of a slot's fields is the same window of its public inputs. */
  lemma {:induction false} FieldWindow(root: HashOutput, proofs: seq<Proof>, s: nat, j: nat, n: nat)
    requires AllWellFormed(proofs) && s < |proofs| && j + n <= UniqueLen(proofs[s].kind)
    ensures 12 + SlotStart(proofs, s) + j + n <= |Fields(root, proofs)|
    ensures Fields(root, proofs)[12 + SlotStart(proofs, s) + j..12 + SlotStart(proofs, s) + j + n]
         == proofs[s].pis[8 + j..8 + j + n]
  {
    var fs, at := Fields(root, proofs), 12 + SlotStart(proofs, s) + j;
    UniqueLength(proofs);
    SlotStartMonotone(proofs, s + 1, |proofs|);
    var window, pis := fs[at..at + n], proofs[s].pis[8 + j..8 + j + n];
    forall i | 0 <= i < n ensures window[i] == pis[i] {
      UniqueAt(proofs, s, j + i);
    }
  }

  lemma {:induction false} SlotStartMonotone(proofs: seq<Proof>, a: nat, b: nat)
    requires a <= b <= |proofs|
    ensures SlotStart(proofs, a) <= SlotStart(proofs, b)
    decreases b - a
  {
    if a < b {
      SlotStartMonotone(proofs, a, b - 1);
    }
  }

  lemma {:induction false} PrivateSlotStart(proofs: seq<Proof>, s: nat)
    requires PrivateBatch(proofs) && s <= 64
    ensures SlotStart(proofs, s) == 65 * s
  {
    if s > 0 {
      PrivateSlotStart(proofs, s - 1);
    }
  }

  lemma {:induction false} BridgeSlotStart(proofs: seq<Proof>, s: nat)
    requires BridgeBatch(proofs) && s <= 512
    ensures SlotStart(proofs, s) == if s <= 256 then 77 * s else 77 * 256 + 27 * (s - 256)
  {
    if s > 0 {
      BridgeSlotStart(proofs, s - 1);
    }
  }

  /** Every field element in the preimage form, one after another. */
  function PrintFields(fs: seq<felt>): (b: seq<byte>)
    ensures |b| == 8 * |fs|
  {
    if |fs| == 0 then [] else PrintFields(fs[..|fs| - 1]) + PrintField(fs[|fs| - 1])
  }

  /** Element `k` occupies the bytes from `8*k` up to `8*k + 8`. */
  lemma {:induction false} PrintedAt(fs: seq<felt>, k: nat)
    requires k < |fs|
    ensures PrintFields(fs)[8 * k..8 * k + 8] == PrintField(fs[k])
  {
    var n := |fs| - 1;
    var init := PrintFields(fs[..n]);
    if k < n {
      PrintedAt(fs[..n], k);
      assert PrintFields(fs)[8 * k..8 * k + 8] == init[8 * k..8 * k + 8];
    } else {
      assert PrintFields(fs)[8 * k..8 * k + 8] == PrintField(fs[k]);
    }
  }

  /** In the printed bytes element `k` is two big-endian words, the low one first. */
  lemma {:induction false} PrintedWordOrder(fs: seq<felt>, k: nat)
    requires k < |fs|
    ensures BigEndian(PrintFields(fs)[8 * k..8 * k + 4]) == fs[k] % TWO32
    ensures BigEndian(PrintFields(fs)[8 * k + 4..8 * k + 8]) == fs[k] / TWO32
  {
    var b := PrintFields(fs);
    PrintedAt(fs, k);
    assert b[8 * k..8 * k + 4] == b[8 * k..8 * k + 8][..4] && b[8 * k + 4..8 * k + 8] == b[8 * k..8 * k + 8][4..];
    WordsAreBigEndian(fs[k] % TWO32, 0);
    WordsAreBigEndian(fs[k] / TWO32, 0);
  }

  function Words(fs: seq<felt>): seq<u32> {
    if |fs| == 0 then []
    else
      var f := fs[|fs| - 1];
      Words(fs[..|fs| - 1]) + [f % TWO32, f / TWO32]
  }

  function WordBytes(words: seq<u32>): seq<byte> {
    if |words| == 0 then [] else WordBytes(words[..|words| - 1]) + BE32(words[|words| - 1])
  }

  lemma {:induction false} WordsAppend(x: seq<felt>, y: seq<felt>)
    ensures Words(x + y) == Words(x) + Words(y)
  {
    if |y| == 0 {
      assert x + y == x;
    } else {
      var n := |y| - 1;
      WordsAppend(x, y[..n]);
      assert (x + y)[..|x + y| - 1] == x + y[..n];
    }
  }

  lemma {:induction false} WordBytesArePrinted(fs: seq<felt>)
    ensures WordBytes(Words(fs)) == PrintFields(fs)
  {
    if |fs| > 0 {
      var n, f := |fs| - 1, fs[|fs| - 1];
      WordBytesArePrinted(fs[..n]);
      var ws := Words(fs[..n]);
      var lo: u32, hi: u32 := f % TWO32, f / TWO32;
      assert Words(fs)[..|Words(fs)| - 1] == ws + [lo];
      assert (ws + [lo])[..|ws|] == ws;
    }
  }

  /** `push_fields` */
  method PushFields(words: seq<u32>, fields: seq<felt>) returns (r: seq<u32>)
    ensures r == words + Words(fields)
  {
    r := words;
    for i := 0 to |fields|
      invariant r == words + Words(fields[..i])
    {
      var v := fields[i];
      r := r + [v % TWO32];
      r := r + [v / TWO32];
      assert fields[..i + 1][..i] == fields[..i];
    }
    assert fields[..|fields|] == fields;
  }

  /** `pi_preimage_words` */
  method PiPreimageWords(root: Option<HashOutput>, proofs: seq<Proof>) returns (r: Result<seq<u32>, ()>)
    requires AllWellFormed(proofs) && (root.Some? ==> |proofs| > 0)
    ensures r.Ok? <==> root.Some?
    ensures r.Ok? ==> r.value == Words(Fields(root.value, proofs))
  {
    if root.None? {
      return Err(());
    }
    var words := PushFields([], root.value);
    words := PushFields(words, proofs[0].pis[..8]);
    WordsAppend(root.value, proofs[0].pis[..8]);
    ghost var header := root.value + proofs[0].pis[..8];
    assert header + Unique(proofs[..0]) == header;
    for i := 0 to |proofs|
      invariant words == Words(header + Unique(proofs[..i]))
    {
      words := PushFields(words, proofs[i].pis[8..]);
      WordsAppend(header + Unique(proofs[..i]), proofs[i].pis[8..]);
      assert proofs[..i + 1][..i] == proofs[..i];
      assert header + Unique(proofs[..i + 1]) == header + Unique(proofs[..i]) + proofs[i].pis[8..];
    }
    assert proofs[..|proofs|] == proofs;
    return Ok(words);
  }

  /** `pi_preimage_bytes`: the printed batch. */
  method PiPreimageBytes(root: Option<HashOutput>, proofs: seq<Proof>) returns (r: Result<seq<byte>, ()>)
    requires AllWellFormed(proofs) && (root.Some? ==> |proofs| > 0)
    ensures r.Ok? <==> root.Some?
    ensures r.Ok? ==> r.value == PrintFields(Fields(root.value, proofs))
  {
    var words := PiPreimageWords(root, proofs);
    if words.Err? {
      return Err(());
    }
    WordBytesArePrinted(Fields(root.value, proofs));
    return Ok(WordBytes(words.value));
  }
}
