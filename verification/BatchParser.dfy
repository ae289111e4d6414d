/**
What the sync service reads at which byte offset of a batch preimage, and the theorem that it
recovers exactly what the server printed.
*/
module BatchParser {
  import opened MachineWords
  import opened Encoding
  import opened BatchPrinter

  const TX_HEADER_SIZE: nat := 96
  const TX_SLOT_SIZE: nat := 520
  const TX_ACCIN_NULL_OFF: nat := 8
  const TX_ACCOUT_COMM_OFF: nat := 40
  const TX_NOTE_IN_OFF: nat := 72
  const TX_NOTE_OUT_OFF: nat := 296
  const W_SLOT_SIZE: nat := 616
  const D_SLOT_SIZE: nat := 216
  const D_SECTION_OFF: nat := TX_HEADER_SIZE + 256 * W_SLOT_SIZE
  const TX_PREIMAGE_LEN: nat := TX_HEADER_SIZE + 64 * TX_SLOT_SIZE
  const BRIDGE_TX_PREIMAGE_LEN: nat := D_SECTION_OFF + 256 * D_SLOT_SIZE

  // --- reading -------------------------------------------------------------------------------------------

  /** The 32 bytes at an offset decode to a digest. */
  ghost predicate Readable(pre: seq<byte>, off: nat) {
    off + 32 <= |pre| && Canonical32(Swapped(pre[off..off + 32], 4))
  }

  function DigestOf(pre: seq<byte>, off: nat): (h: HashOutput)
    requires Readable(pre, off)
  {
    DigestAt(Swapped(pre[off..off + 32], 4))
  }

  /** `read_gl_b32` and `bytes_to_hash`; the latter panics on a limb outside the field. */
  method ReadDigest(pre: seq<byte>, off: nat) returns (h: HashOutput)
    requires Readable(pre, off)
    ensures h == DigestOf(pre, off)
  {
    var raw := RawToPreimage(pre[off..off + 32]);
    var r := Bytes32ToHash(raw);
    h := r.value;
  }

  /** `read_gl_bool` */
  predicate ReadBool(pre: seq<byte>, off: nat)
    requires off + 8 <= |pre|
  {
    FromBE32(pre[off..off + 4]) != 0 || FromBE32(pre[off + 4..off + 8]) != 0
  }

  lemma {:induction false} SliceOfSlice(s: seq<byte>, a: nat, b: nat)
    requires b + 8 <= 32 && a + 32 <= |s|
    ensures s[a..a + 32][b..b + 8] == s[a + b..a + b + 8]
  {
    var outer, inner := s[a..a + 32], s[a + b..a + b + 8];
    assert forall i | 0 <= i < 8 :: outer[b..b + 8][i] == s[a + b + i] == inner[i];
  }

  lemma {:induction false} PrintedLimb(fs: seq<felt>, k: nat, i: nat)
    requires k + 4 <= |fs| && i < 4
    ensures LimbAt(Swapped(PrintFields(fs)[8 * k..8 * k + 32], 4), i) == fs[k + i]
  {
    var pre, f := PrintFields(fs), fs[k + i];
    PrintedAt(fs, k + i);
    SliceOfSlice(pre, 8 * k, 8 * i);
    assert 8 * k + 8 * i == 8 * (k + i);
    LimbOfRaw(pre[8 * k..8 * k + 32], i, f);
  }

  lemma {:induction false} LimbOfRaw(raw: seq<byte>, i: nat, f: felt)
    requires |raw| == 32 && i < 4 && raw[8 * i..8 * i + 8] == PrintField(f)
    ensures LimbAt(Swapped(raw, 4), i) == f
  {
    PrintFieldIsSwapped(f);
    assert Swapped(raw, 4)[8 * i..8 * i + 8] == BE64(f);
    BE64RoundTrip(f);
  }

  /** A printed digest is read back. */
  lemma {:induction false} PrintedDigest(fs: seq<felt>, k: nat)
    requires k + 4 <= |fs|
    ensures Readable(PrintFields(fs), 8 * k) && DigestOf(PrintFields(fs), 8 * k) == fs[k..k + 4]
  {
    var b := Swapped(PrintFields(fs)[8 * k..8 * k + 32], 4);
    forall i: nat | i < 4 ensures LimbAt(b, i) == fs[k..k + 4][i] {
      PrintedLimb(fs, k, i);
    }
  }

  /** A printed flag is read as whether it is nonzero. */
  lemma {:induction false} PrintedFlag(fs: seq<felt>, k: nat)
    requires k < |fs|
    ensures ReadBool(PrintFields(fs), 8 * k) <==> fs[k] != 0
  {
    var pre, f := PrintFields(fs), fs[k];
    PrintedAt(fs, k);
    var c := pre[8 * k..8 * k + 8];
    assert pre[8 * k..8 * k + 4] == c[..4] && pre[8 * k + 4..8 * k + 8] == c[4..];
    assert c[..4] == BE32(f % TWO32) && c[4..] == BE32(f / TWO32);
    BE32RoundTrip(f % TWO32);
    BE32RoundTrip(f / TWO32);
  }

  // --- the layout of a private batch -----------------------------------------------------------------------

  /** Where leaf `i` of the subtree is printed: slot `i / 8`, account commitment first, then notes. */
  function TxLeafOff(i: nat): nat {
    var slot := TX_HEADER_SIZE + (i / 8) * TX_SLOT_SIZE;
    if i % 8 == 0 then slot + TX_ACCOUT_COMM_OFF else slot + TX_NOTE_OUT_OFF + (i % 8 - 1) * 32
  }

  function TxSlotOff(s: nat): nat {
    TX_HEADER_SIZE + s * TX_SLOT_SIZE
  }

  /** Where nullifier `j` of slot `s` is printed: the account's, then the notes'. */
  function TxNullOff(s: nat, j: nat): nat {
    if j == 0 then TxSlotOff(s) + TX_ACCIN_NULL_OFF else TxSlotOff(s) + TX_NOTE_IN_OFF + (j - 1) * 32
  }

  ghost predicate TxReadable(pre: seq<byte>) {
    && |pre| >= TX_PREIMAGE_LEN
    && Readable(pre, 0)
    && (forall i {:trigger Readable(pre, TxLeafOff(i))} | 0 <= i < 512 :: Readable(pre, TxLeafOff(i)))
    && (forall s, j | 0 <= s < 64 && 0 <= j < 8 && ReadBool(pre, TxSlotOff(s)) :: Readable(pre, TxNullOff(s, j)))
  }

  /** The leaves the parser finds, in leaf order. */
  function TxLeaves(pre: seq<byte>): (r: seq<HashOutput>)
    requires TxReadable(pre)
    ensures |r| == 512
    ensures forall i {:trigger DigestOf(pre, TxLeafOff(i))} | 0 <= i < 512 :: r[i] == DigestOf(pre, TxLeafOff(i))
  {
    TxLeavesUpTo(pre, 512)
  }

  /** The first `n` of them. */
  function TxLeavesUpTo(pre: seq<byte>, n: nat): (r: seq<HashOutput>)
    requires TxReadable(pre) && n <= 512
    ensures |r| == n
    ensures forall i {:trigger DigestOf(pre, TxLeafOff(i))} | 0 <= i < n :: r[i] == DigestOf(pre, TxLeafOff(i))
    decreases |pre|, n
  {
    if n == 0 then [] else TxLeavesUpTo(pre, n - 1) + [DigestOf(pre, TxLeafOff(n - 1))]
  }

  function TxSlotNullifiers(pre: seq<byte>, s: nat): (r: seq<HashOutput>)
    requires TxReadable(pre) && s < 64
    ensures ReadBool(pre, TxSlotOff(s)) ==> |r| == 8 && forall j | 0 <= j < 8 :: r[j] == DigestOf(pre, TxNullOff(s, j))
  {
    if ReadBool(pre, TxSlotOff(s)) then seq(8, j requires 0 <= j < 8 => DigestOf(pre, TxNullOff(s, j))) else []
  }

  /** The nullifiers the parser finds in the first `n` slots. */
  function TxNullifiers(pre: seq<byte>, n: nat): seq<HashOutput>
    requires TxReadable(pre) && n <= 64
    decreases |pre|, n
  {
    if n == 0 then [] else TxNullifiers(pre, n - 1) + TxSlotNullifiers(pre, n - 1)
  }

  /** The nullifiers a private proof prints: none for a fake one. */
  function ProofNullifiers(p: Proof): (r: seq<HashOutput>)
    requires p.WellFormed()
  {
    if p.pis[8] == 0 then []
    else if p.kind == Private then [p.pis[9..13]] + seq(7, i requires 0 <= i < 7 => p.pis[17 + 4 * i..21 + 4 * i])
    else [p.pis[9..13]]
  }

  function AllNullifiers(proofs: seq<Proof>, n: nat): seq<HashOutput>
    requires AllWellFormed(proofs) && n <= |proofs|
  {
    if n == 0 then [] else AllNullifiers(proofs, n - 1) + ProofNullifiers(proofs[n - 1])
  }

  // --- private batches: print, then parse -----------------------------------------------------------------------

  /** Four printed inputs of a slot, at the offset the parser uses. */
  lemma {:induction false} SlotDigest(root: HashOutput, proofs: seq<Proof>, s: nat, j: nat, off: nat)
    requires AllWellFormed(proofs) && s < |proofs| && j + 4 <= UniqueLen(proofs[s].kind)
    requires off == 8 * (12 + SlotStart(proofs, s) + j)
    ensures var pre := PrintFields(Fields(root, proofs));
            Readable(pre, off) && DigestOf(pre, off) == proofs[s].pis[8 + j..12 + j]
  {
    FieldWindow(root, proofs, s, j, 4);
    DigestAtOffset(Fields(root, proofs), 12 + SlotStart(proofs, s) + j, off, proofs[s].pis[8 + j..12 + j]);
  }

  lemma {:induction false} DigestAtOffset(fs: seq<felt>, k: nat, off: nat, digest: seq<felt>)
    requires k + 4 <= |fs| && off == 8 * k && fs[k..k + 4] == digest
    ensures Readable(PrintFields(fs), off) && DigestOf(PrintFields(fs), off) == digest
  {
    PrintedDigest(fs, k);
  }

  lemma {:induction false} SlotFlag(root: HashOutput, proofs: seq<Proof>, s: nat, off: nat)
    requires AllWellFormed(proofs) && s < |proofs|
    requires off == 8 * (12 + SlotStart(proofs, s))
    ensures var pre := PrintFields(Fields(root, proofs));
            off + 8 <= |pre| && (ReadBool(pre, off) <==> proofs[s].pis[8] != 0)
  {
    var fs, k := Fields(root, proofs), 12 + SlotStart(proofs, s);
    FieldWindow(root, proofs, s, 0, 1);
    assert fs[k] == fs[k..k + 1][0];
    PrintedFlag(fs, k);
  }

  lemma {:induction false} HeaderDigest(root: HashOutput, proofs: seq<Proof>)
    requires AllWellFormed(proofs) && |proofs| > 0
    ensures var pre := PrintFields(Fields(root, proofs)); Readable(pre, 0) && DigestOf(pre, 0) == root
  {
    PrintedDigest(Fields(root, proofs), 0);
    assert Fields(root, proofs)[0..4] == root;
  }

  /** Where the commitment behind leaf `8*s + j` sits among a private proof's inputs. */
  function CommitmentPi(j: nat): nat {
    if j == 0 then 13 else 45 + 4 * (j - 1)
  }

  lemma {:induction false} TxLeafIs(proofs: seq<Proof>, s: nat, j: nat)
    requires PrivateBatch(proofs) && s < 64 && j < 8
    ensures 8 * s + j < |Leaves(proofs)|
    ensures Leaves(proofs)[8 * s + j] == proofs[s].pis[CommitmentPi(j)..CommitmentPi(j) + 4]
  {
    PrivateLeafStart(proofs, s);
    LeafAt(proofs, s, j);
    PrivateCommitment(proofs[s], j, OutputCommitments(proofs[s]));
  }

  lemma {:induction false} PrivateCommitment(p: Proof, j: nat, cs: seq<HashOutput>)
    requires p.WellFormed() && p.kind == Private && j < 8 && cs == OutputCommitments(p)
    ensures cs[j] == p.pis[CommitmentPi(j)..CommitmentPi(j) + 4]
  {
  }

  lemma {:induction false} TxLeafDigest(root: HashOutput, proofs: seq<Proof>, s: nat, j: nat)
    requires PrivateBatch(proofs) && s < 64 && j < 8
    ensures var pre := PrintFields(Fields(root, proofs));
            && Readable(pre, TxLeafOff(8 * s + j))
            && DigestOf(pre, TxLeafOff(8 * s + j)) == proofs[s].pis[CommitmentPi(j)..CommitmentPi(j) + 4]
  {
    PrivateSlotStart(proofs, s);
    assert (8 * s + j) / 8 == s && (8 * s + j) % 8 == j;
    SlotDigest(root, proofs, s, CommitmentPi(j) - 8, TxLeafOff(8 * s + j));
  }

  lemma {:induction false} PrintedTxLeaf(root: HashOutput, proofs: seq<Proof>, i: nat)
    requires PrivateBatch(proofs) && i < 512
    ensures var pre := PrintFields(Fields(root, proofs));
            Readable(pre, TxLeafOff(i)) && i < |Leaves(proofs)| && DigestOf(pre, TxLeafOff(i)) == Leaves(proofs)[i]
  {
    assert i == 8 * (i / 8) + i % 8;
    TxLeafIs(proofs, i / 8, i % 8);
    TxLeafDigest(root, proofs, i / 8, i % 8);
  }

  lemma {:induction false} PrintedTxNullifier(root: HashOutput, proofs: seq<Proof>, s: nat, j: nat)
    requires PrivateBatch(proofs) && s < 64 && j < 8
    ensures var pre := PrintFields(Fields(root, proofs));
            && Readable(pre, TxNullOff(s, j))
            && DigestOf(pre, TxNullOff(s, j))
               == if j == 0 then proofs[s].pis[9..13] else proofs[s].pis[13 + 4 * j..17 + 4 * j]
  {
    PrivateSlotStart(proofs, s);
    SlotDigest(root, proofs, s, if j == 0 then 1 else 9 + 4 * (j - 1), TxNullOff(s, j));
  }

  lemma {:induction false} PrintedTxFlag(root: HashOutput, proofs: seq<Proof>, s: nat)
    requires PrivateBatch(proofs) && s < 64
    ensures var pre := PrintFields(Fields(root, proofs));
            |pre| == TX_PREIMAGE_LEN && (ReadBool(pre, TxSlotOff(s)) <==> proofs[s].pis[8] != 0)
  {
    PrivateSlotStart(proofs, s);
    PrivateSlotStart(proofs, 64);
    UniqueLength(proofs);
    SlotFlag(root, proofs, s, TxSlotOff(s));
  }

  /** A printed private batch can be read everywhere the parser reads. */
  lemma {:induction false} PrintedTxReadable(root: HashOutput, proofs: seq<Proof>)
    requires PrivateBatch(proofs)
    ensures TxReadable(PrintFields(Fields(root, proofs)))
    ensures DigestOf(PrintFields(Fields(root, proofs)), 0) == root
  {
    var pre := PrintFields(Fields(root, proofs));
    PrintedTxFlag(root, proofs, 0);
    HeaderDigest(root, proofs);
    forall i: nat | i < 512 ensures Readable(pre, TxLeafOff(i)) {
      PrintedTxLeaf(root, proofs, i);
    }
    forall s: nat, j: nat | s < 64 && j < 8 ensures Readable(pre, TxNullOff(s, j)) {
      PrintedTxNullifier(root, proofs, s, j);
    }
  }

  /** The parser recovers the printed output commitments, in leaf order. */
  lemma {:induction false} ParsedTxLeaves(root: HashOutput, proofs: seq<Proof>)
    requires PrivateBatch(proofs)
    requires TxReadable(PrintFields(Fields(root, proofs)))
    ensures TxLeaves(PrintFields(Fields(root, proofs))) == Leaves(proofs)
  {
    LeavesLength(proofs);
    PrivateLeafStart(proofs, 64);
    forall i: nat | i < 512 ensures TxLeaves(PrintFields(Fields(root, proofs)))[i] == Leaves(proofs)[i] {
      PrintedTxLeaf(root, proofs, i);
    }
  }

  lemma {:induction false} PrivateNullifierAt(p: Proof, j: nat)
    requires p.WellFormed() && p.kind == Private && p.pis[8] != 0 && j < 8
    ensures |ProofNullifiers(p)| == 8
    ensures ProofNullifiers(p)[j] == if j == 0 then p.pis[9..13] else p.pis[13 + 4 * j..17 + 4 * j]
  {
  }

  lemma {:induction false} ParsedTxSlotNullifiers(root: HashOutput, proofs: seq<Proof>, s: nat)
    requires PrivateBatch(proofs) && s < 64
    requires TxReadable(PrintFields(Fields(root, proofs)))
    ensures TxSlotNullifiers(PrintFields(Fields(root, proofs)), s) == ProofNullifiers(proofs[s])
  {
    var pre := PrintFields(Fields(root, proofs));
    PrintedTxFlag(root, proofs, s);
    if proofs[s].pis[8] != 0 {
      var found, printed := TxSlotNullifiers(pre, s), ProofNullifiers(proofs[s]);
      forall j: nat | j < 8 ensures found[j] == printed[j] {
        PrintedTxNullifier(root, proofs, s, j);
        PrivateNullifierAt(proofs[s], j);
      }
    }
  }

  /** The parser recovers the nullifiers of the slots that are not fake, in order. */
  lemma {:induction false} ParsedTxNullifiers(root: HashOutput, proofs: seq<Proof>, n: nat)
    requires PrivateBatch(proofs) && n <= 64
    requires TxReadable(PrintFields(Fields(root, proofs)))
    ensures TxNullifiers(PrintFields(Fields(root, proofs)), n) == AllNullifiers(proofs, n)
  {
    if n > 0 {
      ParsedTxNullifiers(root, proofs, n - 1);
      ParsedTxSlotNullifiers(root, proofs, n - 1);
    }
  }

  // --- bridge batches ----------------------------------------------------------------------------------------------

  /** Slot `s` of a bridge batch: withdrawals first, then deposits. */
  function BridgeSlotOff(s: nat): nat {
    if s < 256 then TX_HEADER_SIZE + s * W_SLOT_SIZE else D_SECTION_OFF + (s - 256) * D_SLOT_SIZE
  }

  /** Where the commitment of slot `s` is printed. */
  function BridgeLeafOff(s: nat): nat {
    BridgeSlotOff(s) + 40
  }

  /** Where the nullifier of slot `s` is printed. */
  function BridgeNullOff(s: nat): nat {
    BridgeSlotOff(s) + 8
  }

  ghost predicate BridgeReadable(pre: seq<byte>) {
    && |pre| >= BRIDGE_TX_PREIMAGE_LEN
    && Readable(pre, 0)
    && (forall s {:trigger Readable(pre, BridgeLeafOff(s))} | 0 <= s < 512 :: Readable(pre, BridgeLeafOff(s)))
    && (forall s | 0 <= s < 512 && ReadBool(pre, BridgeSlotOff(s)) :: Readable(pre, BridgeNullOff(s)))
  }

  function BridgeLeaves(pre: seq<byte>): (r: seq<HashOutput>)
    requires BridgeReadable(pre)
    ensures |r| == 512
    ensures forall i {:trigger DigestOf(pre, BridgeLeafOff(i))} | 0 <= i < 512 ::
              r[i] == DigestOf(pre, BridgeLeafOff(i))
  {
    BridgeLeavesUpTo(pre, 512)
  }

  /** The first `n` of them. */
  function BridgeLeavesUpTo(pre: seq<byte>, n: nat): (r: seq<HashOutput>)
    requires BridgeReadable(pre) && n <= 512
    ensures |r| == n
    ensures forall i {:trigger DigestOf(pre, BridgeLeafOff(i))} | 0 <= i < n :: r[i] == DigestOf(pre, BridgeLeafOff(i))
    decreases |pre|, n
  {
    if n == 0 then []
    else
      var init, last := BridgeLeavesUpTo(pre, n - 1), DigestOf(pre, BridgeLeafOff(n - 1));
      assert forall i {:trigger DigestOf(pre, BridgeLeafOff(i))} | 0 <= i < n - 1 ::
          (init + [last])[i] == init[i] == DigestOf(pre, BridgeLeafOff(i));
      init + [last]
  }

  function BridgeSlotNullifiers(pre: seq<byte>, s: nat): seq<HashOutput>
    requires BridgeReadable(pre) && s < 512
  {
    if ReadBool(pre, BridgeSlotOff(s)) then [DigestOf(pre, BridgeNullOff(s))] else []
  }

  function BridgeNullifiers(pre: seq<byte>, n: nat): seq<HashOutput>
    requires BridgeReadable(pre) && n <= 512
    decreases |pre|, n
  {
    if n == 0 then [] else BridgeNullifiers(pre, n - 1) + BridgeSlotNullifiers(pre, n - 1)
  }

  lemma {:induction false} PrintedBridgeLength(root: HashOutput, proofs: seq<Proof>)
    requires BridgeBatch(proofs)
    ensures |PrintFields(Fields(root, proofs))| == BRIDGE_TX_PREIMAGE_LEN
  {
    BridgeSlotStart(proofs, 512);
    UniqueLength(proofs);
  }

  lemma {:induction false} BridgeSlotOffset(proofs: seq<Proof>, s: nat)
    requires BridgeBatch(proofs) && s < 512
    ensures BridgeSlotOff(s) == 8 * (12 + SlotStart(proofs, s))
    ensures proofs[s].kind != Private
  {
    BridgeSlotStart(proofs, s);
  }

  lemma {:induction false} PrintedBridgeFlag(root: HashOutput, proofs: seq<Proof>, s: nat)
    requires BridgeBatch(proofs) && s < 512
    ensures var pre := PrintFields(Fields(root, proofs));
            BridgeNullOff(s) <= |pre| && (ReadBool(pre, BridgeSlotOff(s)) <==> proofs[s].pis[8] != 0)
  {
    BridgeSlotOffset(proofs, s);
    SlotFlag(root, proofs, s, BridgeSlotOff(s));
  }

  lemma {:induction false} PrintedBridgeNullifier(root: HashOutput, proofs: seq<Proof>, s: nat)
    requires BridgeBatch(proofs) && s < 512
    ensures var pre := PrintFields(Fields(root, proofs));
            Readable(pre, BridgeNullOff(s)) && DigestOf(pre, BridgeNullOff(s)) == proofs[s].pis[9..13]
  {
    BridgeSlotOffset(proofs, s);
    SlotDigest(root, proofs, s, 1, BridgeNullOff(s));
  }

  lemma {:induction false} PrintedBridgeCommitment(root: HashOutput, proofs: seq<Proof>, s: nat)
    requires BridgeBatch(proofs) && s < 512
    ensures var pre := PrintFields(Fields(root, proofs));
            Readable(pre, BridgeLeafOff(s)) && DigestOf(pre, BridgeLeafOff(s)) == proofs[s].pis[13..17]
  {
    BridgeSlotOffset(proofs, s);
    SlotDigest(root, proofs, s, 5, BridgeLeafOff(s));
  }

  lemma {:induction false} PrintedBridgeReadable(root: HashOutput, proofs: seq<Proof>)
    requires BridgeBatch(proofs)
    ensures BridgeReadable(PrintFields(Fields(root, proofs)))
    ensures DigestOf(PrintFields(Fields(root, proofs)), 0) == root
  {
    var pre := PrintFields(Fields(root, proofs));
    HeaderDigest(root, proofs);
    PrintedBridgeLength(root, proofs);
    forall s: nat | s < 512
      ensures Readable(pre, BridgeLeafOff(s)) && Readable(pre, BridgeNullOff(s))
    {
      PrintedBridgeCommitment(root, proofs, s);
      PrintedBridgeNullifier(root, proofs, s);
    }
  }

  lemma {:induction false} PrintedBridgeLeaf(root: HashOutput, proofs: seq<Proof>, i: nat)
    requires BridgeBatch(proofs) && i < 512
    ensures var pre := PrintFields(Fields(root, proofs));
            && Readable(pre, BridgeLeafOff(i)) && i < |Leaves(proofs)|
            && DigestOf(pre, BridgeLeafOff(i)) == Leaves(proofs)[i]
  {
    PrintedBridgeCommitment(root, proofs, i);
    BridgeSlotOffset(proofs, i);
    BridgeLeafStart(proofs, i);
    LeafAt(proofs, i, 0);
  }

  lemma {:induction false} ParsedBridgeLeaves(root: HashOutput, proofs: seq<Proof>)
    requires BridgeBatch(proofs)
    requires BridgeReadable(PrintFields(Fields(root, proofs)))
    ensures BridgeLeaves(PrintFields(Fields(root, proofs))) == Leaves(proofs)
  {
    LeavesLength(proofs);
    BridgeLeafStart(proofs, 512);
    forall i: nat | i < 512 ensures BridgeLeaves(PrintFields(Fields(root, proofs)))[i] == Leaves(proofs)[i] {
      PrintedBridgeLeaf(root, proofs, i);
    }
  }

  lemma {:induction false} ParsedBridgeSlotNullifiers(root: HashOutput, proofs: seq<Proof>, s: nat)
    requires BridgeBatch(proofs) && s < 512
    requires BridgeReadable(PrintFields(Fields(root, proofs)))
    ensures BridgeSlotNullifiers(PrintFields(Fields(root, proofs)), s) == ProofNullifiers(proofs[s])
  {
    PrintedBridgeFlag(root, proofs, s);
    PrintedBridgeNullifier(root, proofs, s);
    BridgeSlotOffset(proofs, s);
  }

  lemma {:induction false} ParsedBridgeNullifiers(root: HashOutput, proofs: seq<Proof>, n: nat)
    requires BridgeBatch(proofs) && n <= 512
    requires BridgeReadable(PrintFields(Fields(root, proofs)))
    ensures BridgeNullifiers(PrintFields(Fields(root, proofs)), n) == AllNullifiers(proofs, n)
  {
    if n > 0 {
      ParsedBridgeNullifiers(root, proofs, n - 1);
      ParsedBridgeSlotNullifiers(root, proofs, n - 1);
    }
  }
}
