/** The sync service's state object. Every method is proved against the transitions of `SyncSpec`. */
module StateSync {
  import opened Arith
  import opened MachineWords
  import opened Encoding
  import opened MerkleSpec
  import opened Merkle
  import opened BatchPrinter
  import opened BatchParser
  import opened SyncSpec
  import opened SyncTheorems
  import opened SyncRuns
  import opened SyncReplays

  datatype CommitmentStatus =
    | Confirmed(batchSubtreePath: MerkleProof<HashOutput>, stateTreePath: MerkleProof<HashOutput>)
    | Pending(pi: Pi)
    | NotFound

  datatype Status = IsConfirmed | IsPending | IsUnknown

  type Tree = MerkleTree<HashOutput>

  class StateSyncState {
    const h: Hasher<HashOutput>
    const stateTree: Tree
    var rootIndex: map<seq<byte>, nat>
    var located: map<HashOutput, Location>
    var roots: set<HashOutput>
    var pendingLeaves: map<Pi, seq<HashOutput>>
    var subtrees: map<Pi, Tree>
    var batchRoots: map<Pi, HashOutput>
    var pendingTx: map<Pi, seq<byte>>
    var pendingBridge: map<Pi, seq<byte>>
    var confirmedTx: set<Pi>
    var confirmedBridge: set<Pi>
    var spent: set<HashOutput>
    var pendingNull: map<HashOutput, Pi>

    /** The leaves of every confirmed subtree. */
    ghost var subtreeLeaves: map<Pi, seq<HashOutput>>

    ghost predicate TreesOk()
      reads this`subtrees, this`subtreeLeaves, stateTree, subtrees.Values
    {
      && stateTree.Valid() && stateTree.h == h
      && subtreeLeaves.Keys == subtrees.Keys
      && forall pi | pi in subtrees ::
           && subtrees[pi] != stateTree && subtrees[pi].Valid() && subtrees[pi].h == h && subtrees[pi].Depth() == 9
           && subtrees[pi].leaves == subtreeLeaves[pi]
    }

    ghost predicate Valid()
      reads this`subtrees, this`subtreeLeaves, this`pendingLeaves, stateTree, subtrees.Values
    {
      TreesOk() && AllFull(pendingLeaves)
    }

    /** The state as a value. */
    ghost function Abs(): Sync
      reads this, stateTree
    {
      Sync(stateTree.Depth(), stateTree.leaves, rootIndex, located, roots, pendingLeaves, subtreeLeaves, batchRoots,
           pendingTx, pendingBridge, confirmedTx, confirmedBridge, spent, pendingNull)
    }

    constructor (h: Hasher<HashOutput>, depth: nat)
      requires depth >= 1
      ensures Valid() && fresh(stateTree) && this.h == h && Abs() == Initial(h, depth)
    {
      var tree := new MerkleTree<HashOutput>(h, depth);
      var genesisRoot := tree.Root();
      this.h := h;
      stateTree := tree;
      rootIndex, located, roots := map[], map[], {genesisRoot};
      pendingLeaves, subtrees, batchRoots := map[], map[], map[];
      subtreeLeaves := map[];
      pendingTx, pendingBridge, confirmedTx, confirmedBridge, spent, pendingNull := map[], map[], {}, {}, {}, map[];
    }

    /** `add_pending_commitment` */
    method AddPendingCommitment(c: HashOutput, pi: Pi, leafIndex: nat)
      requires AllFull(pendingLeaves)
      modifies this`located, this`pendingLeaves
      ensures located == old(located)[c := Location(pi, leafIndex, false)]
      ensures pendingLeaves == PutLeaf(old(pendingLeaves), pi, c, leafIndex) && AllFull(pendingLeaves)
    {
      located := located[c := Location(pi, leafIndex, false)];
      var leaves: seq<HashOutput> := if pi in pendingLeaves then pendingLeaves[pi] else Blank();
      PutLeafFull(pendingLeaves, pi, c, leafIndex);
      if leafIndex < 512 {
        leaves := leaves[leafIndex := c];
      }
      pendingLeaves := pendingLeaves[pi := leaves];
    }

    /** `add_pending_nullifier` */
    method AddPendingNullifier(n: HashOutput, pi: Pi)
      modifies this`pendingNull
      ensures pendingNull == old(pendingNull)[n := pi]
    {
      pendingNull := pendingNull[n := pi];
    }

    /** The first `n` leaves of a batch have been added to what was there. */
    ghost predicate Added(l0: map<HashOutput, Location>, p0: map<Pi, seq<HashOutput>>, pi: Pi, leaves: seq<HashOutput>,
                          n: nat)
      reads this`located, this`pendingLeaves
    {
      && n <= |leaves| && AllFull(pendingLeaves)
      && located == Locate(l0, pi, leaves, n) && pendingLeaves == PutLeaves(p0, pi, leaves, n)
    }

    /** Read a digest and add it as the next leaf of a batch. */
    method AddLeaf(pre: seq<byte>, off: nat, pi: Pi, i: nat,
                   ghost l0: map<HashOutput, Location>, ghost p0: map<Pi, seq<HashOutput>>,
                   ghost leaves: seq<HashOutput>)
      requires Readable(pre, off) && i < |leaves| && leaves[i] == DigestOf(pre, off)
      requires Added(l0, p0, pi, leaves, i)
      modifies this`located, this`pendingLeaves
      ensures Added(l0, p0, pi, leaves, i + 1)
    {
      var c := ReadDigest(pre, off);
      AddPendingCommitment(c, pi, i);
    }

    /** Read a digest and add it as the next nullifier. */
    method AddReadNullifier(pre: seq<byte>, off: nat, pi: Pi, ghost n0: map<HashOutput, Pi>,
                            ghost found: seq<HashOutput>)
      requires Readable(pre, off)
      requires pendingNull == Mark(n0, pi, found)
      modifies this`pendingNull
      ensures pendingNull == Mark(n0, pi, found + [DigestOf(pre, off)])
    {
      var n := ReadDigest(pre, off);
      AddPendingNullifier(n, pi);
      assert (found + [n])[..|found|] == found;
    }

    /** Leaf `j` of a private slot: the account commitment, then the note commitments. */
    method AddTxLeaf(pre: seq<byte>, pi: Pi, s: nat, j: nat,
                     ghost l0: map<HashOutput, Location>, ghost p0: map<Pi, seq<HashOutput>>,
                     ghost leaves: seq<HashOutput>)
      requires s < 64 && j < 8 && 8 * s + j < |leaves| && ReadsLeaf(pre, leaves, 8 * s + j)
          && Added(l0, p0, pi, leaves, 8 * s + j)
      modifies this`located, this`pendingLeaves
      ensures Added(l0, p0, pi, leaves, 8 * s + j + 1)
    {
      TxLeafOffIs(s, j);
      AddLeaf(pre, TxOutputOff(s, j), pi, 8 * s + j, l0, p0, leaves);
    }

    /** The commitments of one private slot: leaves `8*s` to `8*s + 7`. */
    method ApplyTxSlot(pre: seq<byte>, pi: Pi, s: nat,
                       ghost l0: map<HashOutput, Location>, ghost p0: map<Pi, seq<HashOutput>>,
                       ghost leaves: seq<HashOutput>)
      requires s < 64 && ReadsLeaves(pre, leaves) && Added(l0, p0, pi, leaves, 8 * s)
      modifies this`located, this`pendingLeaves
      ensures Added(l0, p0, pi, leaves, 8 * s + 8)
    {
      for j := 0 to 8
        invariant Added(l0, p0, pi, leaves, 8 * s + j)
      {
        AddTxLeaf(pre, pi, s, j, l0, p0, leaves);
      }
    }

    /** Nullifier `j` of a private slot: the account's, then the notes'. */
    method AddTxNullifier(pre: seq<byte>, pi: Pi, s: nat, j: nat, ghost n0: map<HashOutput, Pi>,
                          ghost found: seq<HashOutput>, ghost slot: seq<HashOutput>)
      requires s < 64 && j < 8 && |slot| == 8 && Readable(pre, TxNullOff(s, j))
          && slot[j] == DigestOf(pre, TxNullOff(s, j))
      requires pendingNull == Mark(n0, pi, found + slot[..j])
      modifies this`pendingNull
      ensures pendingNull == Mark(n0, pi, found + slot[..j + 1])
    {
      var slotOff := TX_HEADER_SIZE + s * TX_SLOT_SIZE;
      var off := if j == 0 then slotOff + TX_ACCIN_NULL_OFF else slotOff + TX_NOTE_IN_OFF + (j - 1) * 32;
      assert found + slot[..j] + [slot[j]] == found + slot[..j + 1];
      AddReadNullifier(pre, off, pi, n0, found + slot[..j]);
    }

    /** The nullifiers of one private slot that is not fake. */
    method ApplyTxSlotNullifiers(pre: seq<byte>, pi: Pi, s: nat, ghost n0: map<HashOutput, Pi>,
                                 ghost found: seq<HashOutput>, ghost slot: seq<HashOutput>)
      requires s < 64 && TxSlotIs(pre, s, slot) && pendingNull == Mark(n0, pi, found)
      modifies this`pendingNull
      ensures pendingNull == Mark(n0, pi, found + slot)
    {
      if !ReadBool(pre, TX_HEADER_SIZE + s * TX_SLOT_SIZE) {
        assert found + slot == found;
        return;
      }
      assert found + slot[..0] == found;
      for j := 0 to 8
        invariant pendingNull == Mark(n0, pi, found + slot[..j])
      {
        AddTxNullifier(pre, pi, s, j, n0, found, slot);
      }
      assert slot[..8] == slot;
    }

    /** The first loop of `apply_tx_preimage`: all slots contribute their commitments. */
    method ApplyTxCommitments(pre: seq<byte>, pi: Pi, ghost leaves: seq<HashOutput>)
      requires ReadsLeaves(pre, leaves) && AllFull(pendingLeaves)
      modifies this`located, this`pendingLeaves
      ensures Added(old(located), old(pendingLeaves), pi, leaves, |leaves|)
    {
      ghost var l0, p0 := located, pendingLeaves;
      for s := 0 to 64
        invariant Added(l0, p0, pi, leaves, 8 * s)
      {
        ApplyTxSlot(pre, pi, s, l0, p0, leaves);
      }
    }

    /** The second loop: the nullifiers of the slots that are not fake. */
    method ApplyTxNullifiers(pre: seq<byte>, pi: Pi)
      requires TxReadable(pre)
      modifies this`pendingNull
      ensures pendingNull == Mark(old(pendingNull), pi, TxNullifiers(pre, 64))
    {
      ghost var n0 := pendingNull;
      for s := 0 to 64
        invariant pendingNull == Mark(n0, pi, TxNullifiers(pre, s))
      {
        TxSlotReads(pre, s);
        ApplyTxSlotNullifiers(pre, pi, s, n0, TxNullifiers(pre, s), TxSlotNullifiers(pre, s));
      }
    }

    /** Add all commitments of a private batch. */
    method AddTxCommitments(pre: seq<byte>, pi: Pi, ghost leaves: seq<HashOutput>)
      requires Valid() && ReadsLeaves(pre, leaves)
      modifies this`located, this`pendingLeaves
      ensures Valid() && Abs() == AddCommitments(old(Abs()), pi, leaves)
    {
      ApplyTxCommitments(pre, pi, leaves);
    }

    /** Add all nullifiers of a private batch. */
    method AddTxNullifiers(pre: seq<byte>, pi: Pi, ghost ns: seq<HashOutput>)
      requires Valid() && TxReadable(pre) && ns == TxNullifiers(pre, 64)
      modifies this`pendingNull
      ensures Valid() && Abs() == AddNullifiers(old(Abs()), pi, ns)
    {
      ApplyTxNullifiers(pre, pi);
    }

    /** Store a pending private batch. */
    method RecordTx(pre: seq<byte>, pi: Pi)
      requires Valid()
      modifies this`pendingTx
      ensures Valid() && Abs() == Record(old(Abs()), Transaction, pi, pre)
    {
      pendingTx := pendingTx[pi := pre];
    }

    /** `apply_tx_preimage`: rejects a short preimage, otherwise adds what it reads. */
    method ApplyTxPreimage(pre: seq<byte>, pi: Pi) returns (r: Result<(), ()>)
      requires Valid() && (|pre| >= TX_PREIMAGE_LEN ==> TxReadable(pre))
      modifies this`located, this`pendingLeaves, this`pendingNull, this`pendingTx
      ensures Valid()
      ensures r.Ok? <==> |pre| >= TX_PREIMAGE_LEN
      ensures Abs() ==
          if r.Ok? then Applied(old(Abs()), Transaction, pi, pre, TxLeaves(pre), TxNullifiers(pre, 64))
          else old(Abs())
    {
      if |pre| < TX_PREIMAGE_LEN {
        return Err(());
      }
      ghost var leaves, ns := TxLeaves(pre), TxNullifiers(pre, 64);
      TxLeavesRead(pre);
      AddTxCommitments(pre, pi, leaves);
      AddTxNullifiers(pre, pi, ns);
      RecordTx(pre, pi);
      return Ok(());
    }

    // --- bridge batches -----------------------------------------------------------------------------------

    /** The nullifier of one bridge slot, unless the slot is fake. */
    method ApplyBridgeNullifier(pre: seq<byte>, pi: Pi, off: nat, ghost n0: map<HashOutput, Pi>,
                                ghost found: seq<HashOutput>, ghost slot: seq<HashOutput>)
      requires BridgeSlotIs(pre, off, slot) && pendingNull == Mark(n0, pi, found)
      modifies this`pendingNull
      ensures pendingNull == Mark(n0, pi, found + slot)
    {
      if !ReadBool(pre, off) {
        assert found + slot == found;
        return;
      }
      AddReadNullifier(pre, off + BRIDGE_ACCIN_NULL_OFF, pi, n0, found);
    }

    /** One slot of either loop: the commitment is leaf `s`, then the nullifier. */
    method ApplyBridgeSlot(pre: seq<byte>, pi: Pi, s: nat, off: nat, ghost l0: map<HashOutput, Location>,
                           ghost p0: map<Pi, seq<HashOutput>>,
                           ghost n0: map<HashOutput, Pi>, ghost leaves: seq<HashOutput>, ghost found: seq<HashOutput>,
                           ghost slot: seq<HashOutput>)
      requires s < |leaves| && Readable(pre, off + 40) && leaves[s] == DigestOf(pre, off + 40)
          && BridgeSlotIs(pre, off, slot)
      requires Added(l0, p0, pi, leaves, s) && pendingNull == Mark(n0, pi, found)
      modifies this`located, this`pendingLeaves, this`pendingNull
      ensures Added(l0, p0, pi, leaves, s + 1) && pendingNull == Mark(n0, pi, found + slot)
    {
      AddLeaf(pre, off + BRIDGE_ACCOUT_COMM_OFF, pi, s, l0, p0, leaves);
      ApplyBridgeNullifier(pre, pi, off, n0, found, slot);
    }

    /** The first `s` slots of a bridge preimage have been applied. */
    ghost predicate BridgeProgress(pre: seq<byte>, pi: Pi, l0: map<HashOutput, Location>, p0: map<Pi, seq<HashOutput>>,
                                   n0: map<HashOutput, Pi>, s: nat)
      requires BridgeReadable(pre)
      reads this`located, this`pendingLeaves, this`pendingNull
    {
      s <= 512 && Added(l0, p0, pi, BridgeLeaves(pre), s) && pendingNull == Mark(n0, pi, BridgeNullifiers(pre, s))
    }

    method ApplyBridgeAt(pre: seq<byte>, pi: Pi, s: nat, off: nat,
                         ghost l0: map<HashOutput, Location>, ghost p0: map<Pi, seq<HashOutput>>,
                         ghost n0: map<HashOutput, Pi>)
      requires BridgeReadable(pre) && s < 512 && off == BridgeSlotOff(s) && BridgeProgress(pre, pi, l0, p0, n0, s)
      modifies this`located, this`pendingLeaves, this`pendingNull
      ensures BridgeProgress(pre, pi, l0, p0, n0, s + 1)
    {
      ghost var leaves, found, slot := BridgeLeaves(pre), BridgeNullifiers(pre, s), BridgeSlotNullifiers(pre, s);
      BridgeLeafReads(pre, s, off, leaves);
      BridgeSlotReads(pre, s, off, slot);
      ApplyBridgeSlot(pre, pi, s, off, l0, p0, n0, leaves, found, slot);
    }

    /** The first loop of `apply_bridge_preimage`: withdrawal `s` is leaf `s`. */
    method ApplyWithdrawals(pre: seq<byte>, pi: Pi, ghost l0: map<HashOutput, Location>,
                            ghost p0: map<Pi, seq<HashOutput>>, ghost n0: map<HashOutput, Pi>)
      requires BridgeReadable(pre) && BridgeProgress(pre, pi, l0, p0, n0, 0)
      modifies this`located, this`pendingLeaves, this`pendingNull
      ensures BridgeProgress(pre, pi, l0, p0, n0, BRIDGE_HALF)
    {
      for s := 0 to BRIDGE_HALF
        invariant BridgeProgress(pre, pi, l0, p0, n0, s)
      {
        ApplyBridgeAt(pre, pi, s, TX_HEADER_SIZE + s * W_SLOT_SIZE, l0, p0, n0);
      }
    }

    /** The second loop: deposit `s` is leaf `256 + s`. */
    method ApplyDeposits(pre: seq<byte>, pi: Pi, ghost l0: map<HashOutput, Location>,
                         ghost p0: map<Pi, seq<HashOutput>>, ghost n0: map<HashOutput, Pi>)
      requires BridgeReadable(pre) && BridgeProgress(pre, pi, l0, p0, n0, BRIDGE_HALF)
      modifies this`located, this`pendingLeaves, this`pendingNull
      ensures BridgeProgress(pre, pi, l0, p0, n0, 512)
    {
      for s := 0 to BRIDGE_HALF
        invariant BridgeProgress(pre, pi, l0, p0, n0, BRIDGE_HALF + s)
      {
        ApplyBridgeAt(pre, pi, BRIDGE_HALF + s, D_SECTION_OFF + s * D_SLOT_SIZE, l0, p0, n0);
      }
    }

    /** Both sections of a bridge preimage: withdrawals, then deposits. */
    method ApplyBridgeSlots(pre: seq<byte>, pi: Pi, ghost leaves: seq<HashOutput>, ghost ns: seq<HashOutput>)
      requires BridgeReadable(pre) && leaves == BridgeLeaves(pre) && ns == BridgeNullifiers(pre, 512)
      requires AllFull(pendingLeaves)
      modifies this`located, this`pendingLeaves, this`pendingNull
      ensures Added(old(located), old(pendingLeaves), pi, leaves, |leaves|)
      ensures pendingNull == Mark(old(pendingNull), pi, ns)
    {
      ghost var l0, p0, n0 := located, pendingLeaves, pendingNull;
      ApplyWithdrawals(pre, pi, l0, p0, n0);
      ApplyDeposits(pre, pi, l0, p0, n0);
    }

    method AddBridgeFields(pre: seq<byte>, pi: Pi, ghost leaves: seq<HashOutput>, ghost ns: seq<HashOutput>)
      requires Valid() && BridgeReadable(pre) && leaves == BridgeLeaves(pre) && ns == BridgeNullifiers(pre, 512)
      modifies this`located, this`pendingLeaves, this`pendingNull
      ensures Valid() && located == Locate(old(located), pi, leaves, |leaves|)
      ensures pendingLeaves == PutLeaves(old(pendingLeaves), pi, leaves, |leaves|)
      ensures pendingNull == Mark(old(pendingNull), pi, ns)
    {
      ApplyBridgeSlots(pre, pi, leaves, ns);
    }

    /** Add all commitments and nullifiers of a bridge batch. */
    method AddBridge(pre: seq<byte>, pi: Pi, ghost leaves: seq<HashOutput>, ghost ns: seq<HashOutput>)
      requires Valid() && BridgeReadable(pre) && leaves == BridgeLeaves(pre) && ns == BridgeNullifiers(pre, 512)
      modifies this`located, this`pendingLeaves, this`pendingNull
      ensures Valid() && Abs() == AddNullifiers(AddCommitments(old(Abs()), pi, leaves), pi, ns)
    {
      ghost var st := Abs();
      AddBridgeFields(pre, pi, leaves, ns);
      AddedBoth(st, Abs(), pi, leaves, ns);
    }

    method RecordBridge(pre: seq<byte>, pi: Pi)
      requires Valid()
      modifies this`pendingBridge
      ensures Valid() && Abs() == Record(old(Abs()), BridgeTx, pi, pre)
    {
      pendingBridge := pendingBridge[pi := pre];
    }

    /** `apply_bridge_preimage` */
    method ApplyBridgePreimage(pre: seq<byte>, pi: Pi) returns (r: Result<(), ()>)
      requires Valid() && (|pre| >= BRIDGE_TX_PREIMAGE_LEN ==> BridgeReadable(pre))
      modifies this`located, this`pendingLeaves, this`pendingNull, this`pendingBridge
      ensures Valid()
      ensures r.Ok? <==> |pre| >= BRIDGE_TX_PREIMAGE_LEN
      ensures Abs() ==
          if r.Ok? then Applied(old(Abs()), BridgeTx, pi, pre, BridgeLeaves(pre), BridgeNullifiers(pre, 512))
          else old(Abs())
    {
      if |pre| < BRIDGE_TX_PREIMAGE_LEN {
        return Err(());
      }
      ghost var leaves, ns := BridgeLeaves(pre), BridgeNullifiers(pre, 512);
      AddBridge(pre, pi, leaves, ns);
      RecordBridge(pre, pi);
      return Ok(());
    }

    // --- confirmation -------------------------------------------------------------------------------------

    /** `insert_state_tree_leaf` */
    method InsertStateTreeLeaf(root: HashOutput) returns (r: Result<nat, ()>)
      requires Valid()
      modifies this`rootIndex, stateTree`leaves, stateTree`layers
      ensures Valid()
      ensures r == if |old(stateTree.leaves)| < Pow2(old(stateTree.Depth())) then Ok(|old(stateTree.leaves)|)
                   else Err(())
      ensures Abs() == if r.Ok? then PutRoot(old(Abs()), root) else old(Abs())
    {
      var index := stateTree.Insert(root);
      if index.Err? {
        return Err(());
      }
      var key := HashToBytes32(root);
      rootIndex := rootIndex[key := index.value];
      return Ok(index.value);
    }

    /** The subtree over the leaves of a batch, built by single inserts. */
    method BuildSubtree(leaves: seq<HashOutput>) returns (tree: Tree)
      requires |leaves| == 512
      ensures fresh(tree) && tree.Valid() && tree.h == h && tree.Depth() == 9 && tree.leaves == leaves
    {
      tree := new MerkleTree<HashOutput>(h, 9);
      Pow2Of9();
      for i := 0 to |leaves|
        invariant fresh(tree) && tree.Valid() && tree.h == h && tree.Depth() == 9 && tree.leaves == leaves[..i]
      {
        var inserted := tree.Insert(leaves[i]);
      }
      assert leaves[..512] == leaves;
    }

    /** Replace the pending leaves of a batch by its subtree. */
    method ReplaceLeaves(pi: Pi)
      requires Valid() && pi in pendingLeaves
      modifies this`pendingLeaves, this`subtrees, this`subtreeLeaves
      ensures Valid() && pendingLeaves == old(pendingLeaves) - {pi}
      ensures subtreeLeaves == old(subtreeLeaves)[pi := old(pendingLeaves)[pi]]
    {
      var leaves := pendingLeaves[pi];
      var tree := BuildSubtree(leaves);
      pendingLeaves := pendingLeaves - {pi};
      subtrees := subtrees[pi := tree];
      subtreeLeaves := subtreeLeaves[pi := leaves];
    }

    /** The same on the whole state; a batch without pending leaves gets no subtree. */
    method BuildPendingSubtree(pi: Pi)
      requires Valid()
      modifies this`pendingLeaves, this`subtrees, this`subtreeLeaves
      ensures Valid() && Abs() == SettleLeaves(old(Abs()), pi)
    {
      if pi in pendingLeaves {
        ReplaceLeaves(pi);
      }
    }

    /** Mark every commitment of a batch confirmed. */
    method MarkConfirmed(pi: Pi)
      modifies this`located
      ensures located == AllConfirmed(old(located), pi)
    {
      var todo := set c | c in located && located[c].pi == pi;
      ghost var was := located;
      while todo != {}
        invariant located.Keys == was.Keys && todo <= was.Keys
        invariant forall c | c in todo :: was[c].pi == pi
        invariant forall c | c in was && c !in todo ::
                    located[c] == if was[c].pi == pi then was[c].(confirmed := true) else was[c]
        invariant forall c | c in todo :: located[c] == was[c]
      {
        var c :| c in todo;
        located := located[c := located[c].(confirmed := true)];
        todo := todo - {c};
      }
    }

    /** Move the nullifiers of a batch from pending to confirmed. */
    method MoveNullifiers(pi: Pi)
      modifies this`pendingNull, this`spent
      ensures pendingNull == OthersPending(old(pendingNull), pi)
      ensures spent == old(spent) + PendingFor(old(pendingNull), pi)
    {
      ghost var was, spent0 := pendingNull, spent;
      var todo := set n | n in pendingNull && pendingNull[n] == pi;
      ghost var moving := todo;
      while todo != {}
        invariant todo <= moving && pendingNull == was - (moving - todo) && spent == spent0 + (moving - todo)
      {
        var n :| n in todo;
        pendingNull := pendingNull - {n};
        spent := spent + {n};
        todo := todo - {n};
      }
      assert moving - {} == moving;
    }

    /** Move a batch from pending to confirmed, under the kind it is found. */
    method MovePendingMaps(pi: Pi)
      modifies this`pendingTx, this`confirmedTx, this`pendingBridge, this`confirmedBridge
      ensures var tx := pi in old(pendingTx);
              var bridge := !tx && pi in old(pendingBridge);
              && pendingTx == old(pendingTx) - {pi}
              && confirmedTx == (if tx then old(confirmedTx) + {pi} else old(confirmedTx))
              && pendingBridge == (if bridge then old(pendingBridge) - {pi} else old(pendingBridge))
              && confirmedBridge == (if bridge then old(confirmedBridge) + {pi} else old(confirmedBridge))
    {
      if pi in pendingTx {
        pendingTx := pendingTx - {pi};
        confirmedTx := confirmedTx + {pi};
      } else if pi in pendingBridge {
        pendingBridge := pendingBridge - {pi};
        confirmedBridge := confirmedBridge + {pi};
      }
    }

    method MovePending(pi: Pi)
      requires Valid()
      modifies this`pendingTx, this`confirmedTx, this`pendingBridge, this`confirmedBridge
      ensures Valid() && Abs() == MoveBatch(old(Abs()), pi)
    {
      MovePendingMaps(pi);
    }

    /** The maps of commitments and nullifiers, and the roots. */
    method SettleMaps(pi: Pi, root: HashOutput, newRoot: HashOutput)
      modifies this`batchRoots, this`located, this`pendingNull, this`spent, this`roots
      ensures batchRoots == old(batchRoots)[pi := root]
      ensures located == AllConfirmed(old(located), pi)
      ensures pendingNull == OthersPending(old(pendingNull), pi)
          && spent == old(spent) + PendingFor(old(pendingNull), pi)
      ensures roots == old(roots) + {newRoot}
    {
      batchRoots := batchRoots[pi := root];
      MarkConfirmed(pi);
      MoveNullifiers(pi);
      roots := roots + {newRoot};
    }

    /** What `confirm_batch` does after the trees are in place. */
    method SettleBatch(pi: Pi, root: HashOutput, newRoot: HashOutput)
      requires Valid()
      modifies this`batchRoots, this`located, this`pendingNull, this`spent, this`roots,
               this`pendingTx, this`confirmedTx, this`pendingBridge, this`confirmedBridge
      ensures Valid() && Abs() == Settle(old(Abs()), pi, root, newRoot)
    {
      SettleMaps(pi, root, newRoot);
      MovePending(pi);
    }

    /** `confirm_batch`: all of it, or nothing when the state tree is full. */
    method ConfirmBatch(pi: Pi, root: HashOutput, newRoot: HashOutput) returns (r: Result<(), ()>)
      requires Valid()
      modifies this, stateTree`leaves, stateTree`layers
      ensures Valid()
      ensures r.Ok? <==> |old(stateTree.leaves)| < Pow2(old(stateTree.Depth()))
      ensures Abs() == if r.Ok? then Confirm(old(Abs()), pi, root, newRoot) else old(Abs())
    {
      var index := InsertStateTreeLeaf(root);
      if index.Err? {
        return Err(());
      }
      BuildPendingSubtree(pi);
      SettleBatch(pi, root, newRoot);
      return Ok(());
    }

    // --- events -----------------------------------------------------------------------------------------------

    method ApplyPreimage(e: Event)
      requires Valid() && EventReadable(e)
      modifies this`located, this`pendingLeaves, this`pendingNull, this`pendingTx, this`pendingBridge
      ensures Valid() && Abs() == ApplyEvent(old(Abs()), e)
    {
      match e.kind
      case Transaction =>
        var r := ApplyTxPreimage(e.pre, e.pi);
      case BridgeTx =>
        var r := ApplyBridgePreimage(e.pre, e.pi);
    }

    /** Parse the preimage of a batch that is not on record. */
    method Prepare(e: Event)
      requires Valid() && EventReadable(e)
      modifies this`located, this`pendingLeaves, this`pendingNull, this`pendingTx, this`pendingBridge
      ensures Valid() && Abs() == Prepared(old(Abs()), e)
    {
      var known := OnRecord(e);
      if !known {
        ApplyPreimage(e);
      }
    }

    /** Whether the batch of an event has been parsed already, as its loop asks. */
    method OnRecord(e: Event) returns (known: bool)
      ensures known == !StepApplies(Abs(), e)
    {
      known := match e {
        case Proven(_, pi, _, _) => pi in pendingTx || pi in pendingBridge
        case Submitted(Transaction, pi, _) => pi in pendingTx || pi in confirmedTx
        case Submitted(BridgeTx, pi, _) => pi in pendingBridge || pi in confirmedBridge
      };
    }

    /** Confirm a batch with the root in the header of its recorded preimage. */
    method ConfirmRecorded(kind: BatchKind, pi: Pi, newRoot: HashOutput) returns (r: Result<(), ()>)
      requires Valid() && RecordsReadable(Abs())
      modifies this, stateTree`leaves, stateTree`layers
      ensures Valid() && Abs() == ConfirmKnown(old(Abs()), kind, pi, newRoot)
      ensures r.Err? <==> ConfirmFails(old(Abs()), kind, pi)
    {
      var batches := if kind == Transaction then pendingTx else pendingBridge;
      if pi !in batches {
        return Ok(());
      }
      var pre := batches[pi];
      RecordedHeader(batches, pi, pre);
      r := ConfirmPreimage(pi, pre, newRoot);
    }

    /** `extract_batch_root_from_preimage`, then `confirm_batch`. */
    method ConfirmPreimage(pi: Pi, pre: seq<byte>, newRoot: HashOutput) returns (r: Result<(), ()>)
      requires Valid() && Readable(pre, 0)
      modifies this, stateTree`leaves, stateTree`layers
      ensures Valid()
      ensures r.Ok? <==> |old(stateTree.leaves)| < Pow2(old(stateTree.Depth()))
      ensures Abs() == if r.Ok? then Confirm(old(Abs()), pi, HeaderRoot(pre), newRoot) else old(Abs())
    {
      var root := ReadDigest(pre, 0);
      r := ConfirmBatch(pi, root, newRoot);
    }

    /** One submission, or one entry of the loop over proven batches; `Idle` says which change nothing. */
    method Handle(e: Event) returns (r: Result<(), ()>)
      requires Valid() && EventReadable(e) && RecordsReadable(Abs())
      modifies this, stateTree`leaves, stateTree`layers
      ensures Valid() && Abs() == Step(old(Abs()), e) && RecordsReadable(Abs())
      ensures r.Err? <==> Fails(old(Abs()), e)
      ensures Abs() == old(Abs()) <==> Idle(old(Abs()), e)
    {
      UnchangedExactly(Abs(), e);
      StepKeepsRecords(Abs(), e);
      Prepare(e);
      r := Ok(());
      if e.Proven? {
        r := ConfirmRecorded(e.kind, e.pi, e.newRoot);
      }
    }

    /** The events of a window in order, until one fails; the state is the one a run of `SyncSpec` reaches. */
    method HandleAll(es: seq<Event>) returns (done: nat, r: Result<(), ()>)
      requires Valid() && AllReadable(es) && RecordsReadable(Abs())
      modifies this, stateTree`leaves, stateTree`layers
      ensures Valid() && RecordsReadable(Abs())
      ensures StopsAt(old(Abs()), es, done) && Abs() == Run(old(Abs()), es[..done])
      ensures r.Ok? <==> NoneFails(old(Abs()), es, |es|)
    {
      ghost var st := Abs();
      for i := 0 to |es|
        invariant Valid() && RecordsReadable(Abs()) && Abs() == Run(st, es[..i]) && NoneFails(st, es, i)
      {
        r := Handle(es[i]);
        RunNext(st, es, i);
        if r.Err? {
          assert !NoneFails(st, es, |es|);
          return i + 1, r;
        }
        NoneFailsNext(st, es, i);
      }
      return |es|, Ok(());
    }

    // --- queries --------------------------------------------------------------------------------------------

    /** `get_batch_root_for_commitment` */
    method BatchRootFor(c: HashOutput) returns (r: Option<HashOutput>)
      ensures r == if c in located && located[c].pi in batchRoots then Some(batchRoots[located[c].pi]) else None
    {
      if c in located && located[c].pi in batchRoots {
        return Some(batchRoots[located[c].pi]);
      }
      return None;
    }

    /** `get_batch_subtree_proof` */
    method SubtreeProof(c: HashOutput) returns (r: Option<MerkleProof<HashOutput>>)
      requires TreesOk()
      ensures r.Some? <==> c in located && located[c].pi in subtrees
      ensures r.Some? ==> r.value == ProofAt(h, subtreeLeaves[located[c].pi], 9, located[c].leafIndex)
    {
      if c !in located || located[c].pi !in subtrees {
        return None;
      }
      var tree := subtrees[located[c].pi];
      var proof := tree.Proof(located[c].leafIndex);
      return Some(proof);
    }

    /** `get_commitment_status`: the exact answer in every state. */
    method GetCommitmentStatus(c: HashOutput) returns (status: CommitmentStatus)
      requires Valid()
      ensures status.Pending? <==> c in located && !located[c].confirmed
      ensures status.Pending? ==> status.pi == located[c].pi
      ensures status.Confirmed? <==> c in located && located[c].confirmed && Provable(Abs(), c)
      ensures status.Confirmed? ==>
                && status.batchSubtreePath == ProofAt(h, subtreeLeaves[located[c].pi], 9, located[c].leafIndex)
                && status.stateTreePath ==
                    ProofAt(h, stateTree.leaves, stateTree.Depth(), rootIndex[HashBytes(batchRoots[located[c].pi])])
    {
      if c !in located {
        return NotFound;
      }
      if !located[c].confirmed {
        return Pending(located[c].pi);
      }
      var root := BatchRootFor(c);
      var subtreePath := SubtreeProof(c);
      if root.Some? && subtreePath.Some? {
        var key := HashToBytes32(root.value);
        if key in rootIndex {
          var statePath := stateTree.Proof(rootIndex[key]);
          return Confirmed(subtreePath.value, statePath);
        }
      }
      return NotFound;
    }

    /** `get_nullifier_status`: unknown exactly when neither spent nor pending; spent wins. */
    method GetNullifierStatus(n: HashOutput) returns (status: Status, pi: Option<Pi>)
      ensures status == IsUnknown <==> n !in AllKnown(Abs())
      ensures status == IsConfirmed <==> n in Abs().spent
      ensures pi == if status == IsPending then Some(pendingNull[n]) else None
    {
      if n in spent {
        return IsConfirmed, None;
      } else if n in pendingNull {
        return IsPending, Some(pendingNull[n]);
      }
      return IsUnknown, None;
    }

    /** `get_batch_status`: unknown exactly when the batch is not on record under its kind; confirmed wins. */
    method GetBatchStatus(pi: Pi, kind: BatchKind) returns (status: Status)
      ensures status == IsUnknown <==> pi !in Recorded(Abs(), kind)
      ensures status == IsConfirmed <==> pi in ConfirmedBatches(Abs(), kind)
    {
      match kind
      case Transaction =>
        if pi in confirmedTx {
          return IsConfirmed;
        }
        return if pi in pendingTx then IsPending else IsUnknown;
      case BridgeTx =>
        if pi in confirmedBridge {
          return IsConfirmed;
        }
        return if pi in pendingBridge then IsPending else IsUnknown;
    }
  }

  const BRIDGE_HALF: nat := 256
  const BRIDGE_ACCIN_NULL_OFF: nat := 8
  const BRIDGE_ACCOUT_COMM_OFF: nat := 40

  /** Everything the proofs of a commitment are built from is on record. */
  predicate Provable(st: Sync, c: HashOutput)
    requires c in st.located
  {
    var pi := st.located[c].pi;
    pi in st.batchRoots && pi in st.subtrees && HashBytes(st.batchRoots[pi]) in st.rootIndex
  }

  /**
  After every run the two paths returned for a confirmed commitment verify: the first starts at the
  commitment, the second at the batch root, and the error answer is never given.
  */
  lemma {:induction false} ConfirmedAnswerVerifies(h: Hasher<HashOutput>, depth: nat, es: seq<Event>,
                                                   content: Pi -> seq<HashOutput>, rootOf: Pi -> HashOutput,
                                                   st: Sync, c: HashOutput)
    requires AllOk(es, content, rootOf) && AllReadable(es) && st == Run(Initial(h, depth), es)
    requires c in st.located && st.located[c].confirmed
    ensures Provable(st, c)
    ensures var pi := st.located[c].pi;
            var sub := ProofAt(h, st.subtrees[pi], 9, st.located[c].leafIndex);
            var top := ProofAt(h, st.stateLeaves, st.depth, st.rootIndex[HashBytes(st.batchRoots[pi])]);
            && sub.leaf == c && Fold(h, sub.leaf, sub.siblings, sub.path) == sub.root
            && top.leaf == st.batchRoots[pi] == rootOf(pi) && Fold(h, top.leaf, top.siblings, top.path) == top.root
            // For printed batches the first path ends where the second starts.
            && (rootOf(pi) == RootOf(h, content(pi), 9) ==>
                 && sub.root == top.leaf
                 && JoinedPath(h, st.subtrees[pi], st.stateLeaves, st.depth, sub.pos, top.pos, c))
  {
    EveryRunServesProofs(h, depth, es, content, rootOf, c);
    InitialInv(h, depth, content, rootOf);
    RunKeepsInv(Initial(h, depth), es, content, rootOf);
    var pi := st.located[c].pi;
    if rootOf(pi) == RootOf(h, content(pi), 9) {
      ConfirmedPathsJoin(h, st, content, rootOf, c);
    }
  }

  // --- runs of printed batches ---------------------------------------------------------------------------------

  /** The event of the batch that the server printed under its commitment. */
  ghost predicate PrintedEvent(h: Hasher<HashOutput>, batchOf: Pi -> seq<Proof>, e: Event) {
    var proofs := batchOf(e.pi);
    PrintedBatch(e.kind, proofs) && e.pre == PrintFields(Fields(RootOf(h, Leaves(proofs), 9), proofs))
  }

  ghost function PrintedLeaves(batchOf: Pi -> seq<Proof>, pi: Pi): seq<HashOutput> {
    if AllWellFormed(batchOf(pi)) then Leaves(batchOf(pi)) else []
  }

  lemma {:induction false} PrintedEventOk(h: Hasher<HashOutput>, batchOf: Pi -> seq<Proof>, e: Event,
                                          content: Pi -> seq<HashOutput>, rootOf: Pi -> HashOutput)
    requires PrintedEvent(h, batchOf, e)
    requires content(e.pi) == PrintedLeaves(batchOf, e.pi) && rootOf(e.pi) == RootOf(h, content(e.pi), 9)
    ensures EventOk(e, content, rootOf)
  {
    PrintedEventParses(h, e, batchOf(e.pi));
  }

  /**
  Server and sync service together: after every run of printed batches, a confirmed commitment is an
  output commitment of the batch it is located in, at that leaf, and the two returned paths join into
  one that proves it under the state root at position `batch * 512 + leaf`.
  */
  lemma {:induction false} PrintedRunsProveCommitments(h: Hasher<HashOutput>, depth: nat, es: seq<Event>,
                                                       batchOf: Pi -> seq<Proof>, st: Sync, c: HashOutput)
    requires forall i | 0 <= i < |es| :: PrintedEvent(h, batchOf, es[i])
    requires AllReadable(es) && st == Run(Initial(h, depth), es)
    requires c in st.located && st.located[c].confirmed
    ensures Provable(st, c)
    ensures var pi, i := st.located[c].pi, st.located[c].leafIndex;
            var b := st.rootIndex[HashBytes(st.batchRoots[pi])];
            && i < |PrintedLeaves(batchOf, pi)| && PrintedLeaves(batchOf, pi)[i] == c
            && JoinedPath(h, st.subtrees[pi], st.stateLeaves, st.depth, i, b, c)
  {
    var content := (pi: Pi) => PrintedLeaves(batchOf, pi);
    var rootOf := (pi: Pi) => RootOf(h, PrintedLeaves(batchOf, pi), 9);
    forall i | 0 <= i < |es| ensures EventOk(es[i], content, rootOf) {
      PrintedEventOk(h, batchOf, es[i], content, rootOf);
    }
    ConfirmedAnswerVerifies(h, depth, es, content, rootOf, st, c);
    InitialInv(h, depth, content, rootOf);
    RunKeepsInv(Initial(h, depth), es, content, rootOf);
    assert LocationOk(st, content, c, st.located[c]);
  }

  /** The nullifiers the parser finds in a bridge slot. */
  ghost predicate BridgeSlotIs(pre: seq<byte>, off: nat, slot: seq<HashOutput>) {
    && off + 8 <= |pre|
    && if ReadBool(pre, off) then Readable(pre, off + 8) && slot == [DigestOf(pre, off + 8)] else slot == []
  }

  lemma {:induction false} RecordedHeader(batches: map<Pi, seq<byte>>, pi: Pi, pre: seq<byte>)
    requires HeadersReadable(batches) && pi in batches && pre == batches[pi]
    ensures Readable(pre, 0)
  {
  }

  lemma {:induction false} AddedBoth(st: Sync, st': Sync, pi: Pi, leaves: seq<HashOutput>, ns: seq<HashOutput>)
    requires |leaves| == 512
    requires st' == st.(located := Locate(st.located, pi, leaves, |leaves|),
                        pendingLeaves := PutLeaves(st.pendingLeaves, pi, leaves, |leaves|),
                        pendingNull := Mark(st.pendingNull, pi, ns))
    ensures st' == AddNullifiers(AddCommitments(st, pi, leaves), pi, ns)
  {
  }

  lemma {:induction false} BridgeLeafReads(pre: seq<byte>, s: nat, off: nat, leaves: seq<HashOutput>)
    requires BridgeReadable(pre) && s < 512 && off == BridgeSlotOff(s) && leaves == BridgeLeaves(pre)
    ensures Readable(pre, off + 40) && leaves[s] == DigestOf(pre, off + 40)
  {
    assert BridgeLeafOff(s) == off + 40 && leaves[s] == DigestOf(pre, BridgeLeafOff(s));
  }

  lemma {:induction false} BridgeSlotReads(pre: seq<byte>, s: nat, off: nat, slot: seq<HashOutput>)
    requires BridgeReadable(pre) && s < 512 && off == BridgeSlotOff(s) && slot == BridgeSlotNullifiers(pre, s)
    ensures BridgeSlotIs(pre, off, slot)
  {
  }

  /** The leaves the parser finds in a private preimage. */
  ghost predicate ReadsLeaves(pre: seq<byte>, leaves: seq<HashOutput>) {
    |leaves| == 512 && forall i | 0 <= i < 512 :: ReadsLeaf(pre, leaves, i)
  }

  ghost predicate ReadsLeaf(pre: seq<byte>, leaves: seq<HashOutput>, i: nat)
    requires i < |leaves|
  {
    Readable(pre, TxLeafOff(i)) && leaves[i] == DigestOf(pre, TxLeafOff(i))
  }

  /** The nullifiers the parser finds in a private slot. */
  ghost predicate TxSlotIs(pre: seq<byte>, s: nat, slot: seq<HashOutput>) {
    && TxSlotOff(s) + 8 <= |pre|
    && if ReadBool(pre, TxSlotOff(s))
       then
         && |slot| == 8
         && forall j | 0 <= j < 8 :: Readable(pre, TxNullOff(s, j)) && slot[j] == DigestOf(pre, TxNullOff(s, j))
       else slot == []
  }

  lemma {:induction false} TxLeavesRead(pre: seq<byte>)
    requires TxReadable(pre)
    ensures ReadsLeaves(pre, TxLeaves(pre))
  {
  }

  lemma {:induction false} TxSlotReads(pre: seq<byte>, s: nat)
    requires TxReadable(pre) && s < 64
    ensures TxSlotIs(pre, s, TxSlotNullifiers(pre, s))
  {
  }

  /** Where output `j` of slot `s` is read: the account commitment, then the note commitments. */
  function TxOutputOff(s: nat, j: nat): nat {
    var slotOff := TX_HEADER_SIZE + s * TX_SLOT_SIZE;
    if j == 0 then slotOff + TX_ACCOUT_COMM_OFF else slotOff + TX_NOTE_OUT_OFF + (j - 1) * 32
  }

  lemma {:induction false} TxLeafOffIs(s: nat, j: nat)
    requires j < 8
    ensures TxLeafOff(8 * s + j) == TxOutputOff(s, j)
  {
    assert (8 * s + j) / 8 == s && (8 * s + j) % 8 == j;
  }
}
