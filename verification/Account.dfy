/**
The asset tree of an account and the slots of a withdrawal. Every asset has a leaf that hashes its
id and amount; a map mirrors the leaves. Asset 0 sits in leaf 0 and never changes.
*/
module Account {
  import opened Arith
  import opened MerkleSpec
  import opened Merkle

  type Assets = map<nat, (nat, nat)>

  const DEFAULT_ASSET: nat := 0

  /** The map and the tree say the same: `order` lists the assets by position. */
  ghost predicate Mirrors<D>(leafOf: (nat, nat) -> D, assets: Assets, leaves: seq<D>, order: seq<nat>) {
    && |order| == |leaves|
    && (forall i | 0 <= i < |order| :: order[i] in assets && assets[order[i]].0 == i)
    && (forall a | a in assets ::
          && assets[a].0 < |leaves| && order[assets[a].0] == a
          && leaves[assets[a].0] == leafOf(a, assets[a].1))
  }

  class AccountStateTree<D(==,!new)> {
    const h: Hasher<D>
    const leafOf: (nat, nat) -> D
    const tree: MerkleTree<D>
    var assets: Assets
    ghost var order: seq<nat>

    ghost predicate Valid()
      reads this, tree
    {
      && tree.Valid() && tree.h == h
      && Mirrors(leafOf, assets, tree.leaves, order)
      && DEFAULT_ASSET in assets && assets[DEFAULT_ASSET] == (0, 0)
    }

    /** `new`: the default asset takes leaf 0. */
    constructor (h: Hasher<D>, leafOf: (nat, nat) -> D, depth: nat)
      requires depth >= 1
      ensures Valid() && fresh(tree) && this.h == h && this.leafOf == leafOf
      ensures tree.Depth() == depth && tree.leaves == [leafOf(0, 0)] && assets == map[0 := (0, 0)]
    {
      var t := new MerkleTree<D>(h, depth);
      var inserted := t.Insert(leafOf(0, 0));
      this.h, this.leafOf, tree := h, leafOf, t;
      assets, order := map[0 := (0, 0)], [0];
    }

    /** `clone` */
    constructor CopyOf(other: AccountStateTree<D>)
      requires other.Valid()
      ensures Valid() && fresh(tree) && h == other.h && leafOf == other.leafOf
      ensures tree.Depth() == other.tree.Depth() && tree.leaves == other.tree.leaves && assets == other.assets
    {
      h, leafOf := other.h, other.leafOf;
      tree := new MerkleTree<D>.CopyOf(other.tree);
      assets, order := other.assets, other.order;
    }

    /** `insert_asset`: the next free leaf, for an asset that is new and not the default. */
    method InsertAsset(asset: nat, amount: nat) returns (r: Result<(), ()>)
      requires Valid()
      modifies this`assets, this`order, tree`leaves, tree`layers
      ensures Valid() && tree.Depth() == old(tree.Depth())
      ensures r.Ok? <==> asset != DEFAULT_ASSET && asset !in old(assets) && old(|tree.leaves|) < Pow2(tree.Depth())
      ensures r.Ok? ==>
          && assets == old(assets)[asset := (old(|tree.leaves|), amount)]
          && tree.leaves == old(tree.leaves) + [leafOf(asset, amount)]
      ensures r.Err? ==> assets == old(assets) && tree.leaves == old(tree.leaves)
    {
      if asset == DEFAULT_ASSET || asset in assets {
        return Err(());
      }
      var index := |tree.leaves|;
      var inserted := tree.Insert(leafOf(asset, amount));
      if inserted.Err? {
        return Err(());
      }
      assets := assets[asset := (index, amount)];
      order := order + [asset];
      return Ok(());
    }

    /** `update_asset`: in place, for a known asset that is not the default; returns the previous amount. */
    method UpdateAsset(asset: nat, amount: nat) returns (r: Result<nat, ()>)
      requires Valid()
      modifies this`assets, tree`leaves, tree`layers
      ensures Valid() && tree.Depth() == old(tree.Depth())
      ensures r == if asset != DEFAULT_ASSET && asset in old(assets) then Ok(old(assets)[asset].1) else Err(())
      ensures r.Ok? ==> var index := old(assets)[asset].0;
                && assets == old(assets)[asset := (index, amount)]
                && index < old(|tree.leaves|) && tree.leaves == old(tree.leaves)[index := leafOf(asset, amount)]
      ensures r.Err? ==> assets == old(assets) && tree.leaves == old(tree.leaves)
    {
      if asset == DEFAULT_ASSET || asset !in assets {
        return Err(());
      }
      var (index, previous) := assets[asset];
      var updated := tree.UpdateLeaf(index, leafOf(asset, amount));
      assets := assets[asset := (index, amount)];
      return Ok(previous);
    }

    /** `insert_or_update_asset`; `Err` stands for its panics. */
    method InsertOrUpdateAsset(asset: nat, amount: nat) returns (r: Result<Option<nat>, ()>)
      requires Valid()
      modifies this`assets, this`order, tree`leaves, tree`layers
      ensures Valid() && tree.Depth() == old(tree.Depth())
      ensures r.Ok? <==> asset != DEFAULT_ASSET && (asset in old(assets) || old(|tree.leaves|) < Pow2(tree.Depth()))
      ensures r.Ok? ==> r.value == if asset in old(assets) then Some(old(assets)[asset].1) else None
      ensures r.Ok? && asset in old(assets) ==> var index := old(assets)[asset].0;
                && assets == old(assets)[asset := (index, amount)]
                && index < old(|tree.leaves|) && tree.leaves == old(tree.leaves)[index := leafOf(asset, amount)]
      ensures r.Ok? && asset !in old(assets) ==>
                && assets == old(assets)[asset := (old(|tree.leaves|), amount)]
                && tree.leaves == old(tree.leaves) + [leafOf(asset, amount)]
      ensures r.Err? ==> assets == old(assets) && tree.leaves == old(tree.leaves)
    {
      if asset in assets {
        var previous := UpdateAsset(asset, amount);
        return if previous.Ok? then Ok(Some(previous.value)) else Err(());
      }
      var inserted := InsertAsset(asset, amount);
      return if inserted.Ok? then Ok(None) else Err(());
    }

    /** `amount_for` with the proof of the asset's leaf: what the map says is what the tree proves. */
    method AmountWithProof(asset: nat) returns (r: Option<(nat, nat, MerkleProof<D>)>)
      requires Valid()
      ensures r.Some? <==> asset in assets
      ensures r.Some? ==> var (index, amount, proof) := r.value;
                && (index, amount) == assets[asset] && proof == ProofAt(h, tree.leaves, tree.Depth(), index)
                && proof.leaf == leafOf(asset, amount) && index < |tree.leaves|
                && Fold(h, leafOf(asset, amount), proof.siblings, proof.path) == RootOf(h, tree.leaves, tree.Depth())
    {
      if asset !in assets {
        return None;
      }
      var (index, amount) := assets[asset];
      var proof := tree.Proof(index);
      return Some((index, amount, proof));
    }
  }

  // --- withdrawals ------------------------------------------------------------------------------------------

  const NOTE_BATCH: nat := 7

  datatype Slot<D> = Slot(
    asset: nat,
    withdrawn: nat,
    accinAmt: nat,
    accoutAmt: nat,
    existsIn: bool,
    existsOut: bool,
    proof: MerkleProof<D>)

  /**
  What the withdrawal circuit folds for a slot: the tree's proof at the asset's position takes the old
  leaf to the root before, and the new leaf to the root after.
  */
  ghost predicate UpdateSlot<D>(h: Hasher<D>, leafOf: (nat, nat) -> D, depth: nat, before: seq<D>, after: seq<D>,
                                slot: Slot<D>, w: (nat, nat), index: nat) {
    && slot.asset == w.0 && slot.withdrawn == w.1 && slot.existsIn
    && slot.accinAmt == slot.accoutAmt + w.1 && slot.existsOut == (slot.accoutAmt > 0)
    && index < |before| && slot.proof == ProofAt(h, before, depth, index)
    && slot.proof.leaf == leafOf(slot.asset, slot.accinAmt)
    && Fold(h, leafOf(slot.asset, slot.accinAmt), slot.proof.siblings, slot.proof.path) == RootOf(h, before, depth)
    && Fold(h, leafOf(slot.asset, slot.accoutAmt), slot.proof.siblings, slot.proof.path) == RootOf(h, after, depth)
  }

  /** A padding slot folds the default leaf to the unchanged root, provided that the tree has a free leaf. */
  ghost predicate PaddingSlot<D>(h: Hasher<D>, depth: nat, before: seq<D>, after: seq<D>, slot: Slot<D>) {
    && slot == Slot(0, 0, 0, 0, false, false, slot.proof) && before == after
    && slot.proof == ProofAt(h, before, depth, |before|) && slot.proof.leaf == h.zero
    && (Fold(h, h.zero, slot.proof.siblings, slot.proof.path) == RootOf(h, before, depth)
        <==> |before| < Pow2(depth) || RootOf(h, before, depth) == Empty(h, depth))
  }

  /** Slot `i`, between two leaf sequences; `first` is the asset map of the given account. */
  ghost predicate SlotOk<D>(h: Hasher<D>, leafOf: (nat, nat) -> D, depth: nat, before: seq<D>, after: seq<D>,
                            slot: Slot<D>, first: Assets, ws: seq<(nat, nat)>, i: nat) {
    if i < |ws| then
      ws[i].0 in first && UpdateSlot(h, leafOf, depth, before, after, slot, ws[i], first[ws[i].0].0)
    else PaddingSlot(h, depth, before, after, slot)
  }

  /** The slots chain the leaf sequences `states`. */
  ghost predicate Chained<D>(h: Hasher<D>, leafOf: (nat, nat) -> D, depth: nat, states: seq<seq<D>>,
                             slots: seq<Slot<D>>, first: Assets, ws: seq<(nat, nat)>) {
    && |states| == |slots| + 1
    && forall i | 0 <= i < |slots| :: SlotOk(h, leafOf, depth, states[i], states[i + 1], slots[i], first, ws, i)
  }

  lemma {:induction false} ChainedSnoc<D>(h: Hasher<D>, leafOf: (nat, nat) -> D, depth: nat, states: seq<seq<D>>,
                                          slots: seq<Slot<D>>, first: Assets, ws: seq<(nat, nat)>,
                                          after: seq<D>, slot: Slot<D>)
    requires Chained(h, leafOf, depth, states, slots, first, ws)
    requires SlotOk(h, leafOf, depth, states[|slots|], after, slot, first, ws, |slots|)
    ensures Chained(h, leafOf, depth, states + [after], slots + [slot], first, ws)
  {
    var states', slots' := states + [after], slots + [slot];
    forall i | 0 <= i < |slots'|
      ensures SlotOk(h, leafOf, depth, states'[i], states'[i + 1], slots'[i], first, ws, i)
    {
      if i < |slots| {
        assert SlotOk(h, leafOf, depth, states[i], states[i + 1], slots[i], first, ws, i);
      }
    }
  }

  /** What the first `n` withdrawals take from an asset. */
  function Taken(ws: seq<(nat, nat)>, n: nat, asset: nat): nat
    requires n <= |ws|
  {
    if n == 0 then 0 else Taken(ws, n - 1, asset) + if ws[n - 1].0 == asset then ws[n - 1].1 else 0
  }

  /** Withdrawal `i` is of a known asset other than the default and does not exceed what is left of it. */
  ghost predicate Allowed(assets: Assets, ws: seq<(nat, nat)>, i: nat)
    requires i < |ws|
  {
    var a := ws[i].0;
    a != DEFAULT_ASSET && a in assets && Taken(ws, i + 1, a) <= assets[a].1
  }

  /** Every balance has dropped by what was taken; positions are unchanged. */
  ghost predicate Reduced(before: Assets, after: Assets, ws: seq<(nat, nat)>, n: nat)
    requires n <= |ws|
  {
    && before.Keys == after.Keys
    && forall a | a in before :: after[a].0 == before[a].0 && after[a].1 + Taken(ws, n, a) == before[a].1
  }

  /** One withdrawal: capture the proof, then update the leaf. `None` stands for a panic. */
  method WithdrawSlot<D(==,!new)>(current: AccountStateTree<D>, w: (nat, nat)) returns (slot: Option<Slot<D>>)
    requires current.Valid()
    modifies current`assets, current`order, current.tree`leaves, current.tree`layers
    ensures current.Valid() && current.tree.Depth() == old(current.tree.Depth())
    ensures slot.Some? <==> w.0 != DEFAULT_ASSET && w.0 in old(current.assets) && w.1 <= old(current.assets)[w.0].1
    ensures slot.Some? ==>
        current.assets == old(current.assets)[w.0 := (old(current.assets)[w.0].0, old(current.assets)[w.0].1 - w.1)]
    ensures slot.Some? ==>
        UpdateSlot(current.h, current.leafOf, current.tree.Depth(), old(current.tree.leaves), current.tree.leaves,
            slot.value, w, old(current.assets)[w.0].0)
  {
    var entry := current.AmountWithProof(w.0);
    if entry.None? {
      return None;
    }
    var (index, oldBal, proof) := entry.value;
    if w.1 > oldBal {
      return None;
    }
    ghost var before := current.tree.leaves;
    var newBal := oldBal - w.1;
    var updated := current.InsertOrUpdateAsset(w.0, newBal);
    if updated.Err? || updated.value.None? {
      return None;
    }
    var made := Slot(w.0, w.1, oldBal, newBal, true, newBal > 0, proof);
    SlotFolds(current.h, current.leafOf, before, current.tree.leaves, index, made, w, current.tree.Depth());
    return Some(made);
  }

  lemma {:induction false} SlotFolds<D(!new)>(h: Hasher<D>, leafOf: (nat, nat) -> D, before: seq<D>, after: seq<D>,
                                              index: nat, slot: Slot<D>, w: (nat, nat), depth: nat)
    requires index < |before| <= Pow2(depth) && slot.proof == ProofAt(h, before, depth, index)
    requires slot.asset == w.0 && slot.withdrawn == w.1 && slot.existsIn
    requires slot.accinAmt == slot.accoutAmt + w.1 && slot.existsOut == (slot.accoutAmt > 0)
    requires before[index] == leafOf(slot.asset, slot.accinAmt)
    requires after == before[index := leafOf(slot.asset, slot.accoutAmt)]
    ensures UpdateSlot(h, leafOf, depth, before, after, slot, w, index)
  {
    PathReachesRoot(h, before, index, depth);
    OneLeafChanged(h, before, after, index, leafOf(slot.asset, slot.accoutAmt), depth);
  }

  lemma {:induction false} OneLeafChanged<D(!new)>(h: Hasher<D>, before: seq<D>, after: seq<D>, index: nat, leaf: D,
                                                   depth: nat)
    requires index < |before| <= Pow2(depth) && after == before[index := leaf]
    ensures Fold(h, leaf, SiblingsOf(h, before, index, depth), PathBits(index, depth)) == RootOf(h, after, depth)
  {
    PathFoldsAfterChange(h, before, after, index, depth);
    ShrBelow(index, depth, depth);
  }

  /** A padding slot: the proof of the next free position. */
  method PadSlot<D(==,!new)>(current: AccountStateTree<D>) returns (slot: Slot<D>)
    requires current.Valid()
    ensures PaddingSlot(current.h, current.tree.Depth(), current.tree.leaves, current.tree.leaves, slot)
  {
    var proof := current.tree.Proof(|current.tree.leaves|);
    ProofVerifiesExactly(current.h, current.tree.leaves, |current.tree.leaves|, current.tree.Depth());
    slot := Slot(0, 0, 0, 0, false, false, proof);
  }

  lemma {:induction false} ReducedStep(before: Assets, mid: Assets, after: Assets, ws: seq<(nat, nat)>, n: nat)
    requires n < |ws| && Reduced(before, mid, ws, n)
    requires ws[n].0 in mid && ws[n].1 <= mid[ws[n].0].1
        && after == mid[ws[n].0 := (mid[ws[n].0].0, mid[ws[n].0].1 - ws[n].1)]
    ensures Reduced(before, after, ws, n + 1)
  {
  }

  lemma {:induction false} TakenNothing(before: Assets, ws: seq<(nat, nat)>)
    ensures Reduced(before, before, ws, 0)
  {
  }

  /** How many of the withdrawals have been looked at. */
  function Used(ws: seq<(nat, nat)>, n: nat): nat {
    if n < |ws| then n else |ws|
  }

  /** The body of the loop of `compute_withdrawal_slots`. */
  method NextSlot<D(==,!new)>(current: AccountStateTree<D>, ws: seq<(nat, nat)>, i: nat, ghost first: Assets)
    returns (slot: Option<Slot<D>>)
    requires current.Valid() && Reduced(first, current.assets, ws, Used(ws, i))
    modifies current`assets, current`order, current.tree`leaves, current.tree`layers
    ensures current.Valid() && current.tree.Depth() == old(current.tree.Depth())
    ensures slot.Some? <==> (i < |ws| ==> Allowed(first, ws, i))
    ensures slot.Some? ==> Reduced(first, current.assets, ws, Used(ws, i + 1))
    ensures slot.Some? ==>
        SlotOk(current.h, current.leafOf, current.tree.Depth(), old(current.tree.leaves), current.tree.leaves,
            slot.value, first, ws, i)
  {
    if i < |ws| {
      ghost var mid := current.assets;
      slot := WithdrawSlot(current, ws[i]);
      if slot.Some? {
        ReducedStep(first, mid, current.assets, ws, i);
      }
    } else {
      var pad := PadSlot(current);
      slot := Some(pad);
    }
  }

  ghost predicate AllAllowed(assets: Assets, ws: seq<(nat, nat)>, n: nat) {
    forall i | 0 <= i < n && i < |ws| :: Allowed(assets, ws, i)
  }

  /**
  `compute_withdrawal_slots`: seven slots, from the given account tree to a new one. `states` are the
  leaf sequences between the slots. Withdrawals beyond the seventh are ignored; `None` stands for a panic.
  */
  method ComputeWithdrawalSlots<D(==,!new)>(accin: AccountStateTree<D>, ws: seq<(nat, nat)>)
    returns (slots: seq<Slot<D>>, accout: Option<AccountStateTree<D>>, ghost states: seq<seq<D>>)
    requires accin.Valid()
    ensures accout.Some? <==> AllAllowed(accin.assets, ws, NOTE_BATCH)
    ensures accout.Some? ==>
        fresh(accout.value) && accout.value.Valid() && accout.value.tree.Depth() == accin.tree.Depth()
    ensures accout.Some? ==> accout.value.h == accin.h && accout.value.leafOf == accin.leafOf
    ensures accout.Some? ==>
        |slots| == NOTE_BATCH && Chained(accin.h, accin.leafOf, accin.tree.Depth(), states, slots, accin.assets, ws)
    ensures accout.Some? ==> states[0] == accin.tree.leaves && states[NOTE_BATCH] == accout.value.tree.leaves
    ensures accout.Some? ==> Reduced(accin.assets, accout.value.assets, ws, Used(ws, NOTE_BATCH))
  {
    var current := new AccountStateTree<D>.CopyOf(accin);
    var done: bool;
    slots, done, states := FillSlots(current, ws, accin.assets);
    accout := if done then Some(current) else None;
  }

  /** The loop of `compute_withdrawal_slots`, on the copy. */
  method FillSlots<D(==,!new)>(current: AccountStateTree<D>, ws: seq<(nat, nat)>, ghost first: Assets)
    returns (slots: seq<Slot<D>>, done: bool, ghost states: seq<seq<D>>)
    requires current.Valid() && current.assets == first
    modifies current`assets, current`order, current.tree`leaves, current.tree`layers
    ensures current.Valid() && current.tree.Depth() == old(current.tree.Depth())
    ensures done <==> AllAllowed(first, ws, NOTE_BATCH)
    ensures done ==>
        |slots| == NOTE_BATCH && Chained(current.h, current.leafOf, current.tree.Depth(), states, slots, first, ws)
    ensures done ==> states[0] == old(current.tree.leaves) && states[NOTE_BATCH] == current.tree.leaves
    ensures done ==> Reduced(first, current.assets, ws, Used(ws, NOTE_BATCH))
  {
    slots := [];
    states := [current.tree.leaves];
    TakenNothing(first, ws);
    ghost var leaves, depth := current.tree.leaves, current.tree.Depth();
    for i := 0 to NOTE_BATCH
      invariant Progress(current, ws, i, first, leaves, depth, slots, states)
      invariant AllAllowed(first, ws, i)
    {
      var ok: bool;
      slots, ok, states := Advance(current, ws, i, first, leaves, depth, slots, states);
      if !ok {
        return slots, false, states;
      }
    }
    done := true;
  }

  /** The first `i` slots have been filled. */
  ghost predicate Progress<D(!new)>(current: AccountStateTree<D>, ws: seq<(nat, nat)>, i: nat, first: Assets,
                                    leaves: seq<D>, depth: nat,
                                    slots: seq<Slot<D>>, states: seq<seq<D>>)
    reads current, current.tree
  {
    && current.Valid() && current.tree.Depth() == depth
    && |slots| == i && Chained(current.h, current.leafOf, depth, states, slots, first, ws)
    && states[0] == leaves && states[i] == current.tree.leaves
    && Reduced(first, current.assets, ws, Used(ws, i))
  }

  /** Fill one more slot. */
  method Advance<D(==,!new)>(current: AccountStateTree<D>, ws: seq<(nat, nat)>, i: nat, ghost first: Assets,
                             ghost leaves: seq<D>, ghost depth: nat,
                             slots: seq<Slot<D>>, ghost states: seq<seq<D>>)
    returns (slots': seq<Slot<D>>, ok: bool, ghost states': seq<seq<D>>)
    requires Progress(current, ws, i, first, leaves, depth, slots, states)
    modifies current`assets, current`order, current.tree`leaves, current.tree`layers
    ensures current.Valid() && current.tree.Depth() == depth
    ensures ok <==> (i < |ws| ==> Allowed(first, ws, i))
    ensures ok ==> Progress(current, ws, i + 1, first, leaves, depth, slots', states')
  {
    var slot := NextSlot(current, ws, i, first);
    if slot.None? {
      return slots, false, states;
    }
    ChainedSnoc(current.h, current.leafOf, depth, states, slots, first, ws, current.tree.leaves, slot.value);
    slots' := slots + [slot.value];
    states' := states + [current.tree.leaves];
    ok := true;
  }

  /** A full asset tree of depth 1: its padding slot does not fold to the root. */
  method FullTreePadding() returns (ast: AccountStateTree<Term>, slot: Slot<Term>)
    ensures fresh(ast) && ast.Valid() && |ast.tree.leaves| == Pow2(ast.tree.Depth())
    ensures PaddingSlot(ast.h, ast.tree.Depth(), ast.tree.leaves, ast.tree.leaves, slot)
    ensures Fold(ast.h, ast.h.zero, slot.proof.siblings, slot.proof.path)
         != RootOf(ast.h, ast.tree.leaves, ast.tree.Depth())
  {
    ast := new AccountStateTree<Term>(TermHasher(), (a, b) => Atom(1), 1);
    assert Pow2(1) == 2;
    var inserted := ast.InsertAsset(5, 9);
    slot := PadSlot(ast);
    OutsideProofFails(ast.h, ast.tree.leaves, 2, 1, 0);
  }
}
