/**
The config tree: subpool `i` is leaf `i` of a Merkle tree, leaf 0 is reserved. The sync service
buffers assignments that arrive early and rebuilds the tree from the roots it knows.
*/
module PoolConfig {
  import opened Arith
  import opened MerkleSpec
  import opened Merkle

  // --- the specification ----------------------------------------------------------------------------------

  /** The leaf of a subpool: an uninitialised one is the zero leaf, not a hash. */
  function LeafOf<D(==)>(h: Hasher<D>, commit: (nat, D) -> D, id: nat, root: D): D {
    if root == h.zero then h.zero else commit(id, root)
  }

  /** The keys are exactly 1 to `k`. */
  ghost predicate Consecutive<D>(roots: map<nat, D>, k: nat) {
    forall i: nat :: i in roots <==> 1 <= i <= k
  }

  /** Leaf 0 is reserved; it is only present when a subpool is. */
  function ConfigLeaves<D(==)>(h: Hasher<D>, commit: (nat, D) -> D, roots: map<nat, D>, k: nat): (r: seq<D>)
    requires forall i | 1 <= i <= k :: i in roots
    ensures |r| == if k == 0 then 0 else k + 1
  {
    if k == 0 then [] else if k == 1 then [h.zero, LeafOf(h, commit, 1, roots[1])]
    else ConfigLeaves(h, commit, roots, k - 1) + [LeafOf(h, commit, k, roots[k])]
  }

  /** Where the index finds a digest: the largest subpool id with that leaf. */
  function LastWith<D(==)>(h: Hasher<D>, commit: (nat, D) -> D, roots: map<nat, D>, k: nat): map<D, nat>
    requires forall i | 1 <= i <= k :: i in roots
  {
    if k == 0 then map[]
    else
      var rest, leaf := LastWith(h, commit, roots, k - 1), LeafOf(h, commit, k, roots[k]);
      if leaf != h.zero then rest[leaf := k] else rest
  }

  lemma {:induction false} ConfigLeafAt<D>(h: Hasher<D>, commit: (nat, D) -> D, roots: map<nat, D>, k: nat, i: nat)
    requires forall j | 1 <= j <= k :: j in roots
    requires 1 <= i <= k
    ensures ConfigLeaves(h, commit, roots, k)[i] == LeafOf(h, commit, i, roots[i])
  {
    if i < k {
      ConfigLeafAt(h, commit, roots, k - 1, i);
    }
  }

  /**
  Leaf 0 is zero; the leaf of a subpool is zero when its root is, as for every subpool just registered,
  and otherwise the commitment of its id and root.
  */
  ghost predicate LeavesAre<D>(h: Hasher<D>, commit: (nat, D) -> D, roots: map<nat, D>, k: nat, leaves: seq<D>)
    requires forall j | 1 <= j <= k :: j in roots
  {
    && |leaves| == (if k == 0 then 0 else k + 1) && (k > 0 ==> leaves[0] == h.zero)
    && (forall i | 1 <= i <= k && roots[i] == h.zero :: leaves[i] == h.zero)
    && (forall i | 1 <= i <= k && roots[i] != h.zero :: leaves[i] == commit(i, roots[i]))
  }

  lemma {:induction false} ConfigLeavesAre<D>(h: Hasher<D>, commit: (nat, D) -> D, roots: map<nat, D>, k: nat)
    requires forall j | 1 <= j <= k :: j in roots
    ensures LeavesAre(h, commit, roots, k, ConfigLeaves(h, commit, roots, k))
  {
    if k > 1 {
      ConfigLeavesAre(h, commit, roots, k - 1);
    }
  }

  /** A config tree without an initialised subpool has the root of the empty tree. */
  lemma {:induction false} UninitialisedTree<D(!new)>(h: Hasher<D>, commit: (nat, D) -> D, roots: map<nat, D>, k: nat,
                                                      leaves: seq<D>, depth: nat)
    requires forall j | 1 <= j <= k :: j in roots
    requires LeavesAre(h, commit, roots, k, leaves) && forall j | 1 <= j <= k :: roots[j] == h.zero
    ensures RootOf(h, leaves, depth) == Empty(h, depth)
  {
    ZeroLeavesHaveEmptyRoot(h, leaves, depth);
  }

  /** No later subpool has the same leaf. */
  ghost predicate LastOfItsLeaf<D>(h: Hasher<D>, commit: (nat, D) -> D, roots: map<nat, D>, k: nat, i: nat)
    requires forall j | 1 <= j <= k :: j in roots
    requires 1 <= i <= k
  {
    forall j | i < j <= k :: LeafOf(h, commit, j, roots[j]) != LeafOf(h, commit, i, roots[i])
  }

  /** A nonzero leaf is found at the last position that holds it, so at its own unless it repeats. */
  lemma {:induction false} LastWithFinds<D>(h: Hasher<D>, commit: (nat, D) -> D, roots: map<nat, D>, k: nat, i: nat)
    requires forall j | 1 <= j <= k :: j in roots
    requires 1 <= i <= k && LeafOf(h, commit, i, roots[i]) != h.zero
    ensures var leaf := LeafOf(h, commit, i, roots[i]);
            var at := LastWith(h, commit, roots, k);
            && leaf in at && i <= at[leaf] <= k && LeafOf(h, commit, at[leaf], roots[at[leaf]]) == leaf
            && (at[leaf] == i <==> LastOfItsLeaf(h, commit, roots, k, i))
  {
    var leaf := LeafOf(h, commit, i, roots[i]);
    if LeafOf(h, commit, k, roots[k]) != leaf {
      LastWithFinds(h, commit, roots, k - 1, i);
    }
  }

  // --- the tree ---------------------------------------------------------------------------------------------

  class MainPoolConfigTree<D(==,!new)> {
    const h: Hasher<D>
    const commit: (nat, D) -> D
    const inner: MerkleTree<D>
    var leafIndex: map<D, nat>

    ghost predicate Valid()
      reads this, inner
    {
      inner.Valid() && inner.h == h
    }

    constructor (h: Hasher<D>, commit: (nat, D) -> D, depth: nat)
      requires depth >= 1
      ensures Valid() && fresh(inner) && this.h == h && this.commit == commit
      ensures inner.Depth() == depth && inner.leaves == [] && leafIndex == map[]
    {
      this.h, this.commit := h, commit;
      inner := new MerkleTree<D>(h, depth);
      leafIndex := map[];
    }

    /** Whether an insertion is accepted; subpool 1 is not checked against the number of leaves. */
    ghost predicate Accepts(id: nat)
      reads this, inner
    {
      && id > 0
      && (id > 1 ==> |inner.leaves| == id)
      && |inner.leaves| < Pow2(inner.Depth())
    }

    /** `insert_subpool_at_position` */
    method InsertSubpoolAtPosition(id: nat, root: D) returns (r: Result<(), ()>)
      requires Valid()
      modifies this`leafIndex, inner`leaves, inner`layers
      ensures Valid() && inner.Depth() == old(inner.Depth())
      ensures r.Ok? <==> old(Accepts(id))
      ensures r.Err? ==> inner.leaves == old(inner.leaves) && leafIndex == old(leafIndex)
      ensures var leaf := if root == h.zero then h.zero else commit(id, root);
              r.Ok? ==>
                && inner.leaves == (if old(|inner.leaves|) == 0 then [h.zero] else old(inner.leaves)) + [leaf]
                && leafIndex == if leaf != h.zero then old(leafIndex)[leaf := id] else old(leafIndex)
      // The leaf is at position `id`, unless subpool 1 is inserted again.
      ensures r.Ok? ==> (|inner.leaves| - 1 == id <==> id > 1 || old(|inner.leaves|) <= 1)
    {
      if id == 0 {
        return Err(());
      }
      if id == 1 {
        if |inner.leaves| == 0 {
          Pow2Grows(1, inner.Depth());
          var seeded := inner.Insert(h.zero);
        }
      } else if |inner.leaves| != id {
        return Err(());
      }
      var digest := if root == h.zero then h.zero else commit(id, root);
      var insertedAt := inner.Insert(digest);
      if insertedAt.Err? {
        return Err(());
      }
      if digest != h.zero {
        leafIndex := leafIndex[digest := id];
      }
      return Ok(());
    }

    /** The tree and the index hold the subpools 1 to `k`. */
    ghost predicate Holds(roots: map<nat, D>, k: nat)
      requires forall i | 1 <= i <= k :: i in roots
      reads this, inner
    {
      && Valid()
      && inner.leaves == ConfigLeaves(h, commit, roots, k)
      && leafIndex == LastWith(h, commit, roots, k)
    }

    /** `subpool_proof` */
    method SubpoolProof(id: nat, root: D) returns (r: Option<MerkleProof<D>>)
      requires Valid()
      ensures r.Some? <==> root == h.zero || commit(id, root) in leafIndex
      ensures r.Some? ==>
                var index := if root == h.zero then id else leafIndex[commit(id, root)];
                r.value == ProofAt(h, inner.leaves, inner.Depth(), index)
    {
      if root == h.zero {
        var proof := inner.Proof(id);
        return Some(proof);
      }
      var digest := commit(id, root);
      if digest !in leafIndex {
        return None;
      }
      var proof := inner.Proof(leafIndex[digest]);
      return Some(proof);
    }

    /**
    The proof for a registered subpool: found unless its commitment is the zero digest; it carries
    the subpool's leaf and verifies; it is at the subpool's position unless a later one has the same leaf.
    */
    method RegisteredProof(roots: map<nat, D>, k: nat, i: nat) returns (r: Option<MerkleProof<D>>)
      requires Consecutive(roots, k) && Holds(roots, k) && 1 <= i <= k
      ensures r.Some? <==> roots[i] == h.zero || commit(i, roots[i]) != h.zero
      ensures r.Some? ==>
                && r.value.leaf == (if roots[i] == h.zero then h.zero else commit(i, roots[i]))
                && Fold(h, r.value.leaf, r.value.siblings, r.value.path) == r.value.root ==
                    RootOf(h, inner.leaves, inner.Depth())
                && (r.value.pos == i <==> roots[i] == h.zero || LastOfItsLeaf(h, commit, roots, k, i))
    {
      r := SubpoolProof(i, roots[i]);
      ConfigLeafAt(h, commit, roots, k, i);
      if roots[i] != h.zero {
        if commit(i, roots[i]) != h.zero {
          LastWithFinds(h, commit, roots, k, i);
          ConfigLeafAt(h, commit, roots, k, r.value.pos);
        } else {
          ZeroNotIndexed(h, commit, roots, k);
        }
      }
      if r.Some? {
        PathReachesRoot(h, inner.leaves, r.value.pos, inner.Depth());
      }
    }
  }

  lemma {:induction false} ZeroNotIndexed<D>(h: Hasher<D>, commit: (nat, D) -> D, roots: map<nat, D>, k: nat)
    requires forall j | 1 <= j <= k :: j in roots
    ensures h.zero !in LastWith(h, commit, roots, k)
  {
    if k > 0 {
      ZeroNotIndexed(h, commit, roots, k - 1);
    }
  }

  // --- rebuilding ---------------------------------------------------------------------------------------------

  /** The ids in increasing order. */
  method SortedIds<D>(roots: map<nat, D>) returns (ids: seq<nat>)
    ensures IdsOf(ids, roots)
  {
    ids := [];
    var todo := roots.Keys;
    while todo != {}
      invariant todo <= roots.Keys
      invariant forall i, j | 0 <= i < j < |ids| :: ids[i] < ids[j]
      invariant forall i, id | 0 <= i < |ids| && id in todo :: ids[i] < id
      invariant forall id: nat :: id in roots <==> id in ids || id in todo
    {
      ghost var least := MinimumOf(todo);
      var id :| id in todo && forall q | q in todo :: id <= q;
      ids := ids + [id];
      todo := todo - {id};
    }
  }

  /** The tree is rebuilt exactly when the ids are 1 to `k` and fit. */
  ghost predicate Rebuildable<D>(roots: map<nat, D>, depth: nat) {
    Consecutive(roots, |roots|) && |roots| < Pow2(depth)
  }

  /** The first `n` ids are 1 to `n`. */
  ghost predicate FirstIds(ids: seq<nat>, n: nat) {
    n <= |ids| && forall j | 0 <= j < n :: ids[j] == j + 1
  }

  ghost predicate IdsOf<D>(ids: seq<nat>, roots: map<nat, D>) {
    && (forall i, j | 0 <= i < j < |ids| :: ids[i] < ids[j])
    && (forall id: nat :: id in ids <==> id in roots)
  }

  /** When the next id is not the next number, or the tree is full, no complete rebuild exists. */
  lemma {:induction false} StuckIds<D>(ids: seq<nat>, n: nat, depth: nat, roots: map<nat, D>)
    requires IdsOf(ids, roots) && FirstIds(ids, n) && n < |ids|
    requires ids[n] != n + 1 || n + 1 >= Pow2(depth)
    ensures !Rebuildable(roots, depth)
  {
    NextId(ids, n, roots);
    assert n + 1 in roots <==> n + 1 in ids;
    if n + 1 in ids {
      var j :| 0 <= j < |ids| && ids[j] == n + 1;
      assert j >= n;
    }
  }

  function UpTo(n: nat): set<nat> {
    if n == 0 then {} else UpTo(n - 1) + {n}
  }

  lemma {:induction false} UpToIs(n: nat)
    ensures (forall i: nat :: i in UpTo(n) <==> 1 <= i <= n) && |UpTo(n)| == n
  {
    if n > 0 {
      UpToIs(n - 1);
    }
  }

  lemma {:induction false} AllIds<D>(ids: seq<nat>, roots: map<nat, D>)
    requires IdsOf(ids, roots) && FirstIds(ids, |ids|)
    ensures Consecutive(roots, |ids|) && |roots| == |ids|
  {
    forall i: nat ensures i in roots <==> 1 <= i <= |ids| {
      if 1 <= i <= |ids| {
        assert ids[i - 1] == i;
      }
    }
    UpToIs(|ids|);
    assert roots.Keys == UpTo(|ids|);
  }

  lemma {:induction false} NextId<D>(ids: seq<nat>, n: nat, roots: map<nat, D>)
    requires IdsOf(ids, roots) && FirstIds(ids, n) && n < |ids|
    ensures ids[n] in roots && ids[n] >= n && (n > 0 ==> ids[n] > n)
  {
    assert n > 0 ==> ids[n - 1] == n;
  }

  lemma {:induction false} RebuiltLeaves<D(!new)>(h: Hasher<D>, commit: (nat, D) -> D, roots: map<nat, D>, k: nat,
                                                  leaves: seq<D>, depth: nat)
    requires Consecutive(roots, k) && leaves == ConfigLeaves(h, commit, roots, k)
    ensures LeavesAre(h, commit, roots, k, leaves)
    ensures (forall i | i in roots :: roots[i] == h.zero) ==> RootOf(h, leaves, depth) == Empty(h, depth)
  {
    ConfigLeavesAre(h, commit, roots, k);
    if forall i | i in roots :: roots[i] == h.zero {
      UninitialisedTree(h, commit, roots, k, leaves, depth);
    }
  }

  /** Insert the next id in order; refused when it is not the next position, or the tree is full. */
  method InsertNext<D(==,!new)>(t: MainPoolConfigTree<D>, ids: seq<nat>, n: nat, depth: nat, roots: map<nat, D>)
    returns (ok: bool)
    requires t.Valid() && t.inner.Depth() == depth && IdsOf(ids, roots) && FirstIds(ids, n) && n < |ids|
    requires (forall i | 1 <= i <= n :: i in roots) && t.Holds(roots, n)
    modifies t`leafIndex, t.inner`leaves, t.inner`layers
    ensures t.Valid() && t.inner.Depth() == depth
    ensures ok <==> ids[n] == n + 1 && n + 1 < Pow2(depth)
    ensures ok ==> (forall i | 1 <= i <= n + 1 :: i in roots) && t.Holds(roots, n + 1)
  {
    NextId(ids, n, roots);
    Pow2Grows(0, depth);
    var r := t.InsertSubpoolAtPosition(ids[n], roots[ids[n]]);
    ok := r.Ok?;
  }

  /**
  The rebuild at the end of `sync_config_tree`. `None` stands for the panic on a failed insertion.
  */
  method Rebuild<D(==,!new)>(h: Hasher<D>, commit: (nat, D) -> D, depth: nat, roots: map<nat, D>)
    returns (tree: Option<MainPoolConfigTree<D>>)
    requires depth >= 1
    ensures tree.Some? <==> Rebuildable(roots, depth)
    ensures tree.Some? ==>
        tree.value.Valid() && tree.value.h == h && tree.value.commit == commit && tree.value.inner.Depth() == depth
    ensures tree.Some? ==> Consecutive(roots, |roots|) && tree.value.Holds(roots, |roots|)
    ensures tree.Some? ==> LeavesAre(h, commit, roots, |roots|, tree.value.inner.leaves)
    ensures tree.Some? && (forall i | i in roots :: roots[i] == h.zero) ==>
        RootOf(h, tree.value.inner.leaves, depth) == Empty(h, depth)
  {
    var t := new MainPoolConfigTree<D>(h, commit, depth);
    var ids := SortedIds(roots);
    for n := 0 to |ids|
      invariant t.Valid() && fresh(t) && fresh(t.inner) && t.h == h && t.commit == commit && t.inner.Depth() == depth
      invariant FirstIds(ids, n) && (n > 0 ==> n < Pow2(depth))
      invariant (forall i | 1 <= i <= n :: i in roots) && t.Holds(roots, n)
    {
      var ok := InsertNext(t, ids, n, depth, roots);
      if !ok {
        StuckIds(ids, n, depth, roots);
        return None;
      }
    }
    AllIds(ids, roots);
    RebuiltLeaves(h, commit, roots, |roots|, t.inner.leaves, depth);
    return Some(t);
  }

  /**
  Subpools 1, 2 and again 1: the second insertion of subpool 1 succeeds and lands at position 3,
  while the index still says 1. (A debug build of the source panics instead.)
  */
  method SubpoolOneTwice<D(==,!new)>(h: Hasher<D>, commit: (nat, D) -> D, depth: nat, first: D, second: D, again: D)
    returns (tree: MainPoolConfigTree<D>, r: Result<(), ()>)
    requires depth >= 2 && again != h.zero && commit(1, again) != h.zero
    ensures fresh(tree) && tree.Valid() && tree.h == h && r.Ok?
    ensures tree.inner.leaves == [h.zero, LeafOf(h, commit, 1, first), LeafOf(h, commit, 2, second), commit(1, again)]
    ensures commit(1, again) in tree.leafIndex && tree.leafIndex[commit(1, again)] == 1
  {
    tree := new MainPoolConfigTree<D>(h, commit, depth);
    Pow2Grows(2, depth);
    assert Pow2(2) == 4;
    var one := tree.InsertSubpoolAtPosition(1, first);
    var two := tree.InsertSubpoolAtPosition(2, second);
    r := tree.InsertSubpoolAtPosition(1, again);
  }

  // --- assignments --------------------------------------------------------------------------------------------

  /** 1 to `m` have been seen, `m + 1` has not. */
  ghost predicate LongestPrefix(seen: set<nat>, m: nat) {
    (forall i | 1 <= i <= m :: i in seen) && m + 1 !in seen
  }

  lemma {:induction false} LongestPrefixUnique(seen: set<nat>, m: nat, n: nat)
    requires LongestPrefix(seen, m) && LongestPrefix(seen, n)
    ensures m == n
  {
  }

  datatype Assigned = Assigned(id: nat, owner: nat)

  class SubpoolIndex<D(==,!new)> {
    const h: Hasher<D>
    var roots: map<nat, D>
    var buffer: map<nat, Assigned>
    var next: nat

    /** Every id that has been assigned, as far as the service has seen. */
    ghost var seen: set<nat>

    /** The registered ids are the longest seen prefix; the later seen ids are buffered. */
    ghost predicate Valid()
      reads this
    {
      && next >= 1 && LongestPrefix(seen, next - 1)
      && (forall i: nat :: i in buffer <==> i in seen && i > next)
      && (forall i | i in buffer :: buffer[i].id == i)
      && (forall i | 1 <= i < next :: i in roots)
    }

    /** No root is known for an id that is not registered. */
    ghost predicate OnlyRegistered()
      reads this
    {
      forall i: nat | i in roots :: 1 <= i < next
    }

    constructor (h: Hasher<D>)
      ensures Valid() && OnlyRegistered() && seen == {} && roots == map[] && this.h == h
    {
      this.h, roots, buffer, next, seen := h, map[], map[], 1, {};
    }

    /** Register the next expected id with a zero root, unless a root is known. */
    method Register(id: nat)
      requires id == next
      modifies this`roots, this`next
      ensures next == old(next) + 1 && Extended(old(roots), roots, id, id + 1, h.zero)
    {
      if id !in roots {
        roots := roots[id := h.zero];
      }
      next := next + 1;
    }

    /** `Valid`, except that the next expected id may be waiting in the buffer. */
    ghost predicate Unblocked()
      reads this
    {
      && next >= 1 && (forall i | 1 <= i < next :: i in seen)
      && (forall i: nat :: i in buffer <==> i in seen && i >= next)
      && (forall i | i in buffer :: buffer[i].id == i)
      && (forall i | 1 <= i < next :: i in roots)
    }

    /** Take the next expected id from the buffer. */
    method TakeBuffered()
      requires Unblocked() && next in buffer
      modifies this`roots, this`buffer, this`next
      ensures Unblocked() && next == old(next) + 1 && buffer.Keys == old(buffer.Keys) - {old(next)}
      ensures Extended(old(roots), roots, old(next), next, h.zero)
    {
      var buffered := buffer[next];
      buffer := buffer - {next};
      Register(buffered.id);
    }

    /** The inner loop: register what is no longer blocked. */
    method Drain()
      requires Unblocked()
      modifies this`roots, this`buffer, this`next
      ensures Valid() && next >= old(next) && Extended(old(roots), roots, old(next), next, h.zero)
    {
      ghost var roots0, first := roots, next;
      while next in buffer
        invariant Unblocked() && next >= first && Extended(roots0, roots, first, next, h.zero)
        decreases buffer.Keys
      {
        TakeBuffered();
      }
    }

    /** One `SubpoolOwnerAssigned` event: register it and whatever it unblocks, buffer it, or ignore it. */
    method Assign(e: Assigned)
      requires Valid()
      modifies this
      ensures Valid() && seen == old(seen) + {e.id}
      ensures next >= old(next) && Extended(old(roots), roots, old(next), next, h.zero)
    {
      seen := seen + {e.id};
      if e.id == next {
        Register(e.id);
        Drain();
      } else if e.id > next {
        buffer := buffer[e.id := e];
      }
    }

    /** The loop over assigned events, in any order and with repetitions. */
    method AssignAll(es: seq<Assigned>)
      requires Valid()
      modifies this
      ensures Valid() && seen == old(seen) + (set e | e in es :: e.id)
      ensures next >= old(next) && Extended(old(roots), roots, old(next), next, h.zero)
    {
      ghost var roots0, seen0, first := roots, seen, next;
      for n := 0 to |es|
        invariant Valid() && seen == seen0 + (set e | e in es[..n] :: e.id)
        invariant next >= first && Extended(roots0, roots, first, next, h.zero)
      {
        Assign(es[n]);
        SeenMore(es, n);
      }
      assert es[..|es|] == es;
    }

    /** The loop over root updates. */
    method UpdateRoots(updates: seq<(nat, D)>)
      requires Valid()
      modifies this`roots
      ensures Valid()
      ensures forall i: nat :: i in roots <==> i in old(roots) || Updated(updates, i)
      ensures forall i: nat | i in roots ::
          roots[i] == if Updated(updates, i) then LastUpdate(updates, i) else old(roots)[i]
    {
      ghost var roots0 := roots;
      for n := 0 to |updates|
        invariant forall i: nat :: i in roots <==> i in roots0 || Updated(updates[..n], i)
        invariant forall i: nat | i in roots ::
            roots[i] == if Updated(updates[..n], i) then LastUpdate(updates[..n], i) else roots0[i]
      {
        roots := roots[updates[n].0 := updates[n].1];
        assert updates[..n + 1][..n] == updates[..n];
      }
      assert updates[..|updates|] == updates;
    }

    /** Every root is kept, unless it was updated; a newly registered id starts with the zero root. */
    ghost predicate RootsAfter(roots0: map<nat, D>, first: nat, updates: seq<(nat, D)>)
      reads this
    {
      && (forall i: nat :: i in roots <==> i in roots0 || first <= i < next || Updated(updates, i))
      && (forall i: nat | i in roots && !Updated(updates, i) :: roots[i] == if i in roots0 then roots0[i] else h.zero)
      && (forall i: nat | Updated(updates, i) :: roots[i] == LastUpdate(updates, i))
    }

    /**
    A poll of `sync_config_tree`; `None` stands for the panic of the rebuild. It succeeds exactly when
    the ids with a root are consecutive and fit; with updates of registered subpools only, when they fit.
    */
    method SyncConfigTree(commit: (nat, D) -> D, depth: nat, es: seq<Assigned>, updates: seq<(nat, D)>)
      returns (tree: Option<MainPoolConfigTree<D>>)
      requires Valid() && depth >= 1
      modifies this
      ensures Valid() && next >= old(next) && seen == old(seen) + (set e | e in es :: e.id)
      ensures RootsAfter(old(roots), old(next), updates)
      ensures old(OnlyRegistered()) && (forall i: nat | Updated(updates, i) :: 1 <= i < next) ==> OnlyRegistered()
      ensures tree.Some? <==> Rebuildable(roots, depth)
      ensures OnlyRegistered() ==> (tree.Some? <==> next - 1 < Pow2(depth))
      ensures tree.Some? ==> tree.value.h == h && tree.value.commit == commit && tree.value.inner.Depth() == depth
      ensures tree.Some? && OnlyRegistered() ==> Consecutive(roots, next - 1) && tree.value.Holds(roots, next - 1)
      ensures tree.Some? && OnlyRegistered() ==> LeavesAre(h, commit, roots, next - 1, tree.value.inner.leaves)
    {
      AssignAll(es);
      UpdateRoots(updates);
      tree := RebuildRegistered(commit, depth);
    }

    /** The rebuild, from the roots of the moment. */
    method RebuildRegistered(commit: (nat, D) -> D, depth: nat) returns (tree: Option<MainPoolConfigTree<D>>)
      requires Valid() && depth >= 1
      ensures tree.Some? <==> Rebuildable(roots, depth)
      ensures OnlyRegistered() ==> (tree.Some? <==> next - 1 < Pow2(depth))
      ensures tree.Some? ==> tree.value.h == h && tree.value.commit == commit && tree.value.inner.Depth() == depth
      ensures tree.Some? && OnlyRegistered() ==> Consecutive(roots, next - 1) && tree.value.Holds(roots, next - 1)
      ensures tree.Some? && OnlyRegistered() ==> LeavesAre(h, commit, roots, next - 1, tree.value.inner.leaves)
    {
      if OnlyRegistered() {
        RegisteredCount(roots, next - 1);
      }
      tree := Rebuild(h, commit, depth, roots);
    }

    /** The genesis branch: read the current root of every registered id from the contract. */
    method ReadRoots(onchain: nat -> D)
      requires Valid()
      modifies this`roots
      ensures Valid()
      ensures forall i: nat :: i in roots <==> i in old(roots)
      ensures forall i: nat | i in roots :: roots[i] == if 1 <= i < next then onchain(i) else old(roots)[i]
    {
      ghost var roots0 := roots;
      for id := 1 to next
        invariant forall i: nat :: i in roots <==> i in roots0
        invariant forall i: nat | i in roots :: roots[i] == if 1 <= i < id then onchain(i) else roots0[i]
      {
        roots := roots[id := onchain(id)];
      }
    }

    /** The genesis sync: the tree holds the contract's roots of the registered subpools. */
    method GenesisConfigTree(commit: (nat, D) -> D, depth: nat, es: seq<Assigned>, onchain: nat -> D)
      returns (tree: Option<MainPoolConfigTree<D>>)
      requires Valid() && OnlyRegistered() && depth >= 1
      modifies this
      ensures Valid() && OnlyRegistered() && next >= old(next) && seen == old(seen) + (set e | e in es :: e.id)
      ensures forall i: nat | 1 <= i < next :: roots[i] == onchain(i)
      ensures tree.Some? <==> next - 1 < Pow2(depth)
      ensures tree.Some? ==> tree.value.h == h && tree.value.commit == commit && tree.value.inner.Depth() == depth
      ensures tree.Some? ==> Consecutive(roots, next - 1) && tree.value.Holds(roots, next - 1)
      ensures tree.Some? ==> LeavesAre(h, commit, roots, next - 1, tree.value.inner.leaves)
    {
      AssignAll(es);
      ReadRoots(onchain);
      tree := RebuildRegistered(commit, depth);
    }
  }

  /** The ids from `lo` up to `hi` have a root, the zero digest where there was none; nothing else changed. */
  ghost predicate Extended<D>(roots0: map<nat, D>, roots: map<nat, D>, lo: nat, hi: nat, zero: D) {
    && (forall i: nat :: i in roots <==> i in roots0 || lo <= i < hi)
    && (forall i | i in roots :: roots[i] == if i in roots0 then roots0[i] else zero)
  }

  lemma {:induction false} SeenMore(es: seq<Assigned>, n: nat)
    requires n < |es|
    ensures (set e | e in es[..n + 1] :: e.id) == (set e | e in es[..n] :: e.id) + {es[n].id}
  {
    assert es[..n + 1] == es[..n] + [es[n]];
  }

  function Updated<D>(updates: seq<(nat, D)>, i: nat): bool {
    |updates| > 0 && (updates[|updates| - 1].0 == i || Updated(updates[..|updates| - 1], i))
  }

  function LastUpdate<D>(updates: seq<(nat, D)>, i: nat): D
    requires Updated(updates, i)
  {
    var last := updates[|updates| - 1];
    if last.0 == i then last.1 else LastUpdate(updates[..|updates| - 1], i)
  }

  lemma {:induction false} RegisteredCount<D>(roots: map<nat, D>, k: nat)
    requires Consecutive(roots, k)
    ensures |roots| == k
  {
    UpToIs(k);
    assert roots.Keys == UpTo(k);
  }
}
