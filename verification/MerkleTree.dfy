/**
The sparse append-only Merkle tree. The fields are the stored leaves, the stored part of every
level above them and the table of empty-subtree hashes; the methods update them level by level.
Each method is proved against the recursive reference of `MerkleSpec`.
*/
module Merkle {
  import opened Arith
  import opened MerkleSpec
  import Modular

  datatype TreeError = FullTree | InvalidBatch | IndexError | LayerMismatch(level: nat) | RootMismatch

  datatype MerkleProof<D> = MerkleProof(
    leaf: D,
    siblings: seq<D>,
    path: seq<bool>,
    pos: nat,
    numLeaves: nat,
    root: D)

  /** The proof a tree with these leaves gives for a position. */
  function ProofAt<D>(h: Hasher<D>, leaves: seq<D>, depth: nat, index: nat): MerkleProof<D> {
    MerkleProof(Node(h, leaves, 0, index), SiblingsOf(h, leaves, index, depth), PathBits(index, depth), index,
        |leaves|, RootOf(h, leaves, depth))
  }

  /** `MerkleProof::verify`: fold the leaf along the zipped path and siblings. */
  method VerifyProof<D(==)>(h: Hasher<D>, proof: MerkleProof<D>) returns (ok: bool)
    ensures ok <==> Fold(h, proof.leaf, proof.siblings, proof.path) == proof.root
  {
    var current := proof.leaf;
    var i := 0;
    while i < |proof.path| && i < |proof.siblings|
      invariant 0 <= i <= |proof.path| && i <= |proof.siblings|
      invariant Fold(h, current, proof.siblings[i..], proof.path[i..]) ==
          Fold(h, proof.leaf, proof.siblings, proof.path)
    {
      current := h.Swapped(current, proof.siblings[i], proof.path[i]);
      assert proof.siblings[i..][1..] == proof.siblings[i + 1..] && proof.path[i..][1..] == proof.path[i + 1..];
      i := i + 1;
    }
    ok := current == proof.root;
  }

  class MerkleTree<D(==,!new)> {
    const h: Hasher<D>
    var leaves: seq<D>
    var layers: seq<seq<D>>
    var defaults: seq<D>

    function Depth(): nat
      reads this
    {
      |layers|
    }

    ghost predicate WellFormed()
      reads this
    {
      && |layers| >= 1
      && |defaults| == |layers|
      && forall i | 0 <= i < |defaults| :: defaults[i] == Empty(h, i)
    }

    /** The layers from `lo` up to `hi` are those of the leaf sequence `view`. */
    ghost predicate LayersHold(view: seq<D>, lo: nat, hi: nat)
      reads this
    {
      forall l | lo <= l < hi && l < |layers| :: layers[l] == Layer(h, view, l + 1)
    }

    ghost predicate Valid()
      reads this
    {
      && WellFormed()
      && |leaves| <= Pow2(Depth())
      && LayersHold(leaves, 0, Depth())
    }

    constructor (h: Hasher<D>, depth: nat)
      requires depth >= 1
      ensures Valid() && this.h == h && Depth() == depth && leaves == []
    {
      var table := [h.zero];
      for i := 1 to depth
        invariant |table| == i
        invariant forall j | 0 <= j < i :: table[j] == Empty(h, j)
      {
        table := table + [h.Swapped(table[i - 1], table[i - 1], false)];
      }
      this.h := h;
      leaves := [];
      layers := seq(depth, _ => []);
      defaults := table;
      new;
      forall l | 0 <= l < depth ensures layers[l] == Layer(h, [], l + 1) {
        NoWidthWithoutLeaves(l + 1);
      }
    }

    /** `clone` */
    constructor CopyOf(other: MerkleTree<D>)
      requires other.Valid()
      ensures Valid() && h == other.h && Depth() == other.Depth() && leaves == other.leaves
    {
      h := other.h;
      leaves, layers, defaults := other.leaves, other.layers, other.defaults;
    }

    /** `leaf`: what the root commits to at that position, exactly for the occupied positions. */
    method Leaf(index: nat) returns (r: Result<D, TreeError>)
      requires Valid()
      ensures r.Ok? <==> index < |leaves|
      ensures r.Ok? ==>
                Fold(h, r.value, SiblingsOf(h, leaves, index, Depth()), PathBits(index, Depth()))
                == RootOf(h, leaves, Depth())
      ensures r.Err? ==> r.error == IndexError && Node(h, leaves, 0, index) == h.zero
    {
      if |leaves| <= index {
        return Err(IndexError);
      }
      PathReachesRoot(h, leaves, index, Depth());
      return Ok(leaves[index]);
    }

    /** The node of `level` at `pos` as the code finds it: stored, or the default hash. */
    function Stored(level: nat, pos: nat): (r: D)
      requires Valid() && level < Depth()
      reads this
      ensures r == Node(h, leaves, level, pos)
    {
      if level == 0 then
        if pos < |leaves| then leaves[pos] else defaults[0]
      else if pos < |layers[level - 1]| then
        assert layers[level - 1] == Layer(h, leaves, level);
        layers[level - 1][pos]
      else
        assert layers[level - 1] == Layer(h, leaves, level);
        NodeBeyondWidth(h, leaves, level, pos);
        defaults[level]
    }

    /** `merkle_path`: the siblings of the levels from `start` up to `end`, at any index. */
    method MerklePath(index: nat, start: nat, end: nat) returns (siblings: seq<D>)
      requires Valid() && start < end <= Depth()
      ensures siblings == SiblingsOf(h, leaves, index, end)[start..]
    {
      siblings := [];
      var pos := Shr(index, start);
      for level := start to end
        invariant pos == Shr(index, level)
        invariant |siblings| == level - start
        invariant forall j | start <= j < level :: siblings[j - start] == Node(h, leaves, j, SiblingPos(Shr(index, j)))
      {
        var siblingPos := if pos % 2 == 1 then pos - 1 else pos + 1;
        siblings := siblings + [Stored(level, siblingPos)];
        pos := pos / 2;
      }
    }

    method Root() returns (root: D)
      requires Valid()
      ensures root == RootOf(h, leaves, Depth())
    {
      var lastLayer := layers[|layers| - 1];
      assert lastLayer == Layer(h, leaves, Depth());
      WidthFits(|leaves|, Depth(), Depth());
      if |lastLayer| == 0 {
        var lastDefault := defaults[|defaults| - 1];
        root := h.Swapped(lastDefault, lastDefault, false);
        NodeBeyondWidth(h, leaves, Depth(), 0);
      } else {
        assert |lastLayer| == 1;
        root := lastLayer[0];
      }
    }

    /** `merkle_proof`, for occupied and empty positions alike. */
    method Proof(index: nat) returns (proof: MerkleProof<D>)
      requires Valid()
      ensures proof == ProofAt(h, leaves, Depth(), index)
      ensures proof.leaf == (if index < |leaves| then leaves[index] else h.zero)
      ensures proof.pos == index && proof.numLeaves == |leaves| && proof.root == RootOf(h, leaves, Depth())
      ensures index < Pow2(Depth()) ==> Fold(h, proof.leaf, proof.siblings, proof.path) == proof.root
    {
      var siblings := MerklePath(index, 0, Depth());
      var leaf := if index < |leaves| then leaves[index] else h.zero;
      var root := Root();
      proof := MerkleProof(leaf, siblings, PathBits(index, Depth()), index, |leaves|, root);
      if index < Pow2(Depth()) {
        PathReachesRoot(h, leaves, index, Depth());
      }
    }

    /** The sibling of a path node, from the leaves, the layer below or the default table. */
    method PathSibling(level: nat, pos: nat, ghost view: seq<D>) returns (sibling: D)
      requires WellFormed() && level < Depth()
      requires level == 0 ==> pos < |leaves|
      requires level == 0 && pos % 2 == 1 ==> leaves[pos - 1] == Node(h, view, 0, pos - 1)
      requires level == 0 && pos % 2 == 0 ==> Node(h, leaves, 0, pos + 1) == Node(h, view, 0, pos + 1)
      requires level > 0 ==> layers[level - 1] == Layer(h, view, level) && pos < Width(|view|, level)
      ensures sibling == Node(h, view, level, SiblingPos(pos))
    {
      if level == 0 {
        if pos % 2 == 1 {
          sibling := leaves[pos - 1];
        } else if pos + 1 < |leaves| {
          sibling := leaves[pos + 1];
        } else {
          sibling := defaults[0];
        }
      } else {
        var prevLayer := layers[level - 1];
        if pos % 2 == 1 {
          sibling := prevLayer[pos - 1];
        } else if pos + 1 < |prevLayer| {
          sibling := prevLayer[pos + 1];
        } else {
          sibling := defaults[level];
          NodeBeyondWidth(h, view, level, pos + 1);
        }
      }
    }

    /**
    `update_merkle_path`: rewrite the path of one leaf. The stored layers are those of `before`;
    `after` is the leaf sequence they are brought to, which differs from it on this path only.
    */
    method UpdateMerklePath(index: nat, ghost before: seq<D>, ghost after: seq<D>)
      requires WellFormed() && LayersHold(before, 0, Depth())
      requires index < |leaves| && leaves[index] == Node(h, after, 0, index)
      requires index % 2 == 1 ==> leaves[index - 1] == Node(h, after, 0, index - 1)
      requires index % 2 == 0 ==> Node(h, leaves, 0, index + 1) == Node(h, after, 0, index + 1)
      requires OnlyPathDiffers(h, before, after, index, 1)
      modifies this`layers
      ensures WellFormed() && Depth() == old(Depth()) && LayersHold(after, 0, Depth())
    {
      var pos := index;
      var currentHash := leaves[index];
      var depth := Depth();
      for level := 0 to depth
        invariant 0 <= pos && Depth() == depth
        invariant PathReady(index, level, pos, currentHash, before, after)
      {
        currentHash := PathLevel(index, level, pos, currentHash, before, after);
        pos := pos / 2;
      }
    }

    /** A path update has reached `level`: the layers below are those of `after`, the others still of `before`. */
    ghost predicate PathReady(index: nat, level: nat, pos: nat, currentHash: D, before: seq<D>, after: seq<D>)
      reads this
    {
      && WellFormed() && pos == Shr(index, level) && currentHash == Node(h, after, level, pos)
      && (level == 0 ==> LeafReady(pos, after))
      && LayersHold(after, 0, level) && LayersHold(before, level, Depth())
      && OnlyPathDiffers(h, before, after, index, level + 1)
      && (level > 0 ==> pos < Width(|after|, level))
    }

    /** The pair of a leaf is stored as in `after`. */
    ghost predicate LeafReady(pos: nat, after: seq<D>)
      reads this
    {
      && pos < |leaves|
      && (pos % 2 == 1 ==> leaves[pos - 1] == Node(h, after, 0, pos - 1))
      && (pos % 2 == 0 ==> Node(h, leaves, 0, pos + 1) == Node(h, after, 0, pos + 1))
    }

    method PathLevel(ghost index: nat, level: nat, pos: nat, currentHash: D, ghost before: seq<D>, ghost after: seq<D>)
      returns (parentHash: D)
      requires PathReady(index, level, pos, currentHash, before, after) && level < Depth()
      modifies this`layers
      ensures Depth() == old(Depth()) && PathReady(index, level + 1, pos / 2, parentHash, before, after)
    {
      parentHash := WritePathLevel(index, level, pos, currentHash, before, after);
      OnlyPathDiffersAbove(h, before, after, index, level + 1);
    }

    /** One level of a path update: hash with the sibling, then write or append the parent. */
    method WritePathLevel(ghost index: nat, level: nat, pos: nat, currentHash: D, ghost before: seq<D>,
                          ghost after: seq<D>)
      returns (parentHash: D)
      requires WellFormed() && level < Depth()
      requires pos == Shr(index, level) && currentHash == Node(h, after, level, pos)
      requires level == 0 ==> LeafReady(pos, after)
      requires level > 0 ==> layers[level - 1] == Layer(h, after, level) && pos < Width(|after|, level)
      requires layers[level] == Layer(h, before, level + 1)
      requires OnlyPathDiffers(h, before, after, index, level + 1)
      modifies this`layers
      ensures layers == old(layers)[level := Layer(h, after, level + 1)]
      ensures parentHash == Node(h, after, level + 1, pos / 2)
    {
      var siblingHash := PathSibling(level, pos, after);
      NodeAbove(h, after, level, pos, siblingHash);
      parentHash := h.Swapped(currentHash, siblingHash, pos % 2 == 1);
      LayerWrite(h, before, after, index, level + 1);
      layers := layers[level := WriteOrPush(layers[level], pos / 2, parentHash)];
    }

    /** `update_leaf` */
    method UpdateLeaf(index: nat, newLeaf: D) returns (r: Result<(), TreeError>)
      requires Valid()
      modifies this`leaves, this`layers
      ensures Valid() && Depth() == old(Depth())
      ensures r == if index < |old(leaves)| then Ok(()) else Err(IndexError)
      ensures leaves == if r.Ok? then old(leaves)[index := newLeaf] else old(leaves)
    {
      if index >= |leaves| {
        return Err(IndexError);
      }
      ghost var before := leaves;
      leaves := leaves[index := newLeaf];
      LeafChange(h, before, leaves, index);
      UpdateMerklePath(index, before, leaves);
      return Ok(());
    }

    /** `insert` */
    method Insert(leaf: D) returns (r: Result<nat, TreeError>)
      requires Valid()
      modifies this`leaves, this`layers
      ensures Valid() && Depth() == old(Depth())
      ensures r == if |old(leaves)| < Pow2(Depth()) then Ok(|old(leaves)|) else Err(FullTree)
      ensures leaves == if r.Ok? then old(leaves) + [leaf] else old(leaves)
    {
      if |leaves| >= Pow2(Depth()) {
        return Err(FullTree);
      }
      ghost var before := leaves;
      leaves := leaves + [leaf];
      LeafChange(h, before, leaves, |before|);
      UpdateMerklePath(|leaves| - 1, before, leaves);
      return Ok(|leaves| - 1);
    }

    /** `rebuild_tree`: recomputing every layer from the leaves restores what they should hold. */
    method RebuildTree()
      requires WellFormed() && |leaves| <= Pow2(Depth())
      modifies this`layers
      ensures Valid() && Depth() == old(Depth())
      ensures old(Valid()) ==> layers == old(layers)
    {
      ghost var was := layers;
      var depth := Depth();
      layers := seq(depth, _ => []);
      forall l | 0 <= l < depth ensures layers[l] == Layer(h, [], l + 1) {
        NoWidthWithoutLeaves(l + 1);
      }
      ghost var done: seq<D> := [];
      var i := 0;
      while i < |leaves|
        invariant WellFormed() && Depth() == depth
        invariant 0 <= i <= |leaves|
        invariant done == leaves[..PairsTouched(i, |leaves|)]
        invariant LayersHold(done, 0, depth)
      {
        ghost var next := leaves[..PairsTouched(i + 1, |leaves|)];
        PairChange(h, leaves, i);
        UpdateMerklePath(i, done, next);
        done := next;
        i := i + 1;
      }
      assert done == leaves;
    }

    /** `insert_batch`: a range update instead of one path update per leaf. */
    method InsertBatch(batch: seq<D>) returns (r: Result<(), TreeError>)
      requires Valid()
      modifies this`leaves, this`layers
      ensures Depth() == old(Depth()) && WellFormed()
      ensures r == BatchOutcome(|old(leaves)|, |batch|, Depth())
      // A batch that does not fit is noticed only after the leaves have been extended.
      ensures leaves == if r.Ok? || r == Err(IndexError) then old(leaves) + batch else old(leaves)
      ensures r.Err? ==> layers == old(layers)
      ensures Valid() <==> r != Err(IndexError)
    {
      if !BatchDivides(|leaves|, |batch|) {
        return Err(InvalidBatch);
      }
      if |leaves| >= Pow2(Depth()) {
        return Err(FullTree);
      }
      ghost var before := leaves;
      leaves := leaves + batch;
      r := UpdateConsecutivePaths(|leaves| - |batch|, |batch|, before);
    }

    /**
    `update_consecutive_paths`: recompute the ancestors of the range `[start, start + size)`, one
    level at a time. The layers are those of `before`, which agrees with the leaves outside the
    range; every position beyond `before` is in the range. A range past the last leaf is filled up
    with zero leaves.
    */
    method UpdateConsecutivePaths(start: nat, size: nat, ghost before: seq<D>) returns (r: Result<(), TreeError>)
      requires WellFormed() && LayersHold(before, 0, Depth())
      requires |before| <= |leaves| && (|before| < |Filled(h, leaves, start + size)| ==> start <= |before|)
      requires |leaves| == |before| || |leaves| <= start + size
      requires forall i: nat | i < |before| && (i < start || start + size <= i) :: before[i] == leaves[i]
      modifies this`layers
      ensures WellFormed() && Depth() == old(Depth())
      ensures r == if start + size <= Pow2(Depth()) then Ok(()) else Err(IndexError)
      ensures r.Ok? ==> LayersHold(Filled(h, leaves, start + size), 0, Depth())
      ensures r.Err? ==> layers == old(layers)
    {
      var depth := Depth();
      if start + size > Pow2(depth) {
        return Err(IndexError);
      }
      ghost var view := Filled(h, leaves, start + size);
      RangeDiffers(h, before, leaves, start, size);
      UpdateRange(start, start + size, before, view);
      return Ok(());
    }

    /** The loop over the levels of a range update. */
    method UpdateRange(start: nat, end: nat, ghost before: seq<D>, ghost view: seq<D>)
      requires WellFormed() && LayersHold(before, 0, Depth()) && SameNodes(h, leaves, view)
      requires RangeReady(h, before, view, start, end, 0)
      modifies this`layers
      ensures WellFormed() && Depth() == old(Depth()) && LayersHold(view, 0, Depth())
    {
      var depth := Depth();
      var curStart, curEnd := start, end;
      for level := 0 to depth
        invariant WellFormed() && Depth() == depth && 0 <= curStart && 0 <= curEnd
        invariant RangeReady(h, before, view, curStart, curEnd, level)
        invariant LayersHold(view, 0, level) && LayersHold(before, level, depth)
      {
        WriteRangeLevel(level, curStart, curEnd, before, view);
        RangeDiffersAbove(h, before, view, curStart, curEnd, level);
        curStart := curStart / 2;
        curEnd := (curEnd + 1) / 2;
      }
    }

    /** One level of a range update: every parent of the positions from `curStart` up to `curEnd`. */
    method WriteRangeLevel(level: nat, curStart: nat, curEnd: nat, ghost before: seq<D>, ghost view: seq<D>)
      requires WellFormed() && level < Depth() && SameNodes(h, leaves, view)
      requires level > 0 ==> layers[level - 1] == Layer(h, view, level)
      requires layers[level] == Layer(h, before, level + 1)
      requires RangeReady(h, before, view, curStart, curEnd, level)
      modifies this`layers
      ensures layers == old(layers)[level := Layer(h, view, level + 1)]
    {
      var prevLayer := if level == 0 then leaves else layers[level - 1];
      var layer := layers[level];
      ghost var active := Between(curStart, curEnd);
      SparseStart(h, before, view, active, level);
      for pos := curStart to curEnd
        invariant layers == old(layers)
        invariant SparseProgress(h, before, view, active, Between(pos, curEnd), level, layer)
      {
        var parentHash := ParentHash(prevLayer, level, pos, view);
        SparseWrite(h, before, view, active, Between(pos, curEnd), level, layer, pos);
        assert Between(pos, curEnd) - {pos} == Between(pos + 1, curEnd);
        layer := WriteOrPush(layer, pos / 2, parentHash);
      }
      SparseDone(h, before, view, active, level, layer);
      layers := layers[level := layer];
    }

    /**
    `update_sparse_paths`: recompute the ancestors of a set of leaves, level by level. The layers
    are those of `before`, which agrees with the leaves outside `indices`; leaves beyond `before`
    are new and must all be in `indices`.
    */
    method UpdateSparsePaths(indices: set<nat>, ghost before: seq<D>)
      requires WellFormed() && LayersHold(before, 0, Depth())
      requires forall i | i in indices :: i < |leaves|
      requires |before| <= |leaves| && forall i: nat | |before| <= i < |leaves| :: i in indices
      requires forall i: nat | i < |before| && i !in indices :: before[i] == leaves[i]
      modifies this`layers
      ensures WellFormed() && Depth() == old(Depth()) && LayersHold(leaves, 0, Depth())
    {
      if indices == {} {
        assert |before| !in indices;
        assert before == leaves;
        return;
      }
      var active := indices;
      var depth := Depth();
      for level := 0 to depth
        invariant WellFormed() && Depth() == depth
        invariant LayersHold(leaves, 0, level) && LayersHold(before, level, depth)
        invariant SparseDiffers(h, before, leaves, active, level)
      {
        SparseDiffersAbove(h, before, leaves, active, level);
        WriteSparseLevel(level, active, before);
        active := Parents(active);
      }
    }

    /** One level of a sparse update, in ascending order of position. */
    method WriteSparseLevel(level: nat, active: set<nat>, ghost before: seq<D>)
      requires WellFormed() && level < Depth()
      requires level > 0 ==> layers[level - 1] == Layer(h, leaves, level)
      requires layers[level] == Layer(h, before, level + 1)
      requires SparseDiffers(h, before, leaves, active, level)
      requires SparseDiffers(h, before, leaves, Parents(active), level + 1)
      modifies this`layers
      ensures layers == old(layers)[level := Layer(h, leaves, level + 1)]
    {
      var todo, layer := active, layers[level];
      var prevLayer := if level == 0 then leaves else layers[level - 1];
      assert prevLayer == Layer(h, leaves, level);
      SparseStart(h, before, leaves, active, level);
      while todo != {}
        invariant layers == old(layers) && todo <= active
        invariant SparseProgress(h, before, leaves, active, todo, level, layer)
        decreases todo
      {
        ghost var least := MinimumOf(todo);
        var pos :| pos in todo && forall q | q in todo :: pos <= q;
        var parentHash := ParentHash(prevLayer, level, pos, leaves);
        SparseWrite(h, before, leaves, active, todo, level, layer, pos);
        layer := WriteOrPush(layer, pos / 2, parentHash);
        todo := todo - {pos};
      }
      SparseDone(h, before, leaves, active, level, layer);
      layers := layers[level := layer];
    }

    /** Hash a node with its sibling, which may be a default; a leaf that is not there is zero. */
    method ParentHash(prevLayer: seq<D>, level: nat, pos: nat, ghost view: seq<D>) returns (parentHash: D)
      requires WellFormed() && level < Depth()
      requires if level == 0 then SameNodes(h, prevLayer, view)
               else prevLayer == Layer(h, view, level) && pos < |prevLayer|
      ensures parentHash == Node(h, view, level + 1, pos / 2)
    {
      var isRight := pos % 2 == 1;
      var siblingPos := if isRight then pos - 1 else pos + 1;
      var currentHash := if pos < |prevLayer| then prevLayer[pos] else h.zero;
      var siblingHash := if siblingPos < |prevLayer| then prevLayer[siblingPos] else defaults[level];
      if level == 0 {
        assert Node(h, prevLayer, 0, pos) == Node(h, view, 0, pos);
        assert Node(h, prevLayer, 0, siblingPos) == Node(h, view, 0, siblingPos);
      } else if siblingPos >= |prevLayer| {
        NodeBeyondWidth(h, view, level, siblingPos);
      }
      NodeAbove(h, view, level, pos, siblingHash);
      parentHash := h.Swapped(currentHash, siblingHash, isRight);
    }

    // --- the self-check ------------------------------------------------------------------------

    /** The inner loop of `verify_layers` and `recompute_root`: hash one level's nodes in pairs. */
    method NextLayer(prev: seq<D>, level: nat) returns (next: seq<D>)
      requires WellFormed() && level < Depth() && prev == Layer(h, leaves, level)
      ensures next == Layer(h, leaves, level + 1)
    {
      next := [];
      var i := 0;
      while i < |prev|
        invariant i == 2 * |next| && |next| <= (|prev| + 1) / 2
        invariant forall p | 0 <= p < |next| :: next[p] == Node(h, leaves, level + 1, p)
      {
        var left := prev[i];
        var right := if i + 1 < |prev| then prev[i + 1] else defaults[level];
        if i + 1 >= |prev| {
          NodeBeyondWidth(h, leaves, level, i + 1);
        }
        next := next + [h.Swapped(left, right, false)];
        i := i + 2;
      }
    }

    /** `verify_layers`: reports the lowest layer that is not the one the leaves demand. */
    method VerifyLayers() returns (r: Result<(), TreeError>)
      requires WellFormed()
      ensures r.Ok? ==> LayersHold(leaves, 0, Depth())
      ensures r.Err? ==> exists l :: 0 <= l < Depth() && r.error == LayerMismatch(l)
                           && LayersHold(leaves, 0, l) && layers[l] != Layer(h, leaves, l + 1)
    {
      var prevHashes := leaves;
      assert prevHashes == Layer(h, leaves, 0);
      for level := 0 to |layers|
        invariant prevHashes == Layer(h, leaves, level)
        invariant LayersHold(leaves, 0, level)
      {
        var expected := NextLayer(prevHashes, level);
        if expected != layers[level] {
          return Err(LayerMismatch(level));
        }
        prevHashes := expected;
      }
      return Ok(());
    }

    /** `recompute_root` */
    method RecomputeRoot() returns (root: D)
      requires WellFormed() && 0 < |leaves| <= Pow2(Depth())
      ensures root == RootOf(h, leaves, Depth())
    {
      var current := leaves;
      assert current == Layer(h, leaves, 0);
      for level := 0 to Depth()
        invariant current == Layer(h, leaves, level)
      {
        current := NextLayer(current, level);
      }
      WidthFits(|leaves|, Depth(), Depth());
      root := current[0];
    }

    /** `verify`: on a non-empty tree the self-check succeeds exactly when the tree is valid. */
    method Verify() returns (r: Result<(), TreeError>)
      requires WellFormed() && 0 < |leaves| <= Pow2(Depth())
      ensures r.Ok? <==> Valid()
      ensures r.Err? ==> exists l :: 0 <= l < Depth() && r.error == LayerMismatch(l)
                           && LayersHold(leaves, 0, l) && layers[l] != Layer(h, leaves, l + 1)
    {
      r := VerifyLayers();
      if r.Ok? {
        var recomputed := RecomputeRoot();
        var stored := Root();
        if recomputed != stored {
          return Err(RootMismatch);
        }
      }
    }
  }

  /** A valid tree is determined by its leaves: every update order that reaches them gives it. */
  lemma SameLeavesSameTree<D(!new)>(a: MerkleTree<D>, b: MerkleTree<D>)
    requires a.Valid() && b.Valid() && a.h == b.h && a.Depth() == b.Depth() && a.leaves == b.leaves
    ensures a.layers == b.layers && a.defaults == b.defaults
  {
    forall l | 0 <= l < |a.layers| ensures a.layers[l] == b.layers[l] {
      assert a.layers[l] == Layer(a.h, a.leaves, l + 1);
    }
  }

  /** Overwrite an existing parent, or append the next one. */
  function WriteOrPush<D>(layer: seq<D>, parent: nat, node: D): seq<D> {
    if parent < |layer| then layer[parent := node] else layer + [node]
  }

  /** `is_multiple_of`, with its answer for a batch of size zero. */
  predicate BatchDivides(n: nat, size: nat) {
    if size == 0 then n == 0 else n % size == 0
  }

  /** A size divides the leaf count exactly when the count is a multiple of it; zero divides zero only. */
  lemma {:induction false} DividesIsMultiple(n: nat, size: nat)
    ensures BatchDivides(n, size) <==> exists q: nat :: n == q * size
  {
    if BatchDivides(n, size) {
      var q: nat := if size == 0 then 0 else n / size;
      assert n == q * size;
    }
    forall q: nat | n == q * size ensures BatchDivides(n, size) {
      if size > 0 {
        Modular.DivModUnique(n, q, 0, size);
      }
    }
  }

  /** The answer of `insert_batch` for a tree of `n` leaves; the last error leaves a damaged tree. */
  function BatchOutcome(n: nat, size: nat, depth: nat): Result<(), TreeError> {
    if !BatchDivides(n, size) then Err(InvalidBatch)
    else if n >= Pow2(depth) then Err(FullTree)
    else if n + size > Pow2(depth) then Err(IndexError)
    else Ok(())
  }

  /** Three leaves for an empty tree of depth 1: refused, but the tree keeps them and is no longer valid. */
  method OverlongBatch<D(==,!new)>(h: Hasher<D>, x: D) returns (tree: MerkleTree<D>, r: Result<(), TreeError>)
    ensures fresh(tree) && r == Err(IndexError) && tree.leaves == [x, x, x] && !tree.Valid()
  {
    tree := new MerkleTree<D>(h, 1);
    assert Pow2(1) == 2;
    r := tree.InsertBatch([x, x, x]);
  }

  /** Below a full tree, a batch of a power of two that divides the leaf count fits unless it exceeds the whole tree. */
  lemma {:induction false} AlignedBatchFits(n: nat, k: nat, depth: nat)
    requires BatchDivides(n, Pow2(k)) && n < Pow2(depth)
    ensures BatchOutcome(n, Pow2(k), depth) == if k <= depth then Ok(()) else Err(IndexError)
  {
    if k <= depth {
      Pow2Adds(k, depth - k);
      NextMultipleFits(n, Pow2(k), Pow2(depth - k));
    } else {
      Pow2Grows(depth + 1, k);
    }
  }

  lemma {:induction false} NextMultipleFits(n: nat, p: nat, m: nat)
    requires p > 0 && n % p == 0 && n < p * m
    ensures n + p <= p * m
  {
    var q := n / p;
    assert n == p * q;
    if q >= m {
      MulMono(m, q, p);
    } else {
      MulMono(q + 1, m, p);
    }
  }

  /** How many leaves the first `i` steps of a rebuild have covered: whole pairs. */
  ghost function PairsTouched(i: nat, n: nat): nat {
    if i + i % 2 <= n then i + i % 2 else n
  }

  lemma {:induction false} LeafChange<D(!new)>(h: Hasher<D>, before: seq<D>, after: seq<D>, index: nat)
    requires index < |after| && index <= |before|
    requires after == if index < |before| then before[index := after[index]] else before + [after[index]]
    ensures OnlyPathDiffers(h, before, after, index, 1)
  {
    assert OnlyPathDiffers(h, before, after, index, 0);
    OnlyPathDiffersAbove(h, before, after, index, 0);
  }

  lemma {:induction false} PairChange<D(!new)>(h: Hasher<D>, leaves: seq<D>, i: nat)
    requires i < |leaves|
    ensures var done, next := leaves[..PairsTouched(i, |leaves|)], leaves[..PairsTouched(i + 1, |leaves|)];
            && OnlyPathDiffers(h, done, next, i, 1)
            && leaves[i] == Node(h, next, 0, i)
            && (i % 2 == 1 ==> leaves[i - 1] == Node(h, next, 0, i - 1))
            && (i % 2 == 0 ==> Node(h, leaves, 0, i + 1) == Node(h, next, 0, i + 1))
  {
    var done, next := leaves[..PairsTouched(i, |leaves|)], leaves[..PairsTouched(i + 1, |leaves|)];
    forall p: nat | p != i / 2 ensures Node(h, done, 1, p) == Node(h, next, 1, p) {
    }
  }

  // --- sparse updates -------------------------------------------------------------------------

  /** The parents of a set of positions. */
  function Parents(active: set<nat>): set<nat> {
    set p | p in active :: p / 2
  }

  ghost predicate SparseDiffers<D(!new)>(h: Hasher<D>, before: seq<D>, after: seq<D>, active: set<nat>, level: nat) {
    && Width(|before|, level) <= Width(|after|, level)
    && (forall p | p in active :: p < Width(|after|, level))
    && (forall p: nat | Width(|before|, level) <= p < Width(|after|, level) :: p in active)
    && (forall p: nat | p !in active :: Node(h, before, level, p) == Node(h, after, level, p))
  }

  lemma {:induction false} SparseDiffersAbove<D(!new)>(h: Hasher<D>, before: seq<D>, after: seq<D>, active: set<nat>,
                                                       level: nat)
    requires SparseDiffers(h, before, after, active, level)
    ensures SparseDiffers(h, before, after, Parents(active), level + 1)
  {
    var above, parents := level + 1, Parents(active);
    forall p: nat | p !in parents ensures Node(h, before, above, p) == Node(h, after, above, p) {
      assert 2 * p / 2 == p && (2 * p + 1) / 2 == p;
      assert 2 * p !in active && 2 * p + 1 !in active;
    }
    forall p: nat | Width(|before|, above) <= p < Width(|after|, above) ensures p in parents {
      assert 2 * p in active && 2 * p / 2 == p;
    }
  }

  /** A half-written parent layer: right wherever no unwritten position is below it. */
  ghost predicate SparseProgress<D(!new)>(h: Hasher<D>, before: seq<D>, after: seq<D>, active: set<nat>, todo: set<nat>,
                                          level: nat, layer: seq<D>)
  {
    && (forall q, t | q in active && q !in todo && t in todo :: q < t)
    && Width(|before|, level + 1) <= |layer| <= Width(|after|, level + 1)
    && (forall q | q in active && q !in todo :: q / 2 < |layer|)
    && (forall p | 0 <= p < |layer| && 2 * p !in todo && 2 * p + 1 !in todo :: layer[p] == Node(h, after, level + 1, p))
  }

  lemma {:induction false} SparseStart<D(!new)>(h: Hasher<D>, before: seq<D>, after: seq<D>, active: set<nat>,
                                                level: nat)
    requires SparseDiffers(h, before, after, active, level)
    ensures SparseProgress(h, before, after, active, active, level, Layer(h, before, level + 1))
  {
  }

  lemma {:induction false} SparseWrite<D(!new)>(h: Hasher<D>, before: seq<D>, after: seq<D>, active: set<nat>,
                                                todo: set<nat>,
                                                level: nat, layer: seq<D>, pos: nat)
    requires SparseDiffers(h, before, after, active, level) && todo <= active
    requires SparseProgress(h, before, after, active, todo, level, layer)
    requires pos in todo && forall q | q in todo :: pos <= q
    ensures SparseProgress(h, before, after, active, todo - {pos}, level,
                           WriteOrPush(layer, pos / 2, Node(h, after, level + 1, pos / 2)))
  {
    var parent := pos / 2;
    var written := WriteOrPush(layer, parent, Node(h, after, level + 1, parent));
    var rest := todo - {pos};
    assert Width(|before|, level + 1) < parent ==> 2 * (parent - 1) in active;
    assert parent <= |layer|;
    forall p | 0 <= p < |written| && 2 * p !in rest && 2 * p + 1 !in rest
      ensures written[p] == Node(h, after, level + 1, p)
    {
      if p != parent {
        assert 2 * p != pos && 2 * p + 1 != pos;
      }
    }
  }

  lemma {:induction false} SparseDone<D(!new)>(h: Hasher<D>, before: seq<D>, after: seq<D>, active: set<nat>,
                                               level: nat, layer: seq<D>)
    requires SparseDiffers(h, before, after, active, level)
    requires SparseProgress(h, before, after, active, {}, level, layer)
    ensures layer == Layer(h, after, level + 1)
  {
    assert |layer| < Width(|after|, level + 1) ==> 2 * |layer| in active;
  }

  // --- range updates ----------------------------------------------------------------------------

  /** The positions from `lo` up to `hi`. */
  ghost function Between(lo: nat, hi: nat): (r: set<nat>)
    ensures forall p: nat :: p in r <==> lo <= p < hi
  {
    if lo >= hi then {} else Between(lo, hi - 1) + {hi - 1}
  }

  /** The leaves, filled up with zero leaves to at least `n`. */
  ghost function Filled<D>(h: Hasher<D>, leaves: seq<D>, n: nat): (r: seq<D>)
    ensures |r| == if n <= |leaves| then |leaves| else n
    ensures forall i | 0 <= i < |r| :: r[i] == if i < |leaves| then leaves[i] else h.zero
  {
    if n <= |leaves| then leaves else leaves + seq(n - |leaves|, _ => h.zero)
  }

  /** Padded with zeros, the two leaf sequences are the same. */
  ghost predicate SameNodes<D(!new)>(h: Hasher<D>, a: seq<D>, b: seq<D>) {
    forall p: nat :: Node(h, a, 0, p) == Node(h, b, 0, p)
  }

  /** The nodes of a level that differ, or are new, all lie in a stored range. */
  ghost predicate RangeReady<D(!new)>(h: Hasher<D>, before: seq<D>, view: seq<D>, lo: nat, hi: nat, level: nat) {
    lo <= hi <= Width(|view|, level) && SparseDiffers(h, before, view, Between(lo, hi), level)
  }

  lemma {:induction false} RangeDiffers<D(!new)>(h: Hasher<D>, before: seq<D>, leaves: seq<D>, start: nat, size: nat)
    requires |before| <= |leaves| && (|before| < |Filled(h, leaves, start + size)| ==> start <= |before|)
    requires |leaves| == |before| || |leaves| <= start + size
    requires forall i: nat | i < |before| && (i < start || start + size <= i) :: before[i] == leaves[i]
    ensures RangeReady(h, before, Filled(h, leaves, start + size), start, start + size, 0)
    ensures SameNodes(h, leaves, Filled(h, leaves, start + size))
  {
  }

  /** The next range covers the parents, and possibly one more node, which is rewritten to itself. */
  lemma {:induction false} RangeDiffersAbove<D(!new)>(h: Hasher<D>, before: seq<D>, view: seq<D>, lo: nat, hi: nat,
                                                      level: nat)
    requires RangeReady(h, before, view, lo, hi, level)
    ensures RangeReady(h, before, view, lo / 2, (hi + 1) / 2, level + 1)
  {
    var active, wider := Between(lo, hi), Between(lo / 2, (hi + 1) / 2);
    SparseDiffersAbove(h, before, view, active, level);
    forall p | p in Parents(active) ensures p in wider {
    }
  }

  lemma {:induction false} MinimumOf(s: set<nat>) returns (m: nat)
    requires s != {}
    ensures m in s && forall q | q in s :: m <= q
  {
    var x :| x in s;
    var rest := s - {x};
    assert s == rest + {x};
    if rest == {} {
      m := x;
    } else {
      var least := MinimumOf(rest);
      m := if least < x then least else x;
      forall q | q in s ensures m <= q {
        if q != x {
          assert q in rest;
        }
      }
    }
  }

  // --- the whole-batch root, folded in place ----------------------------------------------------

  /** One level: the front half of the used prefix takes the parents of the pairs. */
  method FoldLevel<D>(h: Hasher<D>, leaves: array<D>, len: nat, ghost given: seq<D>, ghost level: nat)
    requires len <= leaves.Length && forall p | 0 <= p < len :: leaves[p] == Node(h, given, level, p)
    modifies leaves
    ensures forall p | 0 <= p < len / 2 :: leaves[p] == Node(h, given, level + 1, p)
  {
    for i := 0 to len / 2
      invariant forall p | 0 <= p < i :: leaves[p] == Node(h, given, level + 1, p)
      invariant forall p | i <= p && 2 * i <= p < len :: leaves[p] == Node(h, given, level, p)
    {
      leaves[i] := h.Swapped(leaves[2 * i], leaves[2 * i + 1], false);
    }
  }

  /**
  `compute_root_native`: fold `2^d` leaves in place, halving the used prefix until one is left.
  */
  method ComputeRootNative<D>(h: Hasher<D>, leaves: array<D>, ghost d: nat) returns (root: D)
    requires leaves.Length == Pow2(d)
    modifies leaves
    ensures root == RootOf(h, old(leaves[..]), d)
    ensures root == HalvesRoot(h, old(leaves[..]), d)
  {
    ghost var given := leaves[..];
    ghost var level := 0;
    var len := leaves.Length;
    while len > 1
      invariant 0 <= level <= d && len == Pow2(d - level)
      invariant forall p | 0 <= p < len :: leaves[p] == Node(h, given, level, p)
      decreases len
    {
      FoldLevel(h, leaves, len, given, level);
      len := len / 2;
      level := level + 1;
    }
    root := leaves[0];
    assert level == d;
    NodeIsHalvesRoot(h, given, d, 0, given);
  }
}
