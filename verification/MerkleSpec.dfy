/**
The reference meaning of a sparse Merkle tree: every node is the plain recursive hash of its
range of the zero-padded leaf sequence. The stateful tree of `MerkleTree.dfy` stores only the
nodes to the left of the first all-empty range; `Layer` is the part it stores.
*/
module MerkleSpec {
  import opened Arith

  /** The `MerkleHash` parameter: the zero digest and the two-to-one hash. */
  datatype Hasher<!D> = Hasher(zero: D, compress: (D, D) -> D) {
    /** `hash_2_to_1_swapped` */
    function Swapped(a: D, b: D, dir: bool): D {
      if dir then compress(b, a) else compress(a, b)
    }
  }

  ghost predicate Injective<D(!new)>(h: Hasher<D>) {
    forall a, b, c, d :: h.compress(a, b) == h.compress(c, d) ==> a == c && b == d
  }

  /** The hash of an empty subtree of height `level`. */
  function Empty<D>(h: Hasher<D>, level: nat): D {
    if level == 0 then h.zero else h.compress(Empty(h, level - 1), Empty(h, level - 1))
  }

  /** The node at position `pos` of the level `level` over the zero-padded leaves. */
  function Node<D>(h: Hasher<D>, leaves: seq<D>, level: nat, pos: nat): D {
    if level == 0 then
      if pos < |leaves| then leaves[pos] else h.zero
    else
      h.compress(Node(h, leaves, level - 1, 2 * pos), Node(h, leaves, level - 1, 2 * pos + 1))
  }

  /** The root of the full tree of the given depth. */
  function RootOf<D>(h: Hasher<D>, leaves: seq<D>, depth: nat): D {
    Node(h, leaves, depth, 0)
  }

  /** How many nodes of a level cover at least one of `n` leaves. */
  function Width(n: nat, level: nat): nat {
    if level == 0 then n else (Width(n, level - 1) + 1) / 2
  }

  function Layer<D>(h: Hasher<D>, leaves: seq<D>, level: nat): seq<D> {
    seq(Width(|leaves|, level), p requires 0 <= p => Node(h, leaves, level, p))
  }

  /** `Width` is the leaf count divided by `2^level`, rounded up. */
  lemma {:induction false} WidthIsCeiling(n: nat, level: nat)
    ensures n <= Width(n, level) * Pow2(level)
    ensures Width(n, level) > 0 ==> (Width(n, level) - 1) * Pow2(level) < n
  {
    if level > 0 {
      WidthIsCeiling(n, level - 1);
      CeilingStep(n, Width(n, level - 1), Pow2(level - 1));
    }
  }

  lemma {:induction false} CeilingStep(n: nat, w: nat, p: nat)
    requires n <= w * p && (w > 0 ==> (w - 1) * p < n)
    ensures n <= ((w + 1) / 2) * (2 * p)
    ensures w > 0 ==> ((w + 1) / 2 - 1) * (2 * p) < n
  {
    var v := (w + 1) / 2;
    MulMono(w, 2 * v, p);
    calc { v * (2 * p); (2 * v) * p; }
    if w > 0 {
      MulMono(2 * v - 2, w - 1, p);
      calc { (v - 1) * (2 * p); (2 * v - 2) * p; }
    }
  }

  lemma {:induction false} WidthFits(n: nat, depth: nat, level: nat)
    requires n <= Pow2(depth) && level <= depth
    ensures Width(n, level) <= Pow2(depth - level)
    ensures n > 0 ==> Width(n, level) > 0
  {
    if level > 0 {
      WidthFits(n, depth, level - 1);
    }
  }

  lemma {:induction false} NoWidthWithoutLeaves(level: nat)
    ensures Width(0, level) == 0
  {
    if level > 0 {
      NoWidthWithoutLeaves(level - 1);
    }
  }

  /** Nodes to the right of the stored ones are empty subtrees. */
  lemma {:induction false} NodeBeyondWidth<D>(h: Hasher<D>, leaves: seq<D>, level: nat, pos: nat)
    requires pos >= Width(|leaves|, level)
    ensures Node(h, leaves, level, pos) == Empty(h, level)
  {
    if level > 0 {
      NodeBeyondWidth(h, leaves, level - 1, 2 * pos);
      NodeBeyondWidth(h, leaves, level - 1, 2 * pos + 1);
    }
  }

  // --- the padded tree, read by halves -------------------------------------------------------

  /** The textbook root of exactly `2^d` leaves: hash of the two half roots. */
  function HalvesRoot<D>(h: Hasher<D>, leaves: seq<D>, d: nat): D
    requires |leaves| == Pow2(d)
  {
    if d == 0 then leaves[0]
    else
      var half := Pow2(d - 1);
      h.compress(HalvesRoot(h, leaves[..half], d - 1), HalvesRoot(h, leaves[half..], d - 1))
  }

  function Padded<D>(h: Hasher<D>, leaves: seq<D>, size: nat): seq<D>
    requires |leaves| <= size
  {
    leaves + seq(size - |leaves|, _ => h.zero)
  }

  /** A node is the textbook root of its own range of the padded leaves. */
  lemma {:induction false} NodeIsHalvesRoot<D>(h: Hasher<D>, leaves: seq<D>, d: nat, pos: nat, range: seq<D>)
    requires |range| == Pow2(d)
    requires forall i | 0 <= i < |range| :: range[i] == Node(h, leaves, 0, pos * Pow2(d) + i)
    ensures Node(h, leaves, d, pos) == HalvesRoot(h, range, d)
  {
    if d == 0 {
      assert range[0] == Node(h, leaves, 0, pos * 1 + 0);
    } else {
      var half := Pow2(d - 1);
      var start, left, right := pos * Pow2(d), range[..half], range[half..];
      assert start == (2 * pos) * half && start + half == (2 * pos + 1) * half;
      assert forall i | 0 <= i < half :: left[i] == Node(h, leaves, 0, start + i);
      assert forall i | 0 <= i < half :: right[i] == range[half + i];
      NodeIsHalvesRoot(h, leaves, d - 1, 2 * pos, left);
      NodeIsHalvesRoot(h, leaves, d - 1, 2 * pos + 1, right);
    }
  }

  /** The sparse root is the textbook root of the zero-padded leaf sequence. */
  lemma {:induction false} RootIsPaddedRoot<D>(h: Hasher<D>, leaves: seq<D>, depth: nat)
    requires |leaves| <= Pow2(depth)
    ensures RootOf(h, leaves, depth) == HalvesRoot(h, Padded(h, leaves, Pow2(depth)), depth)
  {
    NodeIsHalvesRoot(h, leaves, depth, 0, Padded(h, leaves, Pow2(depth)));
  }

  /** The tree of depth 2 over four leaves, and over three and a zero. */
  lemma {:induction false} FourLeaves<D>(h: Hasher<D>, a: D, b: D, c: D, d: D)
    ensures RootOf(h, [a, b, c, d], 2) == h.compress(h.compress(a, b), h.compress(c, d))
    ensures RootOf(h, [a, b, c], 2) == h.compress(h.compress(a, b), h.compress(c, h.zero))
  {
    NodeOfPair(h, [a, b, c, d], 0);
    NodeOfPair(h, [a, b, c, d], 1);
    NodeOfPair(h, [a, b, c], 0);
    NodeOfPair(h, [a, b, c], 1);
  }

  lemma {:induction false} NodeOfPair<D>(h: Hasher<D>, leaves: seq<D>, pos: nat)
    ensures Node(h, leaves, 1, pos) == h.compress(Node(h, leaves, 0, 2 * pos), Node(h, leaves, 0, 2 * pos + 1))
  {
  }

  // --- what one leaf change does ---------------------------------------------------------------

  /**
  At `level`, two leaf sequences give the same nodes except on the path of leaf `index`, and
  the second stores that path node as well.
  */
  ghost predicate OnlyPathDiffers<D(!new)>(h: Hasher<D>, before: seq<D>, after: seq<D>, index: nat, level: nat) {
    && Shr(index, level) <= Width(|before|, level)
    && Width(|after|, level) == Max(Width(|before|, level), Shr(index, level) + 1)
    && forall p: nat | p != Shr(index, level) :: Node(h, before, level, p) == Node(h, after, level, p)
  }

  lemma {:induction false} OnlyPathDiffersAbove<D(!new)>(h: Hasher<D>, before: seq<D>, after: seq<D>, index: nat,
                                                         level: nat)
    requires OnlyPathDiffers(h, before, after, index, level)
    ensures OnlyPathDiffers(h, before, after, index, level + 1)
  {
    var above := level + 1;
    forall p: nat | p != Shr(index, above)
      ensures Node(h, before, above, p) == Node(h, after, above, p)
    {
      assert 2 * p != Shr(index, level) && 2 * p + 1 != Shr(index, level);
    }
  }

  /** Writing or appending the path node turns one stored layer into the other. */
  lemma {:induction false} LayerWrite<D(!new)>(h: Hasher<D>, before: seq<D>, after: seq<D>, index: nat, level: nat)
    requires OnlyPathDiffers(h, before, after, index, level)
    ensures var old_ := Layer(h, before, level);
            var parent := Shr(index, level);
            var node := Node(h, after, level, parent);
            Layer(h, after, level) == if parent < |old_| then old_[parent := node] else old_ + [node]
  {
  }

  // --- authentication paths ---------------------------------------------------------------------

  function SiblingPos(pos: nat): nat {
    if pos % 2 == 1 then pos - 1 else pos + 1
  }

  /** The direction bits of a position, from the leaf upward. */
  function PathBits(index: nat, depth: nat): (r: seq<bool>)
    ensures |r| == depth
    ensures forall j | 0 <= j < depth :: r[j] == (Shr(index, j) % 2 == 1)
    decreases index, depth
  {
    if depth == 0 then [] else PathBits(index, depth - 1) + [Shr(index, depth - 1) % 2 == 1]
  }

  /** The siblings of a position's path, from the leaf upward. */
  function SiblingsOf<D>(h: Hasher<D>, leaves: seq<D>, index: nat, depth: nat): (r: seq<D>)
    ensures |r| == depth
    ensures forall j | 0 <= j < depth :: r[j] == Node(h, leaves, j, SiblingPos(Shr(index, j)))
    decreases |leaves|, depth
  {
    if depth == 0 then []
    else SiblingsOf(h, leaves, index, depth - 1) + [Node(h, leaves, depth - 1, SiblingPos(Shr(index, depth - 1)))]
  }

  /** Hash a leaf upward along siblings and direction bits (zipped: the shorter list ends it). */
  function Fold<D>(h: Hasher<D>, leaf: D, siblings: seq<D>, bits: seq<bool>): D {
    if |siblings| == 0 || |bits| == 0 then leaf
    else Fold(h, h.Swapped(leaf, siblings[0], bits[0]), siblings[1..], bits[1..])
  }

  lemma {:induction false} FoldSnoc<D>(h: Hasher<D>, leaf: D, siblings: seq<D>, bits: seq<bool>, s: D, b: bool)
    requires |siblings| == |bits|
    ensures Fold(h, leaf, siblings + [s], bits + [b]) == h.Swapped(Fold(h, leaf, siblings, bits), s, b)
  {
    if |bits| == 0 {
      assert Fold(h, h.Swapped(leaf, s, b), [], []) == h.Swapped(leaf, s, b);
      assert (siblings + [s])[1..] == [] && (bits + [b])[1..] == [];
    } else {
      FoldSnoc(h, h.Swapped(leaf, siblings[0], bits[0]), siblings[1..], bits[1..], s, b);
      assert (siblings + [s])[1..] == siblings[1..] + [s];
      assert (bits + [b])[1..] == bits[1..] + [b];
    }
  }

  lemma {:induction false} FoldAppend<D>(h: Hasher<D>, leaf: D, s1: seq<D>, b1: seq<bool>, s2: seq<D>, b2: seq<bool>)
    requires |s1| == |b1|
    ensures Fold(h, leaf, s1 + s2, b1 + b2) == Fold(h, Fold(h, leaf, s1, b1), s2, b2)
  {
    if |s1| == 0 {
      assert s1 + s2 == s2 && b1 + b2 == b2;
    } else {
      FoldAppend(h, h.Swapped(leaf, s1[0], b1[0]), s1[1..], b1[1..], s2, b2);
      assert (s1 + s2)[1..] == s1[1..] + s2 && (b1 + b2)[1..] == b1[1..] + b2;
    }
  }

  /** A node and its sibling hash to their parent, in the order the direction bit says. */
  lemma {:induction false} NodeAbove<D>(h: Hasher<D>, leaves: seq<D>, level: nat, pos: nat, sibling: D)
    requires sibling == Node(h, leaves, level, SiblingPos(pos))
    ensures h.Swapped(Node(h, leaves, level, pos), sibling, pos % 2 == 1) == Node(h, leaves, level + 1, pos / 2)
  {
    var q := pos / 2;
    assert pos == 2 * q || pos == 2 * q + 1;
  }

  /** Folding one level further along a path. */
  lemma {:induction false} FoldStep<D>(h: Hasher<D>, leaf: D, siblings: seq<D>, index: nat, sibling: D)
    ensures Fold(h, leaf, siblings + [sibling], PathBits(index, |siblings| + 1))
         == h.Swapped(Fold(h, leaf, siblings, PathBits(index, |siblings|)), sibling, Shr(index, |siblings|) % 2 == 1)
  {
    assert PathBits(index, |siblings| + 1) == PathBits(index, |siblings|) + [Shr(index, |siblings|) % 2 == 1];
    FoldSnoc(h, leaf, siblings, PathBits(index, |siblings|), sibling, Shr(index, |siblings|) % 2 == 1);
  }

  /** A tree's own path folds its own leaf to every node above it. */
  lemma {:induction false} PathFolds<D>(h: Hasher<D>, leaves: seq<D>, index: nat, k: nat)
    ensures Fold(h, Node(h, leaves, 0, index), SiblingsOf(h, leaves, index, k), PathBits(index, k))
         == Node(h, leaves, k, Shr(index, k))
  {
    if k > 0 {
      PathFolds(h, leaves, index, k - 1);
      var s := Node(h, leaves, k - 1, SiblingPos(Shr(index, k - 1)));
      assert SiblingsOf(h, leaves, index, k) ==
          SiblingsOf(h, leaves, index, k - 1) + [Node(h, leaves, k - 1, SiblingPos(Shr(index, k - 1)))];
      FoldStep(h, Node(h, leaves, 0, index), SiblingsOf(h, leaves, index, k - 1), index, s);
      NodeAbove(h, leaves, k - 1, Shr(index, k - 1), s);
    }
  }

  lemma {:induction false} PathReachesRoot<D>(h: Hasher<D>, leaves: seq<D>, index: nat, depth: nat)
    requires index < Pow2(depth)
    ensures Fold(h, Node(h, leaves, 0, index), SiblingsOf(h, leaves, index, depth), PathBits(index, depth))
         == RootOf(h, leaves, depth)
  {
    PathFolds(h, leaves, index, depth);
    ShrBelow(index, depth, depth);
  }

  lemma {:induction false} NodesAgreeOffPath<D(!new)>(h: Hasher<D>, before: seq<D>, after: seq<D>, index: nat, k: nat,
                                                      p: nat)
    requires forall q: nat | q != index :: Node(h, before, 0, q) == Node(h, after, 0, q)
    requires p != Shr(index, k)
    ensures Node(h, before, k, p) == Node(h, after, k, p)
  {
    if k > 0 {
      NodesAgreeOffPath(h, before, after, index, k - 1, 2 * p);
      NodesAgreeOffPath(h, before, after, index, k - 1, 2 * p + 1);
    }
  }

  /**
  When only leaf `index` changed, the siblings of the old tree fold the new leaf to the new root:
  what an update circuit checks with one path for both roots.
  */
  lemma {:induction false} PathFoldsAfterChange<D(!new)>(h: Hasher<D>, before: seq<D>, after: seq<D>, index: nat,
                                                         k: nat)
    requires forall q: nat | q != index :: Node(h, before, 0, q) == Node(h, after, 0, q)
    ensures Fold(h, Node(h, after, 0, index), SiblingsOf(h, before, index, k), PathBits(index, k))
         == Node(h, after, k, Shr(index, k))
  {
    forall j: nat | j < k
      ensures Node(h, before, j, SiblingPos(Shr(index, j))) == Node(h, after, j, SiblingPos(Shr(index, j)))
    {
      NodesAgreeOffPath(h, before, after, index, j, SiblingPos(Shr(index, j)));
    }
    assert SiblingsOf(h, before, index, k) == SiblingsOf(h, after, index, k);
    PathFolds(h, after, index, k);
  }

  // --- binding --------------------------------------------------------------------------------------

  /** Two different inputs with the same hash. */
  ghost predicate Collides<D>(h: Hasher<D>, x: (D, D), y: (D, D)) {
    x != y && h.compress(x.0, x.1) == h.compress(y.0, y.1)
  }

  /** What a verifier hashes at level `k` of a path. */
  function PathPair<D>(h: Hasher<D>, leaf: D, siblings: seq<D>, index: nat, k: nat): (D, D)
    requires k < |siblings|
  {
    var current := Fold(h, leaf, siblings[..k], PathBits(index, k));
    if Shr(index, k) % 2 == 1 then (siblings[k], current) else (current, siblings[k])
  }

  /** What the tree hashes at level `k` of the same path. */
  function TreePair<D>(h: Hasher<D>, leaves: seq<D>, index: nat, k: nat): (D, D) {
    (Node(h, leaves, k, 2 * Shr(index, k + 1)), Node(h, leaves, k, 2 * Shr(index, k + 1) + 1))
  }

  ghost predicate PathCollides<D>(h: Hasher<D>, leaves: seq<D>, index: nat, leaf: D, siblings: seq<D>) {
    exists k: nat | k < |siblings| :: Collides(h, PathPair(h, leaf, siblings, index, k), TreePair(h, leaves, index, k))
  }

  /**
  A path that reaches a node of the tree carries the tree's own leaf and siblings, or at some level
  it hashes a pair that collides with the tree's. Nothing is assumed about the hash.
  */
  lemma {:induction false} FoldBindsOrCollides<D(!new)>(h: Hasher<D>, leaves: seq<D>, index: nat, leaf: D,
                                                        siblings: seq<D>)
    requires Fold(h, leaf, siblings, PathBits(index, |siblings|)) == Node(h, leaves, |siblings|, Shr(index, |siblings|))
    ensures || (leaf == Node(h, leaves, 0, index) && siblings == SiblingsOf(h, leaves, index, |siblings|))
            || PathCollides(h, leaves, index, leaf, siblings)
  {
    if |siblings| > 0 {
      var k := |siblings| - 1;
      var rest, s := siblings[..k], siblings[k];
      assert siblings == rest + [s];
      TopPairs(h, leaves, index, leaf, rest, s);
      if PathPair(h, leaf, siblings, index, k) == TreePair(h, leaves, index, k) {
        FoldBindsOrCollides(h, leaves, index, leaf, rest);
        if PathCollides(h, leaves, index, leaf, rest) {
          LongerPathCollides(h, leaves, index, leaf, rest, s);
        }
      }
    }
  }

  /** The pairs hashed at the top have the same hash; when they are equal, so is everything just below. */
  lemma {:induction false} TopPairs<D(!new)>(h: Hasher<D>, leaves: seq<D>, index: nat, leaf: D, rest: seq<D>, s: D)
    requires Fold(h, leaf, rest + [s], PathBits(index, |rest| + 1)) ==
        Node(h, leaves, |rest| + 1, Shr(index, |rest| + 1))
    ensures var k := |rest|;
            var mine, tree := PathPair(h, leaf, rest + [s], index, k), TreePair(h, leaves, index, k);
            && h.compress(mine.0, mine.1) == h.compress(tree.0, tree.1)
            && (mine == tree ==>
                  && s == Node(h, leaves, k, SiblingPos(Shr(index, k)))
                  && Fold(h, leaf, rest, PathBits(index, k)) == Node(h, leaves, k, Shr(index, k)))
  {
    assert (rest + [s])[..|rest|] == rest;
    FoldStep(h, leaf, rest, index, s);
  }

  lemma {:induction false} LongerPathCollides<D>(h: Hasher<D>, leaves: seq<D>, index: nat, leaf: D, rest: seq<D>, s: D)
    requires PathCollides(h, leaves, index, leaf, rest)
    ensures PathCollides(h, leaves, index, leaf, rest + [s])
  {
    var j: nat :| j < |rest| && Collides(h, PathPair(h, leaf, rest, index, j), TreePair(h, leaves, index, j));
    assert (rest + [s])[..j] == rest[..j];
    assert PathPair(h, leaf, rest + [s], index, j) == PathPair(h, leaf, rest, index, j);
  }

  /** With an injective hash, the siblings and leaf that reach a node are the tree's own. */
  lemma {:induction false} FoldBinds<D(!new)>(h: Hasher<D>, leaves: seq<D>, index: nat, leaf: D, siblings: seq<D>)
    requires Injective(h)
    requires Fold(h, leaf, siblings, PathBits(index, |siblings|)) == Node(h, leaves, |siblings|, Shr(index, |siblings|))
    ensures leaf == Node(h, leaves, 0, index)
    ensures siblings == SiblingsOf(h, leaves, index, |siblings|)
  {
    FoldBindsOrCollides(h, leaves, index, leaf, siblings);
  }

  /** Two trees with the same node agree on every leaf below it, or collide on the way to it. */
  lemma {:induction false} RootBindsOrCollides<D(!new)>(h: Hasher<D>, a: seq<D>, b: seq<D>, level: nat, i: nat)
    requires Node(h, a, level, Shr(i, level)) == Node(h, b, level, Shr(i, level))
    ensures || Node(h, a, 0, i) == Node(h, b, 0, i)
            || exists k: nat | k < level :: Collides(h, TreePair(h, a, i, k), TreePair(h, b, i, k))
  {
    if level > 0 {
      var k := level - 1;
      if TreePair(h, a, i, k) == TreePair(h, b, i, k) {
        RootBindsOrCollides(h, a, b, k, i);
      } else {
        assert Collides(h, TreePair(h, a, i, k), TreePair(h, b, i, k));
      }
    }
  }

  /** With an injective hash, equal roots mean equal padded leaves. */
  lemma {:induction false} RootBindsLeaves<D(!new)>(h: Hasher<D>, a: seq<D>, b: seq<D>, level: nat, pos: nat, i: nat)
    requires Injective(h)
    requires Node(h, a, level, pos) == Node(h, b, level, pos)
    requires Shr(i, level) == pos
    ensures Node(h, a, 0, i) == Node(h, b, 0, i)
  {
    RootBindsOrCollides(h, a, b, level, i);
  }

  // --- positions outside the tree -----------------------------------------------------------------

  lemma {:induction false} OutsidePosition(index: nat, depth: nat, k: nat)
    requires index >= Pow2(depth) && k <= depth
    ensures Shr(index, k) >= Pow2(depth - k)
  {
    if k > 0 {
      OutsidePosition(index, depth, k - 1);
    }
  }

  /** A path asked for outside the tree folds the zero leaf to the empty tree's root. */
  lemma {:induction false} OutsidePathFolds<D>(h: Hasher<D>, leaves: seq<D>, index: nat, depth: nat)
    requires |leaves| <= Pow2(depth) <= index
    ensures Node(h, leaves, 0, index) == h.zero
    ensures Fold(h, h.zero, SiblingsOf(h, leaves, index, depth), PathBits(index, depth)) == Empty(h, depth)
  {
    PathFolds(h, leaves, index, depth);
    OutsidePosition(index, depth, depth);
    WidthFits(|leaves|, depth, depth);
    NodeBeyondWidth(h, leaves, depth, Shr(index, depth));
  }

  /**
  The proof `merkle_proof(index)` verifies exactly when the index is inside the tree, or the tree
  has the root of the empty tree.
  */
  lemma {:induction false} ProofVerifiesExactly<D>(h: Hasher<D>, leaves: seq<D>, index: nat, depth: nat)
    requires |leaves| <= Pow2(depth)
    ensures Fold(h, Node(h, leaves, 0, index), SiblingsOf(h, leaves, index, depth), PathBits(index, depth))
              == RootOf(h, leaves, depth)
       <==> index < Pow2(depth) || RootOf(h, leaves, depth) == Empty(h, depth)
  {
    if index < Pow2(depth) {
      PathReachesRoot(h, leaves, index, depth);
    } else {
      OutsidePathFolds(h, leaves, index, depth);
    }
  }

  /** All-zero leaves, however many, have the root of the empty tree. */
  lemma {:induction false} ZeroLeavesHaveEmptyRoot<D(!new)>(h: Hasher<D>, leaves: seq<D>, depth: nat)
    requires forall i | 0 <= i < |leaves| :: leaves[i] == h.zero
    ensures RootOf(h, leaves, depth) == Empty(h, depth)
  {
    NoWidthWithoutLeaves(depth);
    NodeBeyondWidth(h, [], depth, 0);
    SameLeavesSameNode(h, leaves, [], depth, 0);
  }

  /** With an injective hash only all-zero leaves have the empty root. */
  lemma {:induction false} EmptyRootMeansZeroLeaves<D(!new)>(h: Hasher<D>, leaves: seq<D>, depth: nat)
    requires Injective(h) && |leaves| <= Pow2(depth)
    ensures RootOf(h, leaves, depth) == Empty(h, depth) <==> forall i | 0 <= i < |leaves| :: leaves[i] == h.zero
  {
    NoWidthWithoutLeaves(depth);
    NodeBeyondWidth(h, [], depth, 0);
    if RootOf(h, leaves, depth) == Empty(h, depth) {
      forall i | 0 <= i < |leaves| ensures leaves[i] == h.zero {
        ShrBelow(i, depth, depth);
        RootBindsLeaves(h, leaves, [], depth, 0, i);
      }
    } else if forall i | 0 <= i < |leaves| :: leaves[i] == h.zero {
      ZeroLeavesHaveEmptyRoot(h, leaves, depth);
    }
  }

  /** Without the assumption: a nonzero leaf under the empty root comes with a collision on its path. */
  lemma {:induction false} EmptyRootOrCollides<D(!new)>(h: Hasher<D>, leaves: seq<D>, depth: nat, i: nat)
    requires i < |leaves| <= Pow2(depth) && RootOf(h, leaves, depth) == Empty(h, depth) && leaves[i] != h.zero
    ensures exists k: nat | k < depth :: Collides(h, TreePair(h, leaves, i, k), TreePair(h, [], i, k))
  {
    NoWidthWithoutLeaves(depth);
    NodeBeyondWidth(h, [], depth, 0);
    ShrBelow(i, depth, depth);
    RootBindsOrCollides(h, leaves, [], depth, i);
  }

  // --- a proof for a position outside that does not verify ----------------------------------------------

  /** With an injective hash the proof for an outside position fails for every tree with a nonzero leaf. */
  lemma {:induction false} OutsideProofFails<D(!new)>(h: Hasher<D>, leaves: seq<D>, index: nat, depth: nat, i: nat)
    requires Injective(h) && i < |leaves| <= Pow2(depth) <= index && leaves[i] != h.zero
    ensures Fold(h, h.zero, SiblingsOf(h, leaves, index, depth), PathBits(index, depth)) != RootOf(h, leaves, depth)
  {
    OutsidePathFolds(h, leaves, index, depth);
    EmptyRootMeansZeroLeaves(h, leaves, depth);
  }

  /** Hashing that only records what was hashed. */
  datatype Term = Atom(id: nat) | Pair(left: Term, right: Term)

  function TermHasher(): Hasher<Term> {
    Hasher(Atom(0), (a, b) => Pair(a, b))
  }

  /** A tree of depth 1 with one leaf: the proof for position 2 does not verify. */
  lemma {:induction false} OutsideProofExample()
    ensures var h, leaves := TermHasher(), [Atom(1)];
            Fold(h, h.zero, SiblingsOf(h, leaves, 2, 1), PathBits(2, 1)) != RootOf(h, leaves, 1)
  {
    assert Pow2(1) == 2;
    OutsideProofFails(TermHasher(), [Atom(1)], 2, 1, 0);
  }

  lemma {:induction false} SameLeavesSameNode<D(!new)>(h: Hasher<D>, a: seq<D>, b: seq<D>, level: nat, pos: nat)
    requires forall i: nat :: Node(h, a, 0, i) == Node(h, b, 0, i)
    ensures Node(h, a, level, pos) == Node(h, b, level, pos)
  {
    if level > 0 {
      SameLeavesSameNode(h, a, b, level - 1, 2 * pos);
      SameLeavesSameNode(h, a, b, level - 1, 2 * pos + 1);
    }
  }
}
