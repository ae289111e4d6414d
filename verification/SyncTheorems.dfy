/**
What clients of the sync service rely on, for every run: a confirmed commitment has both Merkle
paths, printed batches rebuild the printed root, and no nullifier is ever lost.
*/
module SyncTheorems {
  import opened Arith
  import opened MachineWords
  import opened Encoding
  import opened MerkleSpec
  import opened BatchPrinter
  import opened BatchParser
  import opened SyncSpec

  // --- two-layer paths ---------------------------------------------------------------------------------

  lemma {:induction false} HalveAbove(b: nat, p: nat, x: nat)
    ensures (b * (2 * p) + x) / 2 == b * p + x / 2
    ensures (b * (2 * p) + x) % 2 == x % 2
  {
    var m := b * p;
    assert b * (2 * p) == 2 * m;
  }

  lemma {:induction false} ShrBelowTop(b: nat, i: nat, k: nat, j: nat)
    requires j <= k
    ensures Shr(b * Pow2(k) + i, j) == b * Pow2(k - j) + Shr(i, j)
  {
    if j > 0 {
      ShrBelowTop(b, i, k, j - 1);
      HalveAbove(b, Pow2(k - j), Shr(i, j - 1));
    }
  }

  /** The bits of `b * 2^k + i` are those of `i`, then those of `b`. */
  lemma {:induction false} PathBitsJoin(b: nat, i: nat, k: nat, d: nat)
    requires i < Pow2(k)
    ensures PathBits(b * Pow2(k) + i, k + d) == PathBits(i, k) + PathBits(b, d)
  {
    var n := b * Pow2(k) + i;
    forall j | 0 <= j < k + d ensures PathBits(n, k + d)[j] == (PathBits(i, k) + PathBits(b, d))[j] {
      if j < k {
        ShrBelowTop(b, i, k, j);
        HalveAbove(b, Pow2(k - j - 1), Shr(i, j));
      } else {
        ShrBelowTop(b, i, k, k);
        ShrBelow(i, k, k);
        ShrAdds(n, k, j - k);
        assert Shr(n, j) == Shr(b, j - k);
      }
    }
  }

  /** A path in a subtree followed by the path of the subtree's root is one path of the joint tree. */
  lemma {:induction false} PathsConcatenate(h: Hasher<HashOutput>, sub: seq<HashOutput>, k: nat,
                                            state: seq<HashOutput>, d: nat, i: nat, b: nat)
    requires i < Pow2(k) && b < Pow2(d)
    requires Node(h, state, 0, b) == RootOf(h, sub, k)
    ensures Fold(h, Node(h, sub, 0, i), SiblingsOf(h, sub, i, k) + SiblingsOf(h, state, b, d),
                 PathBits(b * Pow2(k) + i, k + d))
         == RootOf(h, state, d)
  {
    PathBitsJoin(b, i, k, d);
    FoldAppend(h, Node(h, sub, 0, i), SiblingsOf(h, sub, i, k), PathBits(i, k),
               SiblingsOf(h, state, b, d), PathBits(b, d));
    PathReachesRoot(h, sub, i, k);
    PathReachesRoot(h, state, b, d);
  }

  // --- confirmed commitments ------------------------------------------------------------------------------

  /** What `get_commitment_status` must find for a confirmed commitment. */
  ghost predicate HasProofs(h: Hasher<HashOutput>, st: Sync, c: HashOutput)
    requires c in st.located
  {
    var l := st.located[c];
    && l.pi in st.batchRoots && l.pi in st.subtrees && HashBytes(st.batchRoots[l.pi]) in st.rootIndex
    && var sub, b := st.subtrees[l.pi], st.rootIndex[HashBytes(st.batchRoots[l.pi])];
       && l.leafIndex < |sub| == 512 && sub[l.leafIndex] == c
       && b < |st.stateLeaves| && st.stateLeaves[b] == st.batchRoots[l.pi]
       && Fold(h, c, SiblingsOf(h, sub, l.leafIndex, 9), PathBits(l.leafIndex, 9)) == RootOf(h, sub, 9)
       && Fold(h, st.batchRoots[l.pi], SiblingsOf(h, st.stateLeaves, b, st.depth), PathBits(b, st.depth))
            == RootOf(h, st.stateLeaves, st.depth)
  }

  /** In every state a run can reach, a commitment marked confirmed has both proofs. */
  lemma {:induction false} ConfirmedHasProofs(h: Hasher<HashOutput>, st: Sync, content: Pi -> seq<HashOutput>,
                                              rootOf: Pi -> HashOutput, c: HashOutput)
    requires Inv(st, content, rootOf) && c in st.located && st.located[c].confirmed
    ensures HasProofs(h, st, c)
  {
    var l := st.located[c];
    assert LocationOk(st, content, c, l);
    var sub, b := st.subtrees[l.pi], st.rootIndex[HashBytes(st.batchRoots[l.pi])];
    HashBytesInjective(st.stateLeaves[b], st.batchRoots[l.pi]);
    Pow2Of9();
    PathReachesRoot(h, sub, l.leafIndex, 9);
    PathReachesRoot(h, st.stateLeaves, b, st.depth);
  }

  /**
  When the header root is the root of the batch's leaves, as in every printed batch, the two paths
  join into one that proves the commitment at position `batch * 512 + leaf` under the state root.
  */
  lemma {:induction false} ConfirmedPathsJoin(h: Hasher<HashOutput>, st: Sync, content: Pi -> seq<HashOutput>,
                                              rootOf: Pi -> HashOutput, c: HashOutput)
    requires Inv(st, content, rootOf) && c in st.located && st.located[c].confirmed
    requires rootOf(st.located[c].pi) == RootOf(h, content(st.located[c].pi), 9)
    ensures HasProofs(h, st, c)
    ensures var l := st.located[c];
            var sub, b := st.subtrees[l.pi], st.rootIndex[HashBytes(st.batchRoots[l.pi])];
            RootOf(h, sub, 9) == st.stateLeaves[b] && JoinedPath(h, sub, st.stateLeaves, st.depth, l.leafIndex, b, c)
  {
    ConfirmedHasProofs(h, st, content, rootOf, c);
    var l := st.located[c];
    var sub, b := st.subtrees[l.pi], st.rootIndex[HashBytes(st.batchRoots[l.pi])];
    assert sub == content(l.pi);
    BatchPathJoins(h, sub, st.stateLeaves, st.depth, l.leafIndex, b, c);
  }

  /** The subtree's path, then the state tree's, proves `c` at position `512 * b + i`. */
  ghost predicate JoinedPath(h: Hasher<HashOutput>, sub: seq<HashOutput>, state: seq<HashOutput>, d: nat, i: nat,
                             b: nat, c: HashOutput) {
    Fold(h, c, SiblingsOf(h, sub, i, 9) + SiblingsOf(h, state, b, d), PathBits(b * 512 + i, 9 + d))
    == RootOf(h, state, d)
  }

  lemma {:induction false} BatchPathJoins(h: Hasher<HashOutput>, sub: seq<HashOutput>, state: seq<HashOutput>, d: nat,
                                          i: nat, b: nat, c: HashOutput)
    requires i < |sub| == 512 && sub[i] == c && b < |state| <= Pow2(d) && state[b] == RootOf(h, sub, 9)
    ensures JoinedPath(h, sub, state, d, i, b, c)
  {
    Pow2Of9();
    SizedPathsJoin(h, sub, 9, 512, state, d, i, b);
  }

  lemma {:induction false} SizedPathsJoin(h: Hasher<HashOutput>, sub: seq<HashOutput>, k: nat, size: nat,
                                          state: seq<HashOutput>, d: nat, i: nat, b: nat)
    requires size == Pow2(k) && i < |sub| == size && b < |state| <= Pow2(d) && state[b] == RootOf(h, sub, k)
    ensures Fold(h, sub[i], SiblingsOf(h, sub, i, k) + SiblingsOf(h, state, b, d), PathBits(b * size + i, k + d)) ==
        RootOf(h, state, d)
  {
    PathsConcatenate(h, sub, k, state, d, i, b);
  }

  // --- printed batches ---------------------------------------------------------------------------------------

  ghost predicate PrintedBatch(kind: BatchKind, proofs: seq<Proof>) {
    match kind
    case Transaction => PrivateBatch(proofs)
    case BridgeTx => BridgeBatch(proofs)
  }

  /**
  The event of a printed batch: the parser can read it, finds the printed leaves, nullifiers and
  root, and the subtree rebuilt from what it finds has the root printed in the header.
  */
  lemma {:induction false} PrintedEventParses(h: Hasher<HashOutput>, e: Event, proofs: seq<Proof>)
    requires PrintedBatch(e.kind, proofs)
    requires e.pre == PrintFields(Fields(RootOf(h, Leaves(proofs), 9), proofs))
    ensures EventReadable(e)
    ensures EventLeaves(e) == Leaves(proofs)
    ensures EventNullifiers(e) == AllNullifiers(proofs, |proofs|)
    ensures HeaderRoot(e.pre) == RootOf(h, EventLeaves(e), 9)
  {
    var root := RootOf(h, Leaves(proofs), 9);
    match e.kind {
      case Transaction =>
        PrintedTxReadable(root, proofs);
        ParsedTxLeaves(root, proofs);
        ParsedTxNullifiers(root, proofs, 64);
      case BridgeTx =>
        PrintedBridgeReadable(root, proofs);
        ParsedBridgeLeaves(root, proofs);
        ParsedBridgeNullifiers(root, proofs, 512);
    }
  }

  // --- nullifiers ------------------------------------------------------------------------------------------------

  ghost function AllKnown(st: Sync): set<HashOutput> {
    st.spent + st.pendingNull.Keys
  }

  lemma {:induction false} AppliedAddsNullifiers(st: Sync, kind: BatchKind, pi: Pi, pre: seq<byte>,
                                                 leaves: seq<HashOutput>, ns: seq<HashOutput>)
    requires |leaves| == 512
    ensures var st' := Applied(st, kind, pi, pre, leaves, ns);
            && st'.spent == st.spent
            && AllKnown(st') == AllKnown(st) + (set n | n in ns)
            && forall n | n in ns :: n in st'.pendingNull && st'.pendingNull[n] == pi
  {
    MarkEffect(st.pendingNull, pi, ns);
  }

  /** Confirming a batch moves its nullifiers from pending to spent and loses none. */
  lemma {:induction false} ConfirmMovesNullifiers(st: Sync, pi: Pi, root: HashOutput, newRoot: HashOutput)
    ensures var st' := Confirm(st, pi, root, newRoot);
            && AllKnown(st') == AllKnown(st) && st.spent <= st'.spent
            && (forall n | n in st.pendingNull && st.pendingNull[n] == pi :: n in st'.spent)
            && (forall n | n in st'.pendingNull :: st'.pendingNull[n] != pi)
  {
    ConfirmNullifiers(st, pi, root, newRoot);
    PendingSplits(st.pendingNull, pi);
  }

  lemma {:induction false} ConfirmNullifiers(st: Sync, pi: Pi, root: HashOutput, newRoot: HashOutput)
    ensures var st' := Confirm(st, pi, root, newRoot);
            && st'.pendingNull == OthersPending(st.pendingNull, pi)
            && st'.spent == st.spent + PendingFor(st.pendingNull, pi)
  {
  }

  lemma {:induction false} PendingSplits(pendingNull: map<HashOutput, Pi>, pi: Pi)
    ensures pendingNull.Keys == OthersPending(pendingNull, pi).Keys + PendingFor(pendingNull, pi)
  {
    forall n | n in pendingNull ensures n in OthersPending(pendingNull, pi).Keys + PendingFor(pendingNull, pi) {
      if pendingNull[n] != pi {
        assert n in OthersPending(pendingNull, pi);
      }
    }
  }

  lemma {:induction false} ConfirmKnownLosesNone(st: Sync, kind: BatchKind, pi: Pi, newRoot: HashOutput)
    ensures var st' := ConfirmKnown(st, kind, pi, newRoot); AllKnown(st') == AllKnown(st) && st.spent <= st'.spent
  {
    if pi in PendingOf(st, kind) {
      ConfirmMovesNullifiers(st, pi, HeaderRoot(PendingOf(st, kind)[pi]), newRoot);
    }
  }

  /** What an event adds to the known nullifiers: its own when it is applied, nothing otherwise. */
  ghost function Adds(st: Sync, e: Event): set<HashOutput>
    requires EventReadable(e)
  {
    if StepApplies(st, e) then set n | n in EventNullifiers(e) else {}
  }

  lemma {:induction false} PreparedAdds(st: Sync, e: Event)
    requires EventReadable(e)
    ensures Prepared(st, e).spent == st.spent && AllKnown(Prepared(st, e)) == AllKnown(st) + Adds(st, e)
  {
    AppliedAddsNullifiers(st, e.kind, e.pi, e.pre, EventLeaves(e), EventNullifiers(e));
  }

  /** An event never loses a nullifier, and adds exactly its own. */
  lemma {:induction false} StepLosesNoNullifier(st: Sync, e: Event)
    requires EventReadable(e)
    ensures st.spent <= Step(st, e).spent && AllKnown(Step(st, e)) == AllKnown(st) + Adds(st, e)
  {
    PreparedAdds(st, e);
    if e.Proven? {
      ConfirmKnownLosesNone(Prepared(st, e), e.kind, e.pi, e.newRoot);
    }
  }

  /** Over every run, the known nullifiers are exactly the ones its applied events brought. */
  ghost function Brought(st: Sync, es: seq<Event>): set<HashOutput>
    requires AllReadable(es)
  {
    if |es| == 0 then {}
    else
      var n := |es| - 1;
      Brought(st, es[..n]) + Adds(Run(st, es[..n]), es[n])
  }

  lemma {:induction false} UnionTwice<T>(a: set<T>, b: set<T>, c: set<T>, x: set<T>, y: set<T>, z: set<T>)
    requires b == a + x && c == b + y && z == x + y
    ensures c == a + z
  {
  }

  lemma {:induction false} RunConservesNullifiers(st: Sync, es: seq<Event>)
    requires AllReadable(es)
    ensures AllKnown(Run(st, es)) == AllKnown(st) + Brought(st, es)
    ensures st.spent <= Run(st, es).spent
  {
    if |es| > 0 {
      var n := |es| - 1;
      var mid, brought, added := Run(st, es[..n]), Brought(st, es[..n]), Adds(Run(st, es[..n]), es[n]);
      RunConservesNullifiers(st, es[..n]);
      StepLosesNoNullifier(mid, es[n]);
      UnionTwice(AllKnown(st), AllKnown(mid), AllKnown(Run(st, es)), brought, added, Brought(st, es));
    } else {
      assert Brought(st, es) == {};
    }
  }

  // --- which nullifiers a confirmation spends -----------------------------------------------------------------

  /** Confirming a batch spends exactly the nullifiers that are pending under it. */
  lemma {:induction false} ConfirmSpendsExactly(st: Sync, pi: Pi, root: HashOutput, newRoot: HashOutput, n: HashOutput)
    ensures n in Confirm(st, pi, root, newRoot).spent <==>
        n in st.spent || (n in st.pendingNull && st.pendingNull[n] == pi)
  {
    ConfirmNullifiers(st, pi, root, newRoot);
  }

  /** The batch of the last applied event that brought a nullifier. */
  ghost function LastMarker(st: Sync, es: seq<Event>, n: HashOutput): Option<Pi>
    requires AllReadable(es)
  {
    if |es| == 0 then if n in st.pendingNull then Some(st.pendingNull[n]) else None
    else
      var k := |es| - 1;
      if n in Adds(Run(st, es[..k]), es[k]) then Some(es[k].pi) else LastMarker(st, es[..k], n)
  }

  /** A nullifier is pending under the batch that brings it; otherwise nothing changed for it. */
  ghost predicate Remarked(was: map<HashOutput, Pi>, now: map<HashOutput, Pi>, pi: Pi, brings: bool, n: HashOutput) {
    if brings then n in now && now[n] == pi
    else (n in now <==> n in was) && (n in was ==> now[n] == was[n])
  }

  lemma {:induction false} PreparedMarks(st: Sync, e: Event, n: HashOutput)
    requires EventReadable(e)
    ensures Remarked(st.pendingNull, Prepared(st, e).pendingNull, e.pi, n in Adds(st, e), n)
  {
    if StepApplies(st, e) {
      AppliedMarks(st, e.kind, e.pi, e.pre, EventLeaves(e), EventNullifiers(e), n);
    }
  }

  lemma {:induction false} AppliedMarks(st: Sync, kind: BatchKind, pi: Pi, pre: seq<byte>, leaves: seq<HashOutput>,
                                        ns: seq<HashOutput>,
                                        n: HashOutput)
    requires |leaves| == 512
    ensures Remarked(st.pendingNull, Applied(st, kind, pi, pre, leaves, ns).pendingNull, pi, n in ns, n)
  {
    MarkEffect(st.pendingNull, pi, ns);
  }

  lemma {:induction false} ConfirmKnownUnmarks(st: Sync, kind: BatchKind, pi: Pi, newRoot: HashOutput, n: HashOutput)
    ensures var st' := ConfirmKnown(st, kind, pi, newRoot);
            n in st'.pendingNull ==> n in st.pendingNull && st'.pendingNull[n] == st.pendingNull[n]
  {
    if pi in PendingOf(st, kind) {
      ConfirmNullifiers(st, pi, HeaderRoot(PendingOf(st, kind)[pi]), newRoot);
    }
  }

  /** A pending nullifier is always pending under the batch that brought it last. */
  lemma {:induction false} PendingUnderLastMarker(st: Sync, es: seq<Event>, n: HashOutput)
    requires AllReadable(es)
    ensures n in Run(st, es).pendingNull ==> LastMarker(st, es, n) == Some(Run(st, es).pendingNull[n])
  {
    if |es| > 0 {
      var k := |es| - 1;
      var mid, e := Run(st, es[..k]), es[k];
      PendingUnderLastMarker(st, es[..k], n);
      PreparedMarks(mid, e, n);
      if e.Proven? {
        ConfirmKnownUnmarks(Prepared(mid, e), e.kind, e.pi, e.newRoot, n);
      }
    }
  }

  /** The event confirms its batch. */
  ghost predicate Confirms(st: Sync, e: Event)
    requires EventReadable(e)
  {
    e.Proven? && e.pi in PendingOf(Prepared(st, e), e.kind) && |st.stateLeaves| < Pow2(st.depth)
  }

  lemma {:induction false} ConfirmingStepSpends(st: Sync, e: Event, n: HashOutput)
    requires EventReadable(e) && Confirms(st, e)
    ensures var before := Prepared(st, e);
            n in Step(st, e).spent <==> n in st.spent || (n in before.pendingNull && before.pendingNull[n] == e.pi)
  {
    var before := Prepared(st, e);
    PreparedAdds(st, e);
    PreparedKeepsRoom(st, e);
    ConfirmSpendsExactly(before, e.pi, HeaderRoot(PendingOf(before, e.kind)[e.pi]), e.newRoot, n);
  }

  lemma {:induction false} PreparedKeepsRoom(st: Sync, e: Event)
    requires EventReadable(e)
    ensures Prepared(st, e).stateLeaves == st.stateLeaves && Prepared(st, e).depth == st.depth
  {
  }

  /** The batch that brought a nullifier last, when `e` follows the events `es`. */
  ghost function MarkerWith(st: Sync, es: seq<Event>, e: Event, n: HashOutput): Option<Pi>
    requires AllReadable(es) && EventReadable(e)
  {
    if n in Adds(Run(st, es), e) then Some(e.pi) else LastMarker(st, es, n)
  }

  /** After a confirmation a known nullifier is spent exactly when it was before or the batch brought it last. */
  lemma {:induction false} ConfirmationSpendsExactly(st: Sync, es: seq<Event>, e: Event, n: HashOutput)
    requires AllReadable(es) && EventReadable(e) && Confirms(Run(st, es), e)
    requires n in AllKnown(Run(st, es)) + Adds(Run(st, es), e)
    ensures n in Step(Run(st, es), e).spent <==> n in Run(st, es).spent || MarkerWith(st, es, e, n) == Some(e.pi)
  {
    var mid := Run(st, es);
    ConfirmingStepSpends(mid, e, n);
    PreparedMarks(mid, e, n);
    PendingUnderLastMarker(st, es, n);
  }

  /**
  All nullifiers of a confirmed batch are spent if and only if each was spent before or was not
  brought again, after this batch, by another one.
  */
  lemma {:induction false} ConfirmedBatchFullySpent(st: Sync, es: seq<Event>, e: Event, ns: set<HashOutput>)
    requires AllReadable(es) && EventReadable(e) && Confirms(Run(st, es), e)
    requires ns <= AllKnown(Run(st, es)) + Adds(Run(st, es), e)
    ensures ns <= Step(Run(st, es), e).spent
       <==> forall n | n in ns :: n in Run(st, es).spent || MarkerWith(st, es, e, n) == Some(e.pi)
  {
    forall n | n in ns
      ensures n in Step(Run(st, es), e).spent <==> n in Run(st, es).spent || MarkerWith(st, es, e, n) == Some(e.pi)
    {
      ConfirmationSpendsExactly(st, es, e, n);
    }
  }

  /** Two pending batches with a common nullifier: confirming the first does not spend it. */
  lemma {:induction false} SharedNullifierStaysPending(st: Sync, kind: BatchKind, pi: Pi, pi': Pi, pre: seq<byte>,
                                                       pre': seq<byte>,
                                                       leaves: seq<HashOutput>, leaves': seq<HashOutput>,
                                                       ns: seq<HashOutput>, ns': seq<HashOutput>, n: HashOutput,
                                                       root: HashOutput, newRoot: HashOutput)
    requires |leaves| == |leaves'| == 512 && pi != pi' && n in ns && n in ns' && n !in st.spent
    ensures var both := Applied(Applied(st, kind, pi, pre, leaves, ns), kind, pi', pre', leaves', ns');
            var after := Confirm(both, pi, root, newRoot);
            n !in after.spent && n in after.pendingNull && after.pendingNull[n] == pi'
  {
    var one := Applied(st, kind, pi, pre, leaves, ns);
    var both := Applied(one, kind, pi', pre', leaves', ns');
    AppliedAddsNullifiers(st, kind, pi, pre, leaves, ns);
    AppliedAddsNullifiers(one, kind, pi', pre', leaves', ns');
    ConfirmNullifiers(both, pi, root, newRoot);
  }

  // --- when a confirmed commitment stays confirmed ------------------------------------------------------------

  ghost predicate IsConfirmed(st: Sync, c: HashOutput) {
    c in st.located && st.located[c].confirmed
  }

  /** The commitment is found, unconfirmed, in the batch that holds it; otherwise nothing changed for it. */
  ghost predicate Relocated(was: map<HashOutput, Location>, now: map<HashOutput, Location>, pi: Pi, holds: bool,
                            c: HashOutput) {
    if holds then c in now && now[c].pi == pi && !now[c].confirmed
    else (c in now <==> c in was) && (c in was ==> now[c] == was[c])
  }

  /** A batch relocates exactly the commitments it holds. */
  lemma {:induction false} LocateExact(located: map<HashOutput, Location>, pi: Pi, leaves: seq<HashOutput>, n: nat,
                                       c: HashOutput)
    requires n <= |leaves|
    ensures Relocated(located, Locate(located, pi, leaves, n), pi, c in leaves[..n], c)
  {
    if n > 0 {
      LocateExact(located, pi, leaves, n - 1, c);
      assert leaves[..n] == leaves[..n - 1] + [leaves[n - 1]];
    }
  }

  lemma {:induction false} PreparedLocates(st: Sync, e: Event, c: HashOutput)
    requires EventReadable(e)
    ensures Relocated(st.located, Prepared(st, e).located, e.pi, StepApplies(st, e) && c in EventLeaves(e), c)
  {
    AppliedLocates(st, e.kind, e.pi, e.pre, EventLeaves(e), EventNullifiers(e), c);
  }

  lemma {:induction false} AppliedLocates(st: Sync, kind: BatchKind, pi: Pi, pre: seq<byte>, leaves: seq<HashOutput>,
                                          ns: seq<HashOutput>,
                                          c: HashOutput)
    requires |leaves| == 512
    ensures Relocated(st.located, Applied(st, kind, pi, pre, leaves, ns).located, pi, c in leaves, c)
  {
    LocateExact(st.located, pi, leaves, |leaves|, c);
    assert leaves[..|leaves|] == leaves;
  }

  lemma {:induction false} AppliedIsRecorded(st: Sync, e: Event)
    requires EventReadable(e) && StepApplies(st, e)
    ensures e.pi in PendingOf(Prepared(st, e), e.kind)
  {
  }

  lemma {:induction false} ConfirmKnownConfirms(st: Sync, kind: BatchKind, pi: Pi, newRoot: HashOutput, c: HashOutput)
    requires c in st.located
    ensures var st' := ConfirmKnown(st, kind, pi, newRoot);
            && c in st'.located
            && (st'.located[c].confirmed <==>
                  || st.located[c].confirmed
                  || (st.located[c].pi == pi && pi in PendingOf(st, kind) && |st.stateLeaves| < Pow2(st.depth)))
  {
    if pi in PendingOf(st, kind) && |st.stateLeaves| < Pow2(st.depth) {
      ConfirmLocated(st, pi, HeaderRoot(PendingOf(st, kind)[pi]), newRoot);
    }
  }

  lemma {:induction false} ConfirmLocated(st: Sync, pi: Pi, root: HashOutput, newRoot: HashOutput)
    ensures Confirm(st, pi, root, newRoot).located == AllConfirmed(st.located, pi)
  {
  }

  /** The event parses a batch that holds the commitment and does not confirm it at once. */
  ghost predicate Unconfirms(st: Sync, e: Event, c: HashOutput)
    requires EventReadable(e)
  {
    StepApplies(st, e) && c in EventLeaves(e) && !(e.Proven? && |st.stateLeaves| < Pow2(st.depth))
  }

  /** A confirmed commitment is pending after an event exactly when the event brings it again. */
  lemma {:induction false} StepKeepsConfirmedExactly(st: Sync, e: Event, c: HashOutput)
    requires EventReadable(e) && IsConfirmed(st, c)
    ensures IsConfirmed(Step(st, e), c) <==> !Unconfirms(st, e, c)
  {
    PreparedLocates(st, e, c);
    if e.Proven? {
      ProvenKeepsConfirmedExactly(st, e, c);
    }
  }

  lemma {:induction false} ProvenKeepsConfirmedExactly(st: Sync, e: Event, c: HashOutput)
    requires EventReadable(e) && IsConfirmed(st, c) && e.Proven?
    requires Relocated(st.located, Prepared(st, e).located, e.pi, StepApplies(st, e) && c in EventLeaves(e), c)
    ensures IsConfirmed(Step(st, e), c) <==> !Unconfirms(st, e, c)
  {
    PreparedKeepsRoom(st, e);
    if StepApplies(st, e) {
      AppliedIsRecorded(st, e);
    }
    ConfirmKnownConfirms(Prepared(st, e), e.kind, e.pi, e.newRoot, c);
  }

  /** A confirmed commitment that a new submission holds again is pending under the new batch. */
  lemma {:induction false} ReprintedCommitmentIsPending(st: Sync, e: Event, c: HashOutput)
    requires EventReadable(e) && IsConfirmed(st, c) && e.Submitted? && !Known(st, e) && c in EventLeaves(e)
    ensures var st' := Step(st, e); c in st'.located && !st'.located[c].confirmed && st'.located[c].pi == e.pi
  {
    PreparedLocates(st, e, c);
  }

  /** Over every run: a commitment stays confirmed throughout exactly when no event brings it again. */
  lemma {:induction false} RunKeepsConfirmedExactly(st: Sync, es: seq<Event>, c: HashOutput)
    requires AllReadable(es) && IsConfirmed(st, c)
    ensures (forall k | 0 <= k <= |es| :: IsConfirmed(Run(st, es[..k]), c))
       <==> (forall k | 0 <= k < |es| :: !Unconfirms(Run(st, es[..k]), es[k], c))
  {
    if forall k | 0 <= k <= |es| :: IsConfirmed(Run(st, es[..k]), c) {
      forall k | 0 <= k < |es| ensures !Unconfirms(Run(st, es[..k]), es[k], c) {
        RunNext(st, es, k);
        StepKeepsConfirmedExactly(Run(st, es[..k]), es[k], c);
      }
    }
    if forall k | 0 <= k < |es| :: !Unconfirms(Run(st, es[..k]), es[k], c) {
      forall k | 0 <= k <= |es| ensures IsConfirmed(Run(st, es[..k]), c) {
        StaysConfirmed(st, es, c, k);
      }
    }
  }

  lemma {:induction false} StaysConfirmed(st: Sync, es: seq<Event>, c: HashOutput, k: nat)
    requires AllReadable(es) && IsConfirmed(st, c) && k <= |es|
    requires forall j | 0 <= j < |es| :: !Unconfirms(Run(st, es[..j]), es[j], c)
    ensures IsConfirmed(Run(st, es[..k]), c)
  {
    if k > 0 {
      StaysConfirmed(st, es, c, k - 1);
      RunNext(st, es, k - 1);
      StepKeepsConfirmedExactly(Run(st, es[..k - 1]), es[k - 1], c);
    }
  }

  lemma {:induction false} RunNext(st: Sync, es: seq<Event>, k: nat)
    requires AllReadable(es) && k < |es|
    ensures Run(st, es[..k + 1]) == Step(Run(st, es[..k]), es[k])
  {
    assert es[..k + 1][..k] == es[..k];
  }

  lemma {:induction false} NoneFailsNext(st: Sync, es: seq<Event>, k: nat)
    requires AllReadable(es) && k < |es| && NoneFails(st, es, k) && !Fails(Run(st, es[..k]), es[k])
    ensures NoneFails(st, es, k + 1)
  {
  }

  // --- batches on record ------------------------------------------------------------------------------------------

  /** The batches of a kind that are pending or confirmed. */
  ghost function Recorded(st: Sync, kind: BatchKind): set<Pi> {
    match kind
    case Transaction => st.pendingTx.Keys + st.confirmedTx
    case BridgeTx => st.pendingBridge.Keys + st.confirmedBridge
  }

  /** The batches of a kind that the events of a run put on record. */
  ghost function PutOnRecord(st: Sync, es: seq<Event>, kind: BatchKind): set<Pi>
    requires AllReadable(es)
  {
    if |es| == 0 then {}
    else
      var k := |es| - 1;
      PutOnRecord(st, es[..k], kind) + NewRecord(Run(st, es[..k]), es[k], kind)
  }

  ghost function NewRecord(st: Sync, e: Event, kind: BatchKind): set<Pi> {
    if StepApplies(st, e) && e.kind == kind then {e.pi} else {}
  }

  lemma {:induction false} ConfirmKeepsRecord(st: Sync, pi: Pi, root: HashOutput, newRoot: HashOutput, kind: BatchKind)
    ensures Recorded(Confirm(st, pi, root, newRoot), kind) == Recorded(st, kind)
  {
    ConfirmMoves(st, pi, root, newRoot);
  }

  lemma {:induction false} ConfirmMoves(st: Sync, pi: Pi, root: HashOutput, newRoot: HashOutput)
    ensures var st', moved := Confirm(st, pi, root, newRoot), MoveBatch(st, pi);
            && st'.pendingTx == moved.pendingTx && st'.confirmedTx == moved.confirmedTx
            && st'.pendingBridge == moved.pendingBridge && st'.confirmedBridge == moved.confirmedBridge
  {
  }

  lemma {:induction false} PreparedRecords(st: Sync, e: Event, kind: BatchKind)
    requires EventReadable(e)
    ensures Recorded(Prepared(st, e), kind) == Recorded(st, kind) + NewRecord(st, e, kind)
  {
    AppliedRecords(st, e.kind, e.pi, e.pre, EventLeaves(e), EventNullifiers(e));
  }

  lemma {:induction false} AppliedRecords(st: Sync, kind: BatchKind, pi: Pi, pre: seq<byte>, leaves: seq<HashOutput>,
                                          ns: seq<HashOutput>)
    requires |leaves| == 512
    ensures var st' := Applied(st, kind, pi, pre, leaves, ns);
            forall k :: Recorded(st', k) == Recorded(st, k) + (if k == kind then {pi} else {})
  {
  }

  /** A step puts a batch on record exactly when it parses it, and takes none off. */
  lemma {:induction false} StepRecords(st: Sync, e: Event, kind: BatchKind)
    requires EventReadable(e)
    ensures Recorded(Step(st, e), kind) == Recorded(st, kind) + NewRecord(st, e, kind)
  {
    PreparedRecords(st, e, kind);
    if e.Proven? {
      ConfirmKnownKeepsRecord(Prepared(st, e), e.kind, e.pi, e.newRoot, kind);
    }
  }

  lemma {:induction false} ConfirmKnownKeepsRecord(st: Sync, kind: BatchKind, pi: Pi, newRoot: HashOutput, k: BatchKind)
    ensures Recorded(ConfirmKnown(st, kind, pi, newRoot), k) == Recorded(st, k)
  {
    if pi in PendingOf(st, kind) {
      ConfirmKeepsRecord(st, pi, HeaderRoot(PendingOf(st, kind)[pi]), newRoot, k);
    }
  }

  /** After every run the batches on record are the initial ones and those the run put there. */
  lemma {:induction false} RunRecords(st: Sync, es: seq<Event>, kind: BatchKind, pi: Pi)
    requires AllReadable(es)
    ensures pi in Recorded(Run(st, es), kind) <==> pi in Recorded(st, kind) || pi in PutOnRecord(st, es, kind)
  {
    if |es| > 0 {
      var k := |es| - 1;
      var mid := Run(st, es[..k]);
      RunRecords(st, es[..k], kind, pi);
      StepRecordsMember(mid, es[k], kind, pi);
      assert PutOnRecord(st, es, kind) == PutOnRecord(st, es[..k], kind) + NewRecord(mid, es[k], kind);
    }
  }

  lemma {:induction false} StepRecordsMember(st: Sync, e: Event, kind: BatchKind, pi: Pi)
    requires EventReadable(e)
    ensures pi in Recorded(Step(st, e), kind) <==> pi in Recorded(st, kind) || pi in NewRecord(st, e, kind)
  {
    StepRecords(st, e, kind);
  }

  /** Every submitted batch is on record after the run, whatever else happens. */
  lemma {:induction false} SubmittedIsRecorded(st: Sync, es: seq<Event>, i: nat, e: Event)
    requires AllReadable(es) && i < |es| && es[i] == e && e.Submitted?
    ensures e.pi in Recorded(Run(st, es), e.kind)
  {
    var k := |es| - 1;
    if i < k {
      SubmittedIsRecorded(st, es[..k], i, e);
    }
    RecordAfterStep(st, es, e, i == k);
  }

  lemma {:induction false} RecordAfterStep(st: Sync, es: seq<Event>, e: Event, last: bool)
    requires AllReadable(es) && |es| > 0
    requires if last then es[|es| - 1] == e && e.Submitted? else e.pi in Recorded(Run(st, es[..|es| - 1]), e.kind)
    ensures e.pi in Recorded(Run(st, es), e.kind)
  {
    var mid := Run(st, es[..|es| - 1]);
    if last {
      SubmissionRecords(mid, e);
    } else {
      StepRecords(mid, es[|es| - 1], e.kind);
    }
  }

  lemma {:induction false} SubmissionRecords(st: Sync, e: Event)
    requires EventReadable(e) && e.Submitted?
    ensures e.pi in Recorded(Step(st, e), e.kind)
  {
    StepRecords(st, e, e.kind);
  }

  /** Every run from the initial state ends in a state where confirmed commitments have their proofs. */
  lemma {:induction false} EveryRunServesProofs(h: Hasher<HashOutput>, depth: nat, es: seq<Event>,
                                                content: Pi -> seq<HashOutput>, rootOf: Pi -> HashOutput, c: HashOutput)
    requires AllOk(es, content, rootOf) && AllReadable(es)
    ensures var st := Run(Initial(h, depth), es); c in st.located && st.located[c].confirmed ==> HasProofs(h, st, c)
  {
    InitialInv(h, depth, content, rootOf);
    RunKeepsInv(Initial(h, depth), es, content, rootOf);
    var st := Run(Initial(h, depth), es);
    if c in st.located && st.located[c].confirmed {
      ConfirmedHasProofs(h, st, content, rootOf, c);
    }
  }
}
