/**
Which events leave the sync state alone, in terms of its maps; what repeating an event does; and over every
run which batches are pending and which state roots are known.
*/
module SyncReplays {
  import opened Arith
  import opened MachineWords
  import opened Encoding
  import opened MerkleSpec
  import opened BatchParser
  import opened SyncSpec
  import opened SyncTheorems
  import opened SyncRuns

  // --- events that change nothing -------------------------------------------------------------------------

  ghost predicate StateTreeFull(st: Sync) {
    |st.stateLeaves| >= Pow2(st.depth)
  }

  /**
  A submission of a batch that is pending or confirmed under its kind. A proof of a batch pending under its
  kind, when the state tree is full, or of one that is pending under the other kind only.
  */
  ghost predicate Idle(st: Sync, e: Event) {
    match e
    case Submitted(Transaction, pi, _) => pi in st.pendingTx || pi in st.confirmedTx
    case Submitted(BridgeTx, pi, _) => pi in st.pendingBridge || pi in st.confirmedBridge
    case Proven(Transaction, pi, _, _) => if pi in st.pendingTx then StateTreeFull(st) else pi in st.pendingBridge
    case Proven(BridgeTx, pi, _, _) => if pi in st.pendingBridge then StateTreeFull(st) else pi in st.pendingTx
  }

  lemma {:induction false} IdleStep(st: Sync, e: Event)
    requires EventReadable(e) && Idle(st, e)
    ensures Step(st, e) == st
  {
  }

  lemma {:induction false} AppliedIsNew(st: Sync, kind: BatchKind, pi: Pi, pre: seq<byte>, leaves: seq<HashOutput>,
                                        ns: seq<HashOutput>)
    requires |leaves| == 512
    ensures pi in PendingOf(Applied(st, kind, pi, pre, leaves, ns), kind)
  {
  }

  lemma {:induction false} ConfirmGrows(st: Sync, pi: Pi, root: HashOutput, newRoot: HashOutput)
    ensures Confirm(st, pi, root, newRoot).stateLeaves == st.stateLeaves + [root]
  {
  }

  /** An event that is not idle puts its batch on record or its root in the state tree. */
  lemma {:induction false} BusyStep(st: Sync, e: Event)
    requires EventReadable(e) && !Idle(st, e)
    ensures Step(st, e) != st
  {
    AppliedIsNew(st, e.kind, e.pi, e.pre, EventLeaves(e), EventNullifiers(e));
    if e.Proven? {
      BusyProof(st, e, Prepared(st, e));
    }
  }

  lemma {:induction false} BusyProof(st: Sync, e: Event, before: Sync)
    requires EventReadable(e) && e.Proven? && before == Prepared(st, e) && e.pi in PendingOf(before, e.kind)
    requires before != st || !StateTreeFull(st)
    ensures Step(st, e) != st
  {
    PreparedKeepsRoom(st, e);
    if !StateTreeFull(st) {
      ConfirmGrows(before, e.pi, HeaderRoot(PendingOf(before, e.kind)[e.pi]), e.newRoot);
    }
  }

  /** An event leaves the state as it is if and only if it is idle. */
  lemma {:induction false} UnchangedExactly(st: Sync, e: Event)
    requires EventReadable(e)
    ensures Step(st, e) == st <==> Idle(st, e)
  {
    if Idle(st, e) {
      IdleStep(st, e);
    } else {
      BusyStep(st, e);
    }
  }

  // --- repeated events ----------------------------------------------------------------------------------------

  lemma {:induction false} RunAppend(st: Sync, a: seq<Event>, b: seq<Event>, all: seq<Event>)
    requires all == a + b && AllReadable(a) && AllReadable(b) && AllReadable(all)
    ensures Run(st, all) == Run(Run(st, a), b)
    decreases |b|
  {
    if |b| == 0 {
      assert all == a;
      RunNone(Run(st, a), b);
    } else {
      var b', all', e := b[..|b| - 1], all[..|all| - 1], b[|b| - 1];
      InitOfJoin(a, b, all);
      InitReadable(b, b');
      InitReadable(all, all');
      RunAppend(st, a, b', all');
      RunUnfolds(st, all, all', e);
      RunUnfolds(Run(st, a), b, b', e);
    }
  }

  lemma {:induction false} InitReadable(es: seq<Event>, init: seq<Event>)
    requires AllReadable(es) && |es| > 0 && init == es[..|es| - 1]
    ensures AllReadable(init)
  {
  }

  lemma {:induction false} InitOfJoin<T>(a: seq<T>, b: seq<T>, all: seq<T>)
    requires all == a + b && |b| > 0
    ensures all[..|all| - 1] == a + b[..|b| - 1] && all[|all| - 1] == b[|b| - 1]
  {
  }

  /** A submission that has been handled is idle, whatever else has happened. */
  lemma {:induction false} HandledIsIdle(st: Sync, es: seq<Event>, i: nat, e: Event)
    requires AllReadable(es) && i < |es| && es[i] == e && e.Submitted?
    ensures Idle(Run(st, es), e)
  {
    SubmittedIsRecorded(st, es, i, e);
  }

  lemma {:induction false} RunOne(st: Sync, e: Event, one: seq<Event>)
    requires one == [e] && AllReadable(one)
    ensures Run(st, one) == Step(st, e)
  {
    RunNone(st, one[..0]);
    RunUnfolds(st, one, one[..0], e);
  }

  /** So repeating it anywhere later changes nothing, then and in the rest of the run. */
  lemma {:induction false} RepeatedSubmission(st: Sync, es: seq<Event>, i: nat, e: Event, rest: seq<Event>)
    requires AllReadable(es) && AllReadable(rest) && AllReadable(es + [e]) && AllReadable(es + [e] + rest)
    requires AllReadable(es + rest) && i < |es| && es[i] == e && e.Submitted?
    ensures Run(st, es + [e]) == Run(st, es)
    ensures Run(st, es + [e] + rest) == Run(st, es + rest)
  {
    HandledIsIdle(st, es, i, e);
    IdleStep(Run(st, es), e);
    RunAppend(st, es, [e], es + [e]);
    RunOne(Run(st, es), e, [e]);
    RunAppend(st, es + [e], rest, es + [e] + rest);
    RunAppend(st, es, rest, es + rest);
  }

  /**
  A proof is not like that: one of a batch that is not pending, as after its confirmation, is parsed and
  confirmed again, and its root goes into the state tree once more, as often as it is repeated.
  */
  lemma {:induction false} RepeatedProofAppends(st: Sync, e: Event, st': Sync)
    requires EventReadable(e) && e.Proven? && e.pi !in st.pendingTx && e.pi !in st.pendingBridge
    requires !StateTreeFull(st) && st' == Step(st, e)
    ensures st'.stateLeaves == st.stateLeaves + [HeaderRoot(e.pre)]
    ensures e.pi !in st'.pendingTx && e.pi !in st'.pendingBridge
  {
    ApplyAndConfirm(st, e.kind, e.pi, e.pre, EventLeaves(e), EventNullifiers(e), e.newRoot);
  }

  lemma {:induction false} ApplyAndConfirm(st: Sync, kind: BatchKind, pi: Pi, pre: seq<byte>, leaves: seq<HashOutput>,
                                           ns: seq<HashOutput>, newRoot: HashOutput)
    requires |leaves| == 512 && pi !in st.pendingTx && pi !in st.pendingBridge && !StateTreeFull(st)
    ensures var st' := ConfirmKnown(Applied(st, kind, pi, pre, leaves, ns), kind, pi, newRoot);
            && st'.stateLeaves == st.stateLeaves + [HeaderRoot(pre)]
            && pi !in st'.pendingTx && pi !in st'.pendingBridge
  {
    var before := Applied(st, kind, pi, pre, leaves, ns);
    ConfirmGrows(before, pi, HeaderRoot(pre), newRoot);
    ConfirmMoves(before, pi, HeaderRoot(pre), newRoot);
  }

  // --- pending batches --------------------------------------------------------------------------------------------

  lemma {:induction false} ConfirmKnownPending(st: Sync, k: BatchKind, p: Pi, newRoot: HashOutput, kind: BatchKind,
                                               pi: Pi)
    ensures pi in PendingOf(ConfirmKnown(st, k, p, newRoot), kind) <==>
              && pi in PendingOf(st, kind)
              && !(pi == p && p in PendingOf(st, k) && !StateTreeFull(st)
                   && (kind == Transaction <==> p in st.pendingTx))
  {
    if p in PendingOf(st, k) {
      ConfirmMoves(st, p, HeaderRoot(PendingOf(st, k)[p]), newRoot);
    }
  }

  lemma {:induction false} AppliedPending(st: Sync, k: BatchKind, p: Pi, pre: seq<byte>, leaves: seq<HashOutput>,
                                          ns: seq<HashOutput>, kind: BatchKind, pi: Pi)
    requires |leaves| == 512
    ensures pi in PendingOf(Applied(st, k, p, pre, leaves, ns), kind) <==>
              pi in PendingOf(st, kind) || (k == kind && pi == p)
  {
  }

  lemma {:induction false} PreparedPending(st: Sync, e: Event, kind: BatchKind, pi: Pi)
    requires EventReadable(e)
    ensures pi in PendingOf(Prepared(st, e), kind) <==>
              pi in PendingOf(st, kind) || (pi == e.pi && e.kind == kind && StepApplies(st, e))
  {
    if StepApplies(st, e) {
      AppliedPending(st, e.kind, e.pi, e.pre, EventLeaves(e), EventNullifiers(e), kind, pi);
    }
  }

  lemma {:induction false} ProvenPending(st: Sync, e: Event, before: Sync, kind: BatchKind, pi: Pi)
    requires EventReadable(e) && e.Proven? && before == Prepared(st, e)
    ensures pi in PendingOf(Step(st, e), kind) <==>
              pi in PendingOf(before, kind) && !(pi == e.pi && ConfirmsAs(st, e, kind))
  {
    PreparedKeepsRoom(st, e);
    ConfirmKnownPending(before, e.kind, e.pi, e.newRoot, kind, pi);
  }

  lemma {:induction false} StepPending(st: Sync, e: Event, kind: BatchKind, pi: Pi)
    requires EventReadable(e)
    ensures pi in PendingOf(Step(st, e), kind) <==>
              && (pi in PendingOf(st, kind) || (pi == e.pi && e.kind == kind && StepApplies(st, e)))
              && !(pi == e.pi && ConfirmsAs(st, e, kind))
  {
    PreparedPending(st, e, kind, pi);
    if e.Proven? {
      ProvenPending(st, e, Prepared(st, e), kind, pi);
    }
  }

  /** Which events confirm the batch under a kind. */
  ghost function Clearing(st: Sync, es: seq<Event>, kind: BatchKind, pi: Pi): (r: seq<bool>)
    requires AllReadable(es)
    ensures |r| == |es|
  {
    if |es| == 0 then []
    else
      var k := |es| - 1;
      Clearing(st, es[..k], kind, pi) + [es[k].pi == pi && ConfirmsAs(Run(st, es[..k]), es[k], kind)]
  }

  /** Which events put it on record under that kind and do not confirm it at once. */
  ghost function Recording(st: Sync, es: seq<Event>, kind: BatchKind, pi: Pi): (r: seq<bool>)
    requires AllReadable(es)
    ensures |r| == |es|
  {
    if |es| == 0 then []
    else
      var k := |es| - 1;
      var mid, e := Run(st, es[..k]), es[k];
      Recording(st, es[..k], kind, pi)
      + [e.pi == pi && e.kind == kind && StepApplies(mid, e) && !ConfirmsAs(mid, e, kind)]
  }

  /** At the end of a run a batch is pending if and only if some event put it on record and none confirmed it since. */
  lemma {:induction false} PendingExactly(st: Sync, es: seq<Event>, kind: BatchKind, pi: Pi)
    requires AllReadable(es) && pi !in PendingOf(st, kind)
    ensures pi in PendingOf(Run(st, es), kind) <==> Since(Recording(st, es, kind, pi), Clearing(st, es, kind, pi))
  {
    if |es| > 0 {
      var k := |es| - 1;
      var init, mid, e := es[..k], Run(st, es[..k]), es[k];
      PendingExactly(st, init, kind, pi);
      SinceSnoc(Recording(st, init, kind, pi), Clearing(st, init, kind, pi),
                e.pi == pi && e.kind == kind && StepApplies(mid, e) && !ConfirmsAs(mid, e, kind),
                e.pi == pi && ConfirmsAs(mid, e, kind));
      StepPending(mid, e, kind, pi);
    }
  }

  // --- state roots ------------------------------------------------------------------------------------------------

  /** The on-chain roots that the confirming events of a run carry. */
  ghost function RootsConfirmed(st: Sync, es: seq<Event>): set<HashOutput>
    requires AllReadable(es)
  {
    if |es| == 0 then {}
    else
      var k := |es| - 1;
      RootsConfirmed(st, es[..k]) + NewStateRoot(Run(st, es[..k]), es[k])
  }

  ghost function NewStateRoot(st: Sync, e: Event): set<HashOutput>
    requires EventReadable(e)
  {
    if Confirms(st, e) then {e.newRoot} else {}
  }

  lemma {:induction false} ConfirmAddsRoot(st: Sync, pi: Pi, root: HashOutput, newRoot: HashOutput)
    ensures Confirm(st, pi, root, newRoot).roots == st.roots + {newRoot}
  {
  }

  lemma {:induction false} StepAddsRoot(st: Sync, e: Event)
    requires EventReadable(e)
    ensures Step(st, e).roots == st.roots + NewStateRoot(st, e)
  {
    PreparedKeepsRoom(st, e);
    PreparedKeepsRoots(st, e);
    var before := Prepared(st, e);
    if Confirms(st, e) {
      ConfirmAddsRoot(before, e.pi, HeaderRoot(PendingOf(before, e.kind)[e.pi]), e.newRoot);
    }
  }

  lemma {:induction false} PreparedKeepsRoots(st: Sync, e: Event)
    requires EventReadable(e)
    ensures Prepared(st, e).roots == st.roots
  {
    AppliedKeepsRoots(st, e.kind, e.pi, e.pre, EventLeaves(e), EventNullifiers(e));
  }

  lemma {:induction false} AppliedKeepsRoots(st: Sync, kind: BatchKind, pi: Pi, pre: seq<byte>, leaves: seq<HashOutput>,
                                             ns: seq<HashOutput>)
    requires |leaves| == 512
    ensures Applied(st, kind, pi, pre, leaves, ns).roots == st.roots
  {
  }

  /** After every run the known state roots are the initial ones and those the confirming events carried. */
  lemma {:induction false} RootsExactly(st: Sync, es: seq<Event>)
    requires AllReadable(es)
    ensures Run(st, es).roots == st.roots + RootsConfirmed(st, es)
  {
    if |es| > 0 {
      var k := |es| - 1;
      var mid := Run(st, es[..k]);
      RootsExactly(st, es[..k]);
      StepAddsRoot(mid, es[k]);
      UnionTwice(st.roots, mid.roots, Run(st, es).roots, RootsConfirmed(st, es[..k]), NewStateRoot(mid, es[k]),
                 RootsConfirmed(st, es));
    } else {
      assert RootsConfirmed(st, es) == {};
    }
  }

  /** From the initial state these are the root of the empty tree and the confirmed ones. */
  lemma {:induction false} InitialRootsExactly(h: Hasher<HashOutput>, depth: nat, es: seq<Event>)
    requires AllReadable(es)
    ensures Run(Initial(h, depth), es).roots == {Empty(h, depth)} + RootsConfirmed(Initial(h, depth), es)
  {
    RootsExactly(Initial(h, depth), es);
    ZeroLeavesHaveEmptyRoot(h, [], depth);
  }
}
