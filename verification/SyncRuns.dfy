/**
What a run of the sync service leaves behind, read off its events: the state tree, the status of
every commitment, nullifier and batch, and two runs that show the edges.
*/
module SyncRuns {
  import opened Arith
  import opened MachineWords
  import opened Encoding
  import opened MerkleSpec
  import opened BatchPrinter
  import opened BatchParser
  import opened SyncSpec
  import opened SyncTheorems

  // --- the state tree -------------------------------------------------------------------------------------

  /** The header roots of the events that confirm a batch, in order. */
  ghost function ConfirmedRoots(st: Sync, es: seq<Event>, rootOf: Pi -> HashOutput): seq<HashOutput>
    requires AllReadable(es)
  {
    if |es| == 0 then []
    else
      var k := |es| - 1;
      ConfirmedRoots(st, es[..k], rootOf) + NewRoot(Run(st, es[..k]), es[k], rootOf)
  }

  ghost function NewRoot(st: Sync, e: Event, rootOf: Pi -> HashOutput): seq<HashOutput>
    requires EventReadable(e)
  {
    if Confirms(st, e) then [rootOf(e.pi)] else []
  }

  lemma {:induction false} ConfirmAppends(st: Sync, pi: Pi, root: HashOutput, newRoot: HashOutput)
    ensures Confirm(st, pi, root, newRoot).stateLeaves == st.stateLeaves + [root]
  {
  }

  lemma {:induction false} StepAppends(st: Sync, e: Event, content: Pi -> seq<HashOutput>, rootOf: Pi -> HashOutput)
    requires Inv(st, content, rootOf) && EventOk(e, content, rootOf)
    ensures Step(st, e).stateLeaves == st.stateLeaves + NewRoot(st, e, rootOf)
  {
    PreparedKeepsRoom(st, e);
    PreparedKeepsInv(st, e, content, rootOf);
    var before := Prepared(st, e);
    if Confirms(st, e) {
      ConfirmAppends(before, e.pi, HeaderRoot(PendingOf(before, e.kind)[e.pi]), e.newRoot);
      RecordedRoot(before, e.kind, e.pi, content, rootOf);
    }
  }

  lemma {:induction false} PreparedKeepsInv(st: Sync, e: Event, content: Pi -> seq<HashOutput>,
                                            rootOf: Pi -> HashOutput)
    requires Inv(st, content, rootOf) && EventOk(e, content, rootOf)
    ensures Inv(Prepared(st, e), content, rootOf)
  {
    AppliedKeepsInv(st, e.kind, e.pi, e.pre, EventLeaves(e), EventNullifiers(e), content, rootOf);
  }

  lemma {:induction false} RecordedRoot(st: Sync, kind: BatchKind, pi: Pi, content: Pi -> seq<HashOutput>,
                                        rootOf: Pi -> HashOutput)
    requires Inv(st, content, rootOf) && pi in PendingOf(st, kind)
    ensures HeaderRoot(PendingOf(st, kind)[pi]) == rootOf(pi)
  {
  }

  /** After every run the state tree holds the header roots of exactly the confirming events, in order. */
  lemma {:induction false} StateTreeMirrors(st: Sync, es: seq<Event>, content: Pi -> seq<HashOutput>,
                                            rootOf: Pi -> HashOutput)
    requires Inv(st, content, rootOf) && AllOk(es, content, rootOf) && AllReadable(es)
    ensures Run(st, es).stateLeaves == st.stateLeaves + ConfirmedRoots(st, es, rootOf)
  {
    if |es| > 0 {
      var k := |es| - 1;
      var mid := Run(st, es[..k]);
      StateTreeMirrors(st, es[..k], content, rootOf);
      RunKeepsInv(st, es[..k], content, rootOf);
      StepAppends(mid, es[k], content, rootOf);
      AppendTwice(st.stateLeaves, mid.stateLeaves, Run(st, es).stateLeaves, ConfirmedRoots(st, es[..k], rootOf),
                  NewRoot(mid, es[k], rootOf), ConfirmedRoots(st, es, rootOf));
    }
  }

  lemma {:induction false} AppendTwice<T>(a: seq<T>, b: seq<T>, c: seq<T>, x: seq<T>, y: seq<T>, z: seq<T>)
    requires b == a + x && c == b + y && z == x + y
    ensures c == a + z
  {
  }

  lemma {:induction false} RunKeepsDepth(st: Sync, es: seq<Event>)
    requires AllReadable(es)
    ensures Run(st, es).depth == st.depth
  {
    if |es| > 0 {
      var k := |es| - 1;
      RunKeepsDepth(st, es[..k]);
      StepKeepsDepth(Run(st, es[..k]), es[k]);
    }
  }

  lemma {:induction false} StepKeepsDepth(st: Sync, e: Event)
    requires EventReadable(e)
    ensures Step(st, e).depth == st.depth
  {
    PreparedKeepsRoom(st, e);
    ConfirmKnownKeepsDepth(Prepared(st, e), e);
  }

  lemma {:induction false} ConfirmKnownKeepsDepth(st: Sync, e: Event)
    ensures e.Proven? ==> ConfirmKnown(st, e.kind, e.pi, e.newRoot).depth == st.depth
  {
  }

  /** From the initial state it holds nothing else. */
  lemma {:induction false} InitialTreeMirrors(h: Hasher<HashOutput>, depth: nat, es: seq<Event>,
                                              content: Pi -> seq<HashOutput>,
                                              rootOf: Pi -> HashOutput)
    requires AllOk(es, content, rootOf) && AllReadable(es)
    ensures Run(Initial(h, depth), es).stateLeaves == ConfirmedRoots(Initial(h, depth), es, rootOf)
  {
    InitialInv(h, depth, content, rootOf);
    MirrorsFromNone(Initial(h, depth), es, content, rootOf);
  }

  lemma {:induction false} MirrorsFromNone(st: Sync, es: seq<Event>, content: Pi -> seq<HashOutput>,
                                           rootOf: Pi -> HashOutput)
    requires Inv(st, content, rootOf) && AllOk(es, content, rootOf) && AllReadable(es) && st.stateLeaves == []
    ensures Run(st, es).stateLeaves == ConfirmedRoots(st, es, rootOf)
  {
    StateTreeMirrors(st, es, content, rootOf);
    AppendNone(ConfirmedRoots(st, es, rootOf));
  }

  lemma {:induction false} AppendNone<T>(x: seq<T>)
    ensures [] + x == x
  {
  }

  // --- commitments ------------------------------------------------------------------------------------------

  /** The event parses a batch that holds the commitment. */
  ghost predicate Brings(st: Sync, e: Event, c: HashOutput)
    requires EventReadable(e)
  {
    StepApplies(st, e) && c in EventLeaves(e)
  }

  /** The batch that located a commitment last. */
  ghost function LastLocator(st: Sync, es: seq<Event>, c: HashOutput): Option<Pi>
    requires AllReadable(es)
  {
    if |es| == 0 then if c in st.located then Some(st.located[c].pi) else None
    else
      var k := |es| - 1;
      if Brings(Run(st, es[..k]), es[k], c) then Some(es[k].pi) else LastLocator(st, es[..k], c)
  }

  /** Event `e` leaves the commitment where its batch is located, confirmed exactly as follows. */
  ghost predicate StatusAfter(st: Sync, e: Event, c: HashOutput, after: Sync)
    requires EventReadable(e)
  {
    var was, now := Prepared(st, e).located, after.located;
    && (c in now <==> c in was) && (c in was ==> now[c].pi == was[c].pi)
    && (IsConfirmed(after, c) <==>
          || (Confirms(st, e) && c in was && was[c].pi == e.pi)
          || (IsConfirmed(st, c) && !Brings(st, e, c)))
  }

  lemma {:induction false} StepStatus(st: Sync, e: Event, c: HashOutput)
    requires EventReadable(e)
    ensures StatusAfter(st, e, c, Step(st, e))
  {
    PreparedLocates(st, e, c);
    PreparedKeepsRoom(st, e);
    StatusByKind(st, e, c);
  }

  lemma {:induction false} StatusByKind(st: Sync, e: Event, c: HashOutput)
    requires EventReadable(e)
    requires Relocated(st.located, Prepared(st, e).located, e.pi, Brings(st, e, c), c)
    requires Prepared(st, e).stateLeaves == st.stateLeaves && Prepared(st, e).depth == st.depth
    ensures StatusAfter(st, e, c, Step(st, e))
  {
    if e.Proven? {
      ProvenStatus(st, e, c);
    } else {
      SubmittedStatus(st, e, c);
    }
  }

  lemma {:induction false} SubmittedStatus(st: Sync, e: Event, c: HashOutput)
    requires EventReadable(e) && e.Submitted?
    requires Relocated(st.located, Prepared(st, e).located, e.pi, Brings(st, e, c), c)
    ensures StatusAfter(st, e, c, Prepared(st, e))
  {
  }

  lemma {:induction false} ProvenStatus(st: Sync, e: Event, c: HashOutput)
    requires EventReadable(e) && e.Proven?
    requires Relocated(st.located, Prepared(st, e).located, e.pi, Brings(st, e, c), c)
    requires Prepared(st, e).stateLeaves == st.stateLeaves && Prepared(st, e).depth == st.depth
    ensures StatusAfter(st, e, c, ConfirmKnown(Prepared(st, e), e.kind, e.pi, e.newRoot))
  {
    ConfirmKnownStatus(Prepared(st, e), e.kind, e.pi, e.newRoot, c);
  }

  lemma {:induction false} ConfirmKnownStatus(st: Sync, kind: BatchKind, pi: Pi, newRoot: HashOutput, c: HashOutput)
    ensures var st' := ConfirmKnown(st, kind, pi, newRoot);
            && (c in st'.located <==> c in st.located) && (c in st.located ==> st'.located[c].pi == st.located[c].pi)
            && (IsConfirmed(st', c) <==>
                  || IsConfirmed(st, c)
                  || (c in st.located && st.located[c].pi == pi && pi in PendingOf(st, kind)
                      && |st.stateLeaves| < Pow2(st.depth)))
  {
    if pi in PendingOf(st, kind) {
      ConfirmLocated(st, pi, HeaderRoot(PendingOf(st, kind)[pi]), newRoot);
    }
  }

  /** A commitment is located in the batch that located it last. */
  lemma {:induction false} LocatedByLast(st: Sync, es: seq<Event>, c: HashOutput)
    requires AllReadable(es)
    ensures LastLocator(st, es, c)
         == if c in Run(st, es).located then Some(Run(st, es).located[c].pi) else None
  {
    if |es| > 0 {
      var k := |es| - 1;
      LocatedByLast(st, es[..k], c);
      StepStatus(Run(st, es[..k]), es[k], c);
      PreparedLocates(Run(st, es[..k]), es[k], c);
    }
  }

  /** Which events confirm the batch that has located the commitment last. */
  ghost function Confirming(st: Sync, es: seq<Event>, c: HashOutput): (r: seq<bool>)
    requires AllReadable(es)
    ensures |r| == |es|
  {
    if |es| == 0 then []
    else
      var k := |es| - 1;
      Confirming(st, es[..k], c)
      + [Confirms(Run(st, es[..k]), es[k]) && LastLocator(st, es, c) == Some(es[k].pi)]
  }

  /** Which events bring the commitment. */
  ghost function Bringing(st: Sync, es: seq<Event>, c: HashOutput): (r: seq<bool>)
    requires AllReadable(es)
    ensures |r| == |es|
  {
    if |es| == 0 then []
    else
      var k := |es| - 1;
      Bringing(st, es[..k], c) + [Brings(Run(st, es[..k]), es[k], c)]
  }

  /** Some `yes` that no later `no` follows. */
  ghost predicate Since(yes: seq<bool>, no: seq<bool>)
    requires |yes| == |no|
  {
    exists k | 0 <= k < |yes| :: yes[k] && forall j | k < j < |no| :: !no[j]
  }

  lemma {:induction false} SinceSnoc(yes: seq<bool>, no: seq<bool>, y: bool, n: bool)
    requires |yes| == |no|
    ensures Since(yes + [y], no + [n]) <==> y || (Since(yes, no) && !n)
  {
    var yes', no' := yes + [y], no + [n];
    if y {
      assert yes'[|yes|];
    } else if Since(yes, no) && !n {
      var k :| 0 <= k < |yes| && yes[k] && forall j | k < j < |no| :: !no[j];
      assert yes'[k] && forall j | k < j < |no'| :: !no'[j];
    }
    if Since(yes', no') && !y {
      var k :| 0 <= k < |yes'| && yes'[k] && forall j | k < j < |no'| :: !no'[j];
      assert yes[k] && !no'[|no|];
      assert forall j | k < j < |no| :: !no[j] by {
        assert forall j | k < j < |no| :: no'[j] == no[j];
      }
    }
  }

  /**
  At the end of a run a commitment is confirmed if and only if some event confirmed the batch that had
  located it last, and no later event brought it again.
  */
  lemma {:induction false} ConfirmedExactly(st: Sync, es: seq<Event>, c: HashOutput)
    requires AllReadable(es) && !IsConfirmed(st, c)
    ensures IsConfirmed(Run(st, es), c) <==> Since(Confirming(st, es, c), Bringing(st, es, c))
  {
    if |es| > 0 {
      var n := |es| - 1;
      var init, mid, e := es[..n], Run(st, es[..n]), es[n];
      ConfirmedExactly(st, init, c);
      SinceSnoc(Confirming(st, init, c), Bringing(st, init, c),
                Confirms(mid, e) && LastLocator(st, es, c) == Some(e.pi), Brings(mid, e, c));
      StepStatus(mid, e, c);
      LocatedByLast(st, es, c);
    }
  }

  // --- nullifiers -----------------------------------------------------------------------------------------------

  /** Which events confirm the batch that has brought the nullifier last. */
  ghost function Spending(st: Sync, es: seq<Event>, n: HashOutput): seq<bool>
    requires AllReadable(es)
  {
    if |es| == 0 then []
    else
      var k := |es| - 1;
      Spending(st, es[..k], n)
      + [Confirms(Run(st, es[..k]), es[k]) && MarkerWith(st, es[..k], es[k], n) == Some(es[k].pi)]
  }

  lemma {:induction false} MarkedIsKnown(st: Sync, es: seq<Event>, n: HashOutput)
    requires AllReadable(es)
    ensures LastMarker(st, es, n).Some? ==> n in AllKnown(Run(st, es))
  {
    if |es| > 0 {
      MarkedIsKnown(st, es[..|es| - 1], n);
      StepLosesNoNullifier(Run(st, es[..|es| - 1]), es[|es| - 1]);
    }
  }

  lemma {:induction false} UnconfirmingStepSpendsNothing(st: Sync, e: Event)
    requires EventReadable(e) && !Confirms(st, e)
    ensures Step(st, e).spent == st.spent
  {
    PreparedAdds(st, e);
    PreparedKeepsRoom(st, e);
  }

  /** At the end of a run a nullifier is spent if and only if some event confirmed the batch that had it last. */
  lemma {:induction false} SpentExactly(st: Sync, es: seq<Event>, n: HashOutput)
    requires AllReadable(es) && n !in st.spent
    ensures n in Run(st, es).spent <==> true in Spending(st, es, n)
  {
    if |es| > 0 {
      var m := |es| - 1;
      var mid, e := Run(st, es[..m]), es[m];
      SpentExactly(st, es[..m], n);
      MarkedIsKnown(st, es[..m], n);
      StepLosesNoNullifier(mid, e);
      if !Confirms(mid, e) {
        UnconfirmingStepSpendsNothing(mid, e);
      } else if n in AllKnown(mid) + Adds(mid, e) {
        ConfirmationSpendsExactly(st, es[..m], e, n);
      }
    }
  }

  // --- batches ----------------------------------------------------------------------------------------------------

  function ConfirmedBatches(st: Sync, kind: BatchKind): set<Pi> {
    match kind
    case Transaction => st.confirmedTx
    case BridgeTx => st.confirmedBridge
  }

  /** The event confirms its batch under this kind; a batch pending under both kinds counts as private. */
  ghost predicate ConfirmsAs(st: Sync, e: Event, kind: BatchKind)
    requires EventReadable(e)
  {
    Confirms(st, e) && (kind == Transaction <==> e.pi in Prepared(st, e).pendingTx)
  }

  lemma {:induction false} StepConfirmsBatch(st: Sync, e: Event, kind: BatchKind, pi: Pi)
    requires EventReadable(e)
    ensures pi in ConfirmedBatches(Step(st, e), kind) <==>
              pi in ConfirmedBatches(st, kind) || (ConfirmsAs(st, e, kind) && pi == e.pi)
  {
    PreparedKeepsRoom(st, e);
    PreparedKeepsConfirmed(st, e);
    if e.Proven? {
      ConfirmKnownBatch(Prepared(st, e), e.kind, e.pi, e.newRoot, kind, pi);
    }
  }

  lemma {:induction false} ConfirmKnownBatch(st: Sync, k: BatchKind, p: Pi, newRoot: HashOutput, kind: BatchKind,
                                             pi: Pi)
    ensures pi in ConfirmedBatches(ConfirmKnown(st, k, p, newRoot), kind) <==>
              || pi in ConfirmedBatches(st, kind)
              || (pi == p && p in PendingOf(st, k) && |st.stateLeaves| < Pow2(st.depth)
                  && (kind == Transaction <==> p in st.pendingTx))
  {
    if p in PendingOf(st, k) {
      ConfirmMoves(st, p, HeaderRoot(PendingOf(st, k)[p]), newRoot);
    }
  }

  lemma {:induction false} PreparedKeepsConfirmed(st: Sync, e: Event)
    requires EventReadable(e)
    ensures Prepared(st, e).confirmedTx == st.confirmedTx && Prepared(st, e).confirmedBridge == st.confirmedBridge
  {
    AppliedKeepsConfirmed(st, e.kind, e.pi, e.pre, EventLeaves(e), EventNullifiers(e));
  }

  lemma {:induction false} AppliedKeepsConfirmed(st: Sync, kind: BatchKind, pi: Pi, pre: seq<byte>,
                                                 leaves: seq<HashOutput>,
                                                 ns: seq<HashOutput>)
    requires |leaves| == 512
    ensures var st' := Applied(st, kind, pi, pre, leaves, ns);
            st'.confirmedTx == st.confirmedTx && st'.confirmedBridge == st.confirmedBridge
  {
  }

  /** The batches that the events of a run confirm under a kind. */
  ghost function ConfirmedBy(st: Sync, es: seq<Event>, kind: BatchKind): set<Pi>
    requires AllReadable(es)
  {
    if |es| == 0 then {}
    else
      var k := |es| - 1;
      ConfirmedBy(st, es[..k], kind) + (if ConfirmsAs(Run(st, es[..k]), es[k], kind) then {es[k].pi} else {})
  }

  /** At the end of a run a batch is confirmed if and only if it was before or some event confirmed it. */
  lemma {:induction false} BatchConfirmedExactly(st: Sync, es: seq<Event>, kind: BatchKind, pi: Pi)
    requires AllReadable(es)
    ensures pi in ConfirmedBatches(Run(st, es), kind) <==>
              pi in ConfirmedBatches(st, kind) || pi in ConfirmedBy(st, es, kind)
  {
    if |es| > 0 {
      var m := |es| - 1;
      BatchConfirmedExactly(st, es[..m], kind, pi);
      StepConfirmsBatch(Run(st, es[..m]), es[m], kind, pi);
      LastConfirms(st, es, kind, pi);
    }
  }

  lemma {:induction false} LastConfirms(st: Sync, es: seq<Event>, kind: BatchKind, pi: Pi)
    requires AllReadable(es) && |es| > 0
    ensures var m := |es| - 1;
            pi in ConfirmedBy(st, es, kind) <==>
              pi in ConfirmedBy(st, es[..m], kind) || (ConfirmsAs(Run(st, es[..m]), es[m], kind) && pi == es[m].pi)
  {
  }

  // --- two runs that show the edges -----------------------------------------------------------------------

  lemma {:induction false} RunUnfolds(st: Sync, es: seq<Event>, init: seq<Event>, e: Event)
    requires AllReadable(es) && |es| > 0 && es[..|es| - 1] == init && es[|es| - 1] == e
    ensures Run(st, es) == Step(Run(st, init), e)
  {
  }

  lemma {:induction false} RunNone(st: Sync, none: seq<Event>)
    requires |none| == 0
    ensures AllReadable(none) && Run(st, none) == st
  {
  }

  lemma {:induction false} RunThree(st: Sync, es: seq<Event>)
    requires |es| == 3 && AllReadable(es)
    ensures Run(st, es[..1]) == Step(st, es[0])
    ensures Run(st, es[..2]) == Step(Run(st, es[..1]), es[1])
    ensures Run(st, es) == Step(Run(st, es[..2]), es[2])
  {
    RunNone(st, es[..0]);
    RunUnfolds(st, es[..1], es[..0], es[0]);
    RunUnfolds(st, es[..2], es[..1], es[1]);
    RunUnfolds(st, es, es[..2], es[2]);
  }

  lemma {:induction false} RunFirst(st: Sync, es: seq<Event>)
    requires |es| > 0 && AllReadable(es)
    ensures Run(st, es[..1]) == Step(st, es[0])
  {
    RunNone(st, es[..0]);
    RunUnfolds(st, es[..1], es[..0], es[0]);
  }

  /** A private submission that is not on record is applied. */
  lemma {:induction false} SubmissionIsApplied(st: Sync, e: Event)
    requires EventReadable(e) && e.Submitted? && e.kind == Transaction && !Known(st, e)
    ensures Step(st, e) == Applied(st, Transaction, e.pi, e.pre, EventLeaves(e), EventNullifiers(e))
  {
  }

  /** A proof of a pending private batch only confirms. */
  lemma {:induction false} ProofOnlyConfirms(st: Sync, e: Event)
    requires EventReadable(e) && e.Proven? && e.kind == Transaction && e.pi in st.pendingTx
    ensures Step(st, e) == ConfirmKnown(st, Transaction, e.pi, e.newRoot)
  {
  }

  /** No private batch under these commitments, and room in the state tree. */
  ghost predicate ReadyFor(st: Sync, pi: Pi, pi': Pi) {
    && pi != pi' && pi !in st.pendingTx && pi !in st.confirmedTx && pi' !in st.pendingTx && pi' !in st.confirmedTx
    && |st.stateLeaves| < Pow2(st.depth)
  }

  lemma {:induction false} InitialIsReady(h: Hasher<HashOutput>, depth: nat, pi: Pi, pi': Pi)
    requires pi != pi'
    ensures ReadyFor(Initial(h, depth), pi, pi')
  {
  }

  /** What an applied batch does to a nullifier, a commitment and the batches. */
  lemma {:induction false} AppliedFacts(st: Sync, st1: Sync, pi: Pi, pre: seq<byte>, leaves: seq<HashOutput>,
                                        ns: seq<HashOutput>, other: Pi, n: HashOutput, c: HashOutput)
    requires |leaves| == 512 && st1 == Applied(st, Transaction, pi, pre, leaves, ns) && other != pi
    ensures pi in st1.pendingTx && (other in st1.pendingTx <==> other in st.pendingTx)
    ensures st1.confirmedTx == st.confirmedTx && st1.stateLeaves == st.stateLeaves && st1.depth == st.depth
    ensures st1.spent == st.spent && (n in ns ==> n in st1.pendingNull && st1.pendingNull[n] == pi)
    ensures c in leaves ==> c in st1.located && st1.located[c].pi == pi && !st1.located[c].confirmed
  {
    AppliedMarks(st, Transaction, pi, pre, leaves, ns, n);
    AppliedLocates(st, Transaction, pi, pre, leaves, ns, c);
  }

  /** What a confirmed batch does to them. */
  lemma {:induction false} ConfirmFacts(st: Sync, st1: Sync, pi: Pi, newRoot: HashOutput, other: Pi, n: HashOutput,
                                        c: HashOutput)
    requires st1 == ConfirmKnown(st, Transaction, pi, newRoot) && pi in st.pendingTx && other != pi
    requires |st.stateLeaves| < Pow2(st.depth)
    ensures other !in st.pendingTx && other !in st.confirmedTx ==> other !in st1.pendingTx && other !in st1.confirmedTx
    ensures n !in st.spent && n in st.pendingNull && st.pendingNull[n] == other ==>
        n !in st1.spent && n in st1.pendingNull && st1.pendingNull[n] == other
    ensures c in st.located && st.located[c].pi == pi ==> IsConfirmed(st1, c)
  {
    var root := HeaderRoot(st.pendingTx[pi]);
    ConfirmMoves(st, pi, root, newRoot);
    ConfirmNullifiers(st, pi, root, newRoot);
    ConfirmLocated(st, pi, root, newRoot);
  }

  /** Three private events of two batches, none of them on record: two submissions and a proof of the first. */
  ghost predicate TwoBatches(st: Sync, es: seq<Event>, first: nat, second: nat, proof: nat) {
    && |es| == 3 && first < 3 && second < 3 && proof < 3 && AllReadable(es)
    && (forall i | 0 <= i < 3 :: es[i].kind == Transaction)
    && es[first].Submitted? && es[second].Submitted? && es[proof].Proven? && es[proof].pi == es[first].pi
    && ReadyFor(st, es[first].pi, es[second].pi)
  }

  /**
  Two submissions, then the proof of the first: a nullifier of the second is not spent and is pending
  under the second, even when the first carries it too.
  */
  lemma {:induction false} SharedNullifierRun(st: Sync, es: seq<Event>, ns: seq<HashOutput>, n: HashOutput)
    requires TwoBatches(st, es, 0, 1, 2) && n !in st.spent && n in ns
    requires HasNullifiers(es[1], ns)
    ensures var last := Run(st, es);
            n !in last.spent && n in last.pendingNull && last.pendingNull[n] == es[1].pi
  {
    var st1 := Run(st, es[..1]);
    RunFirst(st, es);
    SubmissionSpendsNothing(st, st1, es[0], es[1].pi);
    LastTwo(st, es, st1, ns, n);
  }

  lemma {:induction false} LastTwo(st: Sync, es: seq<Event>, st1: Sync, ns: seq<HashOutput>, n: HashOutput)
    requires |es| == 3 && AllReadable(es) && st1 == Run(st, es[..1])
    requires es[1].Submitted? && es[1].kind == Transaction && !Known(st1, es[1])
    requires es[2].Proven? && es[2].kind == Transaction && es[2].pi in st1.pendingTx && es[2].pi != es[1].pi
    requires |st1.stateLeaves| < Pow2(st1.depth) && n !in st1.spent && n in ns && HasNullifiers(es[1], ns)
    ensures var last := Run(st, es);
            n !in last.spent && n in last.pendingNull && last.pendingNull[n] == es[1].pi
  {
    RunUnfolds(st, es[..2], es[..1], es[1]);
    RunUnfolds(st, es, es[..2], es[2]);
    SecondThenProof(st1, Run(st, es[..2]), Run(st, es), es[1], es[2], ns, n);
  }

  lemma {:induction false} SecondThenProof(st1: Sync, st2: Sync, last: Sync, b: Event, p: Event, ns: seq<HashOutput>,
                                           n: HashOutput)
    requires EventReadable(b) && b.Submitted? && b.kind == Transaction && !Known(st1, b)
    requires EventReadable(p) && p.Proven? && p.kind == Transaction && p.pi in st1.pendingTx && p.pi != b.pi
    requires st2 == Step(st1, b) && last == Step(st2, p) && |st1.stateLeaves| < Pow2(st1.depth)
    requires n !in st1.spent && n in ns && HasNullifiers(b, ns)
    ensures n !in last.spent && n in last.pendingNull && last.pendingNull[n] == b.pi
  {
    SubmissionMarks(st1, st2, b, p.pi, ns, n);
    ProofLeavesOther(st2, last, p, b.pi, n);
  }

  lemma {:induction false} SubmissionSpendsNothing(st: Sync, st1: Sync, e: Event, other: Pi)
    requires EventReadable(e) && e.Submitted? && e.kind == Transaction && !Known(st, e) && other != e.pi
    requires st1 == Step(st, e)
    ensures e.pi in st1.pendingTx && (other in st1.pendingTx <==> other in st.pendingTx)
    ensures st1.confirmedTx == st.confirmedTx && st1.stateLeaves == st.stateLeaves && st1.depth == st.depth
    ensures st1.spent == st.spent
  {
    SubmissionIsApplied(st, e);
    AppliedFacts(st, st1, e.pi, e.pre, EventLeaves(e), EventNullifiers(e), other, ZERO, ZERO);
  }

  lemma {:induction false} ProofLeavesOther(st: Sync, st1: Sync, p: Event, other: Pi, n: HashOutput)
    requires EventReadable(p) && p.Proven? && p.kind == Transaction && p.pi in st.pendingTx && other != p.pi
    requires st1 == Step(st, p) && |st.stateLeaves| < Pow2(st.depth)
    requires n !in st.spent && n in st.pendingNull && st.pendingNull[n] == other
    ensures n !in st1.spent && n in st1.pendingNull && st1.pendingNull[n] == other
  {
    ProofOnlyConfirms(st, p);
    ConfirmFacts(st, st1, p.pi, p.newRoot, other, n, ZERO);
  }

  ghost predicate HasNullifiers(e: Event, ns: seq<HashOutput>) {
    EventReadable(e) && ns == EventNullifiers(e)
  }

  lemma {:induction false} SubmissionMarks(st: Sync, st1: Sync, e: Event, other: Pi, ns: seq<HashOutput>, n: HashOutput)
    requires EventReadable(e) && e.Submitted? && e.kind == Transaction && !Known(st, e) && other != e.pi
    requires st1 == Step(st, e) && HasNullifiers(e, ns) && n in ns
    ensures e.pi in st1.pendingTx && (other in st1.pendingTx <==> other in st.pendingTx)
    ensures st1.confirmedTx == st.confirmedTx && st1.stateLeaves == st.stateLeaves && st1.depth == st.depth
    ensures st1.spent == st.spent && n in st1.pendingNull && st1.pendingNull[n] == e.pi
  {
    SubmissionIsApplied(st, e);
    AppliedFacts(st, st1, e.pi, e.pre, EventLeaves(e), ns, other, n, ZERO);
  }

  /** A batch is submitted and proven, then submitted under another commitment: its leaves are pending again. */
  lemma {:induction false} ReprintedCommitmentRun(st: Sync, es: seq<Event>, leaves: seq<HashOutput>, c: HashOutput)
    requires TwoBatches(st, es, 0, 2, 1) && HasLeaves(es[0], leaves) && HasLeaves(es[2], leaves) && c in leaves
    ensures IsConfirmed(Run(st, es[..2]), c)
    ensures var last := Run(st, es);
            c in last.located && !last.located[c].confirmed && last.located[c].pi == es[2].pi
  {
    var st1, st2, last := Run(st, es[..1]), Run(st, es[..2]), Run(st, es);
    RunThree(st, es);
    SubmissionLocates(st, st1, es[0], es[2].pi, leaves, c);
    ProofOnlyConfirms(st1, es[1]);
    ConfirmFacts(st1, st2, es[0].pi, es[1].newRoot, es[2].pi, ZERO, c);
    SubmissionLocates(st2, last, es[2], es[0].pi, leaves, c);
  }

  ghost predicate HasLeaves(e: Event, leaves: seq<HashOutput>) {
    EventReadable(e) && leaves == EventLeaves(e)
  }

  lemma {:induction false} SubmissionLocates(st: Sync, st1: Sync, e: Event, other: Pi, leaves: seq<HashOutput>,
                                             c: HashOutput)
    requires EventReadable(e) && e.Submitted? && e.kind == Transaction && !Known(st, e) && other != e.pi
    requires st1 == Step(st, e) && HasLeaves(e, leaves) && c in leaves
    ensures e.pi in st1.pendingTx && (other in st1.pendingTx <==> other in st.pendingTx)
    ensures st1.confirmedTx == st.confirmedTx && st1.stateLeaves == st.stateLeaves && st1.depth == st.depth
    ensures c in st1.located && st1.located[c].pi == e.pi && !st1.located[c].confirmed
  {
    SubmissionIsApplied(st, e);
    AppliedFacts(st, st1, e.pi, e.pre, leaves, EventNullifiers(e), other, ZERO, c);
  }

  // --- a printed batch for both ---------------------------------------------------------------------------

  const ONE: HashOutput := [1, 1, 1, 1]

  /** 64 private proofs, none of them fake, whose public inputs are all one. */
  function Ones(): (r: seq<Proof>)
    ensures IsOnes(r)
  {
    seq(64, _ => Proof(Private, seq(73, _ => 1)))
  }

  ghost predicate IsOnes(proofs: seq<Proof>) {
    PrivateBatch(proofs) && forall i | 0 <= i < 64 :: proofs[i].pis == seq(73, _ => 1)
  }

  lemma {:induction false} FirstNullifier(proofs: seq<Proof>, n: nat)
    requires AllWellFormed(proofs) && 0 < n <= |proofs| && proofs[0].pis[8] != 0
    ensures proofs[0].pis[9..13] in AllNullifiers(proofs, n)
  {
    if n > 1 {
      FirstNullifier(proofs, n - 1);
    } else {
      assert ProofNullifiers(proofs[0])[0] == proofs[0].pis[9..13];
    }
  }

  lemma {:induction false} OnesContents(proofs: seq<Proof>)
    requires IsOnes(proofs)
    ensures ONE in Leaves(proofs) && ONE in AllNullifiers(proofs, |proofs|)
  {
    var p := proofs[0];
    assert p.pis[13..17] == ONE && p.pis[9..13] == ONE;
    LeafAt(proofs, 0, 0);
    assert OutputCommitments(p)[0] == ONE;
    FirstNullifier(proofs, |proofs|);
  }

  /**
  Every event that carries this printed batch can be read, and holds `ONE` as a commitment and as a
  nullifier: events of both runs above.
  */
  lemma {:induction false} OnesParse(h: Hasher<HashOutput>, proofs: seq<Proof>, e: Event)
    requires IsOnes(proofs)
    requires e.kind == Transaction && e.pre == PrintFields(Fields(RootOf(h, Leaves(proofs), 9), proofs))
    ensures EventReadable(e) && ONE in EventLeaves(e) && ONE in EventNullifiers(e)
  {
    OnesContents(proofs);
    PrintedEventParses(h, e, proofs);
  }
}
