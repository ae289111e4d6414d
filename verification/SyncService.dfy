/**
What a client of the sync service is told after any run: the answers of the state object, read off
the events it has handled.
*/
module SyncService {
  import opened Arith
  import opened Encoding
  import opened MerkleSpec
  import opened Merkle
  import opened SyncSpec
  import opened SyncTheorems
  import opened SyncRuns
  import opened StateSync

  /** A new service that has handled a window of events. */
  method ServiceAfter(h: Hasher<HashOutput>, depth: nat, es: seq<Event>) returns (service: StateSyncState, done: nat)
    requires depth >= 1 && AllReadable(es)
    ensures fresh(service) && service.Valid() && service.h == h
    ensures StopsAt(Initial(h, depth), es, done) && service.Abs() == Run(Initial(h, depth), es[..done])
  {
    service := new StateSyncState(h, depth);
    var r;
    done, r := service.HandleAll(es);
  }

  /** The answer for a commitment: both paths start right, verify and, for printed batches, meet. */
  ghost predicate AnswerVerifies(h: Hasher<HashOutput>, status: CommitmentStatus, c: HashOutput, root: HashOutput,
                                 printed: bool)
    requires status.Confirmed?
  {
    var sub, top := status.batchSubtreePath, status.stateTreePath;
    && sub.leaf == c && Fold(h, sub.leaf, sub.siblings, sub.path) == sub.root
    && top.leaf == root && Fold(h, top.leaf, top.siblings, top.path) == top.root
    && (printed ==> sub.root == top.leaf)
  }

  /**
  A commitment is answered with two verifying paths exactly when some handled event confirmed the batch
  that had located it last and no later one brought it again; it is unknown exactly when no handled
  event brought it.
  */
  method CommitmentAfterRun(h: Hasher<HashOutput>, depth: nat, es: seq<Event>, c: HashOutput,
                            ghost content: Pi -> seq<HashOutput>, ghost rootOf: Pi -> HashOutput)
    returns (status: CommitmentStatus, done: nat)
    requires depth >= 1 && AllReadable(es) && AllOk(es, content, rootOf)
    ensures StopsAt(Initial(h, depth), es, done)
    ensures status.Confirmed? <==>
              Since(Confirming(Initial(h, depth), es[..done], c), Bringing(Initial(h, depth), es[..done], c))
    ensures status.NotFound? <==> LastLocator(Initial(h, depth), es[..done], c).None?
    ensures status.Pending? ==> LastLocator(Initial(h, depth), es[..done], c) == Some(status.pi)
    ensures status.Confirmed? ==>
              var pi := LastLocator(Initial(h, depth), es[..done], c).value;
              AnswerVerifies(h, status, c, rootOf(pi), rootOf(pi) == RootOf(h, content(pi), 9))
  {
    var service;
    service, done := ServiceAfter(h, depth, es);
    status := Ask(service, c);
    PrefixOk(es, done, content, rootOf);
    CommitmentAnswer(h, depth, es[..done], service.Abs(), c, status, content, rootOf);
  }

  lemma {:induction false} PrefixOk(es: seq<Event>, n: nat, content: Pi -> seq<HashOutput>, rootOf: Pi -> HashOutput)
    requires n <= |es| && AllReadable(es) && AllOk(es, content, rootOf)
    ensures AllReadable(es[..n]) && AllOk(es[..n], content, rootOf)
  {
  }

  /** What `get_commitment_status` answers in a state. */
  ghost predicate AnswerIn(h: Hasher<HashOutput>, st: Sync, c: HashOutput, status: CommitmentStatus) {
    && (status.Pending? <==> c in st.located && !st.located[c].confirmed)
    && (status.Pending? ==> status.pi == st.located[c].pi)
    && (status.Confirmed? <==> c in st.located && st.located[c].confirmed && Provable(st, c))
    && (status.Confirmed? ==>
          var pi := st.located[c].pi;
          && status.batchSubtreePath == ProofAt(h, st.subtrees[pi], 9, st.located[c].leafIndex)
          && status.stateTreePath
               == ProofAt(h, st.stateLeaves, st.depth, st.rootIndex[HashBytes(st.batchRoots[pi])]))
  }

  method Ask(service: StateSyncState, c: HashOutput) returns (status: CommitmentStatus)
    requires service.Valid()
    ensures AnswerIn(service.h, service.Abs(), c, status)
  {
    status := service.GetCommitmentStatus(c);
  }

  lemma {:induction false} CommitmentAnswer(h: Hasher<HashOutput>, depth: nat, es: seq<Event>, st: Sync, c: HashOutput,
                                            status: CommitmentStatus, content: Pi -> seq<HashOutput>,
                                            rootOf: Pi -> HashOutput)
    requires AllReadable(es) && AllOk(es, content, rootOf) && st == Run(Initial(h, depth), es)
    requires AnswerIn(h, st, c, status)
    ensures status.Confirmed? <==> Since(Confirming(Initial(h, depth), es, c), Bringing(Initial(h, depth), es, c))
    ensures status.NotFound? <==> LastLocator(Initial(h, depth), es, c).None?
    ensures status.Pending? ==> LastLocator(Initial(h, depth), es, c) == Some(status.pi)
    ensures status.Confirmed? ==>
              var pi := LastLocator(Initial(h, depth), es, c).value;
              AnswerVerifies(h, status, c, rootOf(pi), rootOf(pi) == RootOf(h, content(pi), 9))
  {
    ConfirmedExactly(Initial(h, depth), es, c);
    LocatedByLast(Initial(h, depth), es, c);
    if c in st.located && st.located[c].confirmed {
      ConfirmedAnswerVerifies(h, depth, es, content, rootOf, st, c);
    }
  }

  /**
  A nullifier is unknown exactly when no applied event brought it, and confirmed exactly when some
  event confirmed the batch that had brought it last; otherwise it is pending under that batch.
  */
  method NullifierAfterRun(h: Hasher<HashOutput>, depth: nat, es: seq<Event>, n: HashOutput)
    returns (status: Status, pi: Option<Pi>, done: nat)
    requires depth >= 1 && AllReadable(es)
    ensures StopsAt(Initial(h, depth), es, done)
    ensures status == IsUnknown <==> n !in Brought(Initial(h, depth), es[..done])
    ensures status == IsConfirmed <==> true in Spending(Initial(h, depth), es[..done], n)
    ensures status == IsPending ==> pi.Some? && pi == LastMarker(Initial(h, depth), es[..done], n)
  {
    var service;
    service, done := ServiceAfter(h, depth, es);
    status, pi := service.GetNullifierStatus(n);
    ghost var st0, handled := Initial(h, depth), es[..done];
    RunConservesNullifiers(st0, handled);
    SpentExactly(st0, handled, n);
    PendingUnderLastMarker(st0, handled, n);
  }

  /**
  A batch is unknown exactly when no event put it on record, so never after its submission, and
  confirmed exactly when some event confirmed it.
  */
  method BatchAfterRun(h: Hasher<HashOutput>, depth: nat, es: seq<Event>, pi: Pi, kind: BatchKind)
    returns (status: Status, done: nat)
    requires depth >= 1 && AllReadable(es)
    ensures StopsAt(Initial(h, depth), es, done)
    ensures status == IsUnknown <==> pi !in PutOnRecord(Initial(h, depth), es[..done], kind)
    ensures status == IsConfirmed <==> pi in ConfirmedBy(Initial(h, depth), es[..done], kind)
    ensures forall i | 0 <= i < done && es[i].Submitted? && es[i].pi == pi && es[i].kind == kind :: status != IsUnknown
  {
    var service;
    service, done := ServiceAfter(h, depth, es);
    status := service.GetBatchStatus(pi, kind);
    ghost var st, handled := Initial(h, depth), es[..done];
    RunRecords(st, handled, kind, pi);
    BatchConfirmedExactly(st, handled, kind, pi);
    forall i | 0 <= i < done && es[i].Submitted? && es[i].pi == pi && es[i].kind == kind ensures status != IsUnknown {
      SubmittedIsRecorded(st, handled, i, es[i]);
    }
  }

  /** The local state root is the one of the confirmed header roots, in the order of their events. */
  method StateRootAfterRun(h: Hasher<HashOutput>, depth: nat, es: seq<Event>,
                           ghost content: Pi -> seq<HashOutput>, ghost rootOf: Pi -> HashOutput)
    returns (root: HashOutput, done: nat)
    requires depth >= 1 && AllReadable(es) && AllOk(es, content, rootOf)
    ensures StopsAt(Initial(h, depth), es, done)
    ensures root == RootOf(h, ConfirmedRoots(Initial(h, depth), es[..done], rootOf), depth)
  {
    var service;
    service, done := ServiceAfter(h, depth, es);
    root := service.stateTree.Root();
    PrefixOk(es, done, content, rootOf);
    LocalRoot(h, depth, es[..done], service.Abs(), content, rootOf);
  }

  lemma {:induction false} LocalRoot(h: Hasher<HashOutput>, depth: nat, es: seq<Event>, st: Sync,
                                     content: Pi -> seq<HashOutput>, rootOf: Pi -> HashOutput)
    requires AllReadable(es) && AllOk(es, content, rootOf) && st == Run(Initial(h, depth), es)
    ensures RootOf(h, st.stateLeaves, st.depth) == RootOf(h, ConfirmedRoots(Initial(h, depth), es, rootOf), depth)
  {
    RunKeepsDepth(Initial(h, depth), es);
    InitialTreeMirrors(h, depth, es, content, rootOf);
  }
}
