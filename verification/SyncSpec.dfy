/**
The sync state as a value, its transitions, and what holds after every run of submissions and
proofs. A tree is represented by its leaves. A batch is named by its commitment `pi`; `content`
and `rootOf` give the leaves and the header root that the preimage of a commitment carries.
*/
module SyncSpec {
  import opened Arith
  import opened MachineWords
  import opened Encoding
  import opened MerkleSpec
  import opened BatchParser

  type Pi = seq<byte>

  datatype Location = Location(pi: Pi, leafIndex: nat, confirmed: bool)

  datatype BatchKind = Transaction | BridgeTx

  datatype Sync = Sync(
    depth: nat,
    stateLeaves: seq<HashOutput>,
    rootIndex: map<seq<byte>, nat>,
    located: map<HashOutput, Location>,
    roots: set<HashOutput>,
    pendingLeaves: map<Pi, seq<HashOutput>>,
    subtrees: map<Pi, seq<HashOutput>>,
    batchRoots: map<Pi, HashOutput>,
    pendingTx: map<Pi, seq<byte>>,
    pendingBridge: map<Pi, seq<byte>>,
    confirmedTx: set<Pi>,
    confirmedBridge: set<Pi>,
    spent: set<HashOutput>,
    pendingNull: map<HashOutput, Pi>)

  /** `StateSyncState::new` */
  function Initial(h: Hasher<HashOutput>, depth: nat): Sync {
    Sync(depth, [], map[], map[], {RootOf(h, [], depth)}, map[], map[], map[], map[], map[], {}, {}, {}, map[])
  }

  // --- transitions ------------------------------------------------------------------------------------

  /** 512 default leaves. */
  function Blank(): (r: seq<HashOutput>)
    ensures |r| == 512 && forall i | 0 <= i < 512 :: r[i] == ZERO
  {
    seq(512, _ => ZERO)
  }

  function LeavesOf(pending: map<Pi, seq<HashOutput>>, pi: Pi): seq<HashOutput> {
    if pi in pending then pending[pi] else Blank()
  }

  /** `add_pending_commitment`, on the leaves of pending batches. */
  function PutLeaf(pending: map<Pi, seq<HashOutput>>, pi: Pi, c: HashOutput, i: nat): map<Pi, seq<HashOutput>> {
    var leaves := LeavesOf(pending, pi);
    pending[pi := if i < 512 && i < |leaves| then leaves[i := c] else leaves]
  }

  /** The first `n` leaves of a batch, in order. */
  function PutLeaves(pending: map<Pi, seq<HashOutput>>, pi: Pi, leaves: seq<HashOutput>,
                     n: nat): map<Pi, seq<HashOutput>>
    requires n <= |leaves|
    decreases |leaves|, n
  {
    if n == 0 then pending else PutLeaf(PutLeaves(pending, pi, leaves, n - 1), pi, leaves[n - 1], n - 1)
  }

  /** Where the first `n` commitments of a batch are found from now on. */
  function Locate(located: map<HashOutput, Location>, pi: Pi, leaves: seq<HashOutput>,
                  n: nat): map<HashOutput, Location>
    requires n <= |leaves|
    decreases |leaves|, n
  {
    if n == 0 then located else Locate(located, pi, leaves, n - 1)[leaves[n - 1] := Location(pi, n - 1, false)]
  }

  function AddCommitments(st: Sync, pi: Pi, leaves: seq<HashOutput>): Sync {
    st.(located := Locate(st.located, pi, leaves, |leaves|),
        pendingLeaves := PutLeaves(st.pendingLeaves, pi, leaves, |leaves|))
  }

  /** `add_pending_nullifier`, for several nullifiers in order. */
  function Mark(pendingNull: map<HashOutput, Pi>, pi: Pi, ns: seq<HashOutput>): map<HashOutput, Pi> {
    if |ns| == 0 then pendingNull else Mark(pendingNull, pi, ns[..|ns| - 1])[ns[|ns| - 1] := pi]
  }

  function AddNullifiers(st: Sync, pi: Pi, ns: seq<HashOutput>): Sync {
    st.(pendingNull := Mark(st.pendingNull, pi, ns))
  }

  /** The preimage of a pending batch is recorded under its kind. */
  function Record(st: Sync, kind: BatchKind, pi: Pi, pre: seq<byte>): Sync {
    match kind
    case Transaction => st.(pendingTx := st.pendingTx[pi := pre])
    case BridgeTx => st.(pendingBridge := st.pendingBridge[pi := pre])
  }

  /** Both `apply_*_preimage` functions, on what they read from the preimage. */
  function Applied(st: Sync, kind: BatchKind, pi: Pi, pre: seq<byte>, leaves: seq<HashOutput>,
                   ns: seq<HashOutput>): Sync
    requires |leaves| == 512
  {
    Record(AddNullifiers(AddCommitments(st, pi, leaves), pi, ns), kind, pi, pre)
  }

  /** The commitments of a batch are confirmed. */
  function AllConfirmed(located: map<HashOutput, Location>, pi: Pi): map<HashOutput, Location> {
    map c | c in located :: if located[c].pi == pi then located[c].(confirmed := true) else located[c]
  }

  /** The pending nullifiers of a batch, and those of the other batches. */
  function PendingFor(pendingNull: map<HashOutput, Pi>, pi: Pi): set<HashOutput> {
    set n | n in pendingNull && pendingNull[n] == pi
  }

  function OthersPending(pendingNull: map<HashOutput, Pi>, pi: Pi): map<HashOutput, Pi> {
    map n | n in pendingNull && pendingNull[n] != pi :: pendingNull[n]
  }

  /** `insert_state_tree_leaf`, when the state tree has room. */
  function PutRoot(st: Sync, root: HashOutput): Sync {
    st.(stateLeaves := st.stateLeaves + [root], rootIndex := st.rootIndex[HashBytes(root) := |st.stateLeaves|])
  }

  /** The pending leaves of a batch, if any, become its subtree. */
  function SettleLeaves(st: Sync, pi: Pi): Sync {
    if pi in st.pendingLeaves then
      st.(subtrees := st.subtrees[pi := st.pendingLeaves[pi]], pendingLeaves := st.pendingLeaves - {pi})
    else st
  }

  /** The batch moves from pending to confirmed, under the kind it is found. */
  function MoveBatch(st: Sync, pi: Pi): Sync {
    var tx, bridge := pi in st.pendingTx, pi !in st.pendingTx && pi in st.pendingBridge;
    st.(pendingTx := st.pendingTx - {pi},
        confirmedTx := if tx then st.confirmedTx + {pi} else st.confirmedTx,
        pendingBridge := if bridge then st.pendingBridge - {pi} else st.pendingBridge,
        confirmedBridge := if bridge then st.confirmedBridge + {pi} else st.confirmedBridge)
  }

  /** Its commitments and nullifiers become confirmed. */
  function Settle(st: Sync, pi: Pi, root: HashOutput, newRoot: HashOutput): Sync {
    MoveBatch(
      st.(batchRoots := st.batchRoots[pi := root],
          located := AllConfirmed(st.located, pi),
          pendingNull := OthersPending(st.pendingNull, pi),
          spent := st.spent + PendingFor(st.pendingNull, pi),
          roots := st.roots + {newRoot}), pi)
  }

  /** `confirm_batch`, when the state tree has room. */
  function Confirm(st: Sync, pi: Pi, root: HashOutput, newRoot: HashOutput): Sync {
    Settle(SettleLeaves(PutRoot(st, root), pi), pi, root, newRoot)
  }

  // --- runs --------------------------------------------------------------------------------------------

  /** A submission event with its preimage, or a proven event with the preimage a fallback search finds. */
  datatype Event = Submitted(kind: BatchKind, pi: Pi, pre: seq<byte>)
                 | Proven(kind: BatchKind, pi: Pi, pre: seq<byte>, newRoot: HashOutput)

  ghost predicate EventReadable(e: Event) {
    match e.kind
    case Transaction => TxReadable(e.pre)
    case BridgeTx => BridgeReadable(e.pre)
  }

  function EventLeaves(e: Event): (r: seq<HashOutput>)
    requires EventReadable(e)
    ensures |r| == 512
  {
    match e.kind
    case Transaction => TxLeaves(e.pre)
    case BridgeTx => BridgeLeaves(e.pre)
  }

  function EventNullifiers(e: Event): seq<HashOutput>
    requires EventReadable(e)
  {
    match e.kind
    case Transaction => TxNullifiers(e.pre, 64)
    case BridgeTx => BridgeNullifiers(e.pre, 512)
  }

  function ApplyEvent(st: Sync, e: Event): Sync
    requires EventReadable(e)
  {
    Applied(st, e.kind, e.pi, e.pre, EventLeaves(e), EventNullifiers(e))
  }

  predicate Known(st: Sync, e: Event) {
    match e.kind
    case Transaction => e.pi in st.pendingTx || e.pi in st.confirmedTx
    case BridgeTx => e.pi in st.pendingBridge || e.pi in st.confirmedBridge
  }

  function PendingOf(st: Sync, kind: BatchKind): map<Pi, seq<byte>> {
    match kind
    case Transaction => st.pendingTx
    case BridgeTx => st.pendingBridge
  }

  /** The root in the header of a preimage; the service only records readable ones. */
  ghost function HeaderRoot(pre: seq<byte>): HashOutput {
    if Readable(pre, 0) then DigestOf(pre, 0) else ZERO
  }

  /** Confirm a batch that is on record, if the state tree has room. */
  ghost function ConfirmKnown(st: Sync, kind: BatchKind, pi: Pi, newRoot: HashOutput): Sync {
    if pi !in PendingOf(st, kind) || |st.stateLeaves| >= Pow2(st.depth) then st
    else Confirm(st, pi, HeaderRoot(PendingOf(st, kind)[pi]), newRoot)
  }

  /** Whether the preimage of an event is parsed: the batch is not on record yet. */
  predicate StepApplies(st: Sync, e: Event) {
    match e
    case Submitted(_, _, _) => !Known(st, e)
    case Proven(_, pi, _, _) => pi !in st.pendingTx && pi !in st.pendingBridge
  }

  function Prepared(st: Sync, e: Event): Sync
    requires EventReadable(e)
  {
    if StepApplies(st, e) then ApplyEvent(st, e) else st
  }

  /** One event of `process_new_submissions`, or one entry of the loop over proven batches. */
  ghost function Step(st: Sync, e: Event): Sync
    requires EventReadable(e)
  {
    match e
    case Submitted(_, _, _) => Prepared(st, e)
    case Proven(kind, pi, _, newRoot) => ConfirmKnown(Prepared(st, e), kind, pi, newRoot)
  }

  /** A batch on record cannot be confirmed when the state tree is full. */
  ghost predicate ConfirmFails(st: Sync, kind: BatchKind, pi: Pi) {
    pi in PendingOf(st, kind) && |st.stateLeaves| >= Pow2(st.depth)
  }

  /** An event fails exactly when it is a proof of a batch that is then on record and cannot be confirmed. */
  ghost predicate Fails(st: Sync, e: Event)
    requires EventReadable(e)
  {
    e.Proven? && ConfirmFails(Prepared(st, e), e.kind, e.pi)
  }

  ghost predicate HeadersReadable(pending: map<Pi, seq<byte>>) {
    forall pi | pi in pending :: Readable(pending[pi], 0)
  }

  ghost predicate RecordsReadable(st: Sync) {
    HeadersReadable(st.pendingTx) && HeadersReadable(st.pendingBridge)
  }

  /** Every recorded preimage keeps a header that can be read, so no confirmation panics. */
  lemma {:induction false} StepKeepsRecords(st: Sync, e: Event)
    requires EventReadable(e) && RecordsReadable(st)
    ensures RecordsReadable(Prepared(st, e)) && RecordsReadable(Step(st, e))
  {
    PreparedKeepsRecords(st, e);
    if e.Proven? {
      ConfirmKnownKeepsRecords(Prepared(st, e), e.kind, e.pi, e.newRoot);
    }
  }

  lemma {:induction false} PreparedKeepsRecords(st: Sync, e: Event)
    requires EventReadable(e) && RecordsReadable(st)
    ensures RecordsReadable(Prepared(st, e))
  {
    AppliedKeepsRecords(st, e.kind, e.pi, e.pre, EventLeaves(e), EventNullifiers(e));
  }

  lemma {:induction false} AppliedKeepsRecords(st: Sync, kind: BatchKind, pi: Pi, pre: seq<byte>,
                                               leaves: seq<HashOutput>, ns: seq<HashOutput>)
    requires RecordsReadable(st) && |leaves| == 512 && Readable(pre, 0)
    ensures RecordsReadable(Applied(st, kind, pi, pre, leaves, ns))
  {
  }

  lemma {:induction false} ConfirmKnownKeepsRecords(st: Sync, kind: BatchKind, pi: Pi, newRoot: HashOutput)
    requires RecordsReadable(st)
    ensures RecordsReadable(ConfirmKnown(st, kind, pi, newRoot))
  {
  }

  ghost predicate AllReadable(es: seq<Event>) {
    forall i | 0 <= i < |es| :: EventReadable(es[i])
  }

  /** The state after a run of events. */
  ghost function Run(st: Sync, es: seq<Event>): Sync
    requires AllReadable(es)
  {
    if |es| == 0 then st else Step(Run(st, es[..|es| - 1]), es[|es| - 1])
  }

  /** None of the first `n` events of a run fails. */
  ghost predicate NoneFails(st: Sync, es: seq<Event>, n: nat)
    requires AllReadable(es) && n <= |es|
  {
    forall i | 0 <= i < n :: !Fails(Run(st, es[..i]), es[i])
  }

  /** A window of events is handled to its end, or up to and including the first event that fails. */
  ghost predicate StopsAt(st: Sync, es: seq<Event>, done: nat)
    requires AllReadable(es)
  {
    && done <= |es|
    && (|| (done == |es| && NoneFails(st, es, done))
        || (done > 0 && NoneFails(st, es, done - 1) && Fails(Run(st, es[..done - 1]), es[done - 1])))
  }

  lemma {:induction false} StopsOnce(st: Sync, es: seq<Event>, a: nat, b: nat)
    requires AllReadable(es) && StopsAt(st, es, a) && StopsAt(st, es, b)
    ensures a == b
  {
  }

  // --- the invariant -------------------------------------------------------------------------------------

  ghost predicate LocationOk(st: Sync, content: Pi -> seq<HashOutput>, c: HashOutput, l: Location) {
    && |content(l.pi)| == 512 && l.leafIndex < 512 && content(l.pi)[l.leafIndex] == c
    && (l.pi in st.pendingLeaves || l.pi in st.subtrees)
    && (l.confirmed ==> l.pi in st.subtrees && l.pi in st.batchRoots)
  }

  ghost predicate LeavesMatch(leaves: map<Pi, seq<HashOutput>>, content: Pi -> seq<HashOutput>) {
    forall pi | pi in leaves :: leaves[pi] == content(pi) && |leaves[pi]| == 512
  }

  ghost predicate IndexOk(stateLeaves: seq<HashOutput>, rootIndex: map<seq<byte>, nat>) {
    forall k | k in rootIndex :: rootIndex[k] < |stateLeaves| && HashBytes(stateLeaves[rootIndex[k]]) == k
  }

  ghost predicate HeadersMatch(pending: map<Pi, seq<byte>>, rootOf: Pi -> HashOutput) {
    forall pi | pi in pending :: HeaderRoot(pending[pi]) == rootOf(pi)
  }

  ghost predicate Inv(st: Sync, content: Pi -> seq<HashOutput>, rootOf: Pi -> HashOutput) {
    && |st.stateLeaves| <= Pow2(st.depth)
    && LeavesMatch(st.pendingLeaves, content) && LeavesMatch(st.subtrees, content)
    && (forall c | c in st.located :: LocationOk(st, content, c, st.located[c]))
    && (forall pi | pi in st.batchRoots :: st.batchRoots[pi] == rootOf(pi) && HashBytes(rootOf(pi)) in st.rootIndex)
    && IndexOk(st.stateLeaves, st.rootIndex)
    && HeadersMatch(st.pendingTx, rootOf) && HeadersMatch(st.pendingBridge, rootOf)
  }

  /** The preimage of an event is the one its commitment stands for. */
  ghost predicate EventOk(e: Event, content: Pi -> seq<HashOutput>, rootOf: Pi -> HashOutput) {
    EventReadable(e) && EventLeaves(e) == content(e.pi) && HeaderRoot(e.pre) == rootOf(e.pi)
  }

  ghost predicate AllFull(pending: map<Pi, seq<HashOutput>>) {
    forall pi | pi in pending :: |pending[pi]| == 512
  }

  lemma {:induction false} PutLeafFull(pending: map<Pi, seq<HashOutput>>, pi: Pi, c: HashOutput, i: nat)
    requires AllFull(pending)
    ensures AllFull(PutLeaf(pending, pi, c, i))
  {
  }

  /** After `n` leaves the batch holds them, and every other batch is as before. */
  lemma {:induction false} PutLeavesEffect(pending: map<Pi, seq<HashOutput>>, pi: Pi, leaves: seq<HashOutput>, n: nat)
    requires 0 < n <= |leaves| == 512 && AllFull(pending)
    ensures var now := PutLeaves(pending, pi, leaves, n);
            && AllFull(now) && now.Keys == pending.Keys + {pi}
            && now[pi][..n] == leaves[..n]
            && forall p | p in pending && p != pi :: now[p] == pending[p]
  {
    var was := PutLeaves(pending, pi, leaves, n - 1);
    if n > 1 {
      PutLeavesEffect(pending, pi, leaves, n - 1);
    }
    assert LeavesOf(was, pi)[..n - 1] == leaves[..n - 1];
    assert leaves[..n] == leaves[..n - 1] + [leaves[n - 1]];
    var now := PutLeaves(pending, pi, leaves, n);
    assert now[pi] == LeavesOf(was, pi)[n - 1 := leaves[n - 1]];
    assert now[pi][..n] == LeavesOf(was, pi)[..n - 1] + [leaves[n - 1]];
  }

  /** A located commitment is where it was, or at an index of the new batch that holds it. */
  lemma {:induction false} LocateEffect(located: map<HashOutput, Location>, pi: Pi, leaves: seq<HashOutput>, n: nat,
                                        c: HashOutput)
    requires n <= |leaves|
    ensures var now := Locate(located, pi, leaves, n);
            c in now ==>
              || (c in located && now[c] == located[c])
              || (now[c].pi == pi && !now[c].confirmed && now[c].leafIndex < n && leaves[now[c].leafIndex] == c)
  {
    if n > 0 {
      LocateEffect(located, pi, leaves, n - 1, c);
    }
  }

  lemma {:induction false} MarkEffect(pendingNull: map<HashOutput, Pi>, pi: Pi, ns: seq<HashOutput>)
    ensures var now := Mark(pendingNull, pi, ns);
            && now.Keys == pendingNull.Keys + (set n | n in ns)
            && (forall n | n in ns :: now[n] == pi)
            && forall n | n in pendingNull && n !in ns :: now[n] == pendingNull[n]
  {
    if |ns| > 0 {
      var rest, last := ns[..|ns| - 1], ns[|ns| - 1];
      MarkEffect(pendingNull, pi, rest);
      assert ns == rest + [last];
      assert (set n | n in ns) == (set n | n in rest) + {last};
    }
  }

  /** Applying all 512 leaves of a batch keeps the invariant. */
  lemma {:induction false} CommitmentsKeepInv(st: Sync, pi: Pi, leaves: seq<HashOutput>,
                                              content: Pi -> seq<HashOutput>, rootOf: Pi -> HashOutput)
    requires Inv(st, content, rootOf) && |leaves| == 512 && leaves == content(pi)
    ensures Inv(AddCommitments(st, pi, leaves), content, rootOf)
  {
    PutLeavesEffect(st.pendingLeaves, pi, leaves, |leaves|);
    var st' := AddCommitments(st, pi, leaves);
    assert st'.pendingLeaves[pi] == leaves by {
      assert st'.pendingLeaves[pi][..512] == st'.pendingLeaves[pi] && leaves[..512] == leaves;
    }
    forall c | c in st'.located ensures LocationOk(st', content, c, st'.located[c]) {
      LocateEffect(st.located, pi, leaves, |leaves|, c);
      if c in st.located && st'.located[c] == st.located[c] {
        assert LocationOk(st, content, c, st.located[c]);
      }
    }
  }

  lemma {:induction false} NullifiersKeepInv(st: Sync, pi: Pi, ns: seq<HashOutput>, content: Pi -> seq<HashOutput>,
                                             rootOf: Pi -> HashOutput)
    requires Inv(st, content, rootOf)
    ensures Inv(AddNullifiers(st, pi, ns), content, rootOf)
  {
    var st' := AddNullifiers(st, pi, ns);
    forall c | c in st'.located ensures LocationOk(st', content, c, st'.located[c]) {
      assert LocationOk(st, content, c, st.located[c]);
    }
  }

  lemma {:induction false} RecordKeepsInv(st: Sync, kind: BatchKind, pi: Pi, pre: seq<byte>,
                                          content: Pi -> seq<HashOutput>, rootOf: Pi -> HashOutput)
    requires Inv(st, content, rootOf) && HeaderRoot(pre) == rootOf(pi)
    ensures Inv(Record(st, kind, pi, pre), content, rootOf)
  {
    var st' := Record(st, kind, pi, pre);
    assert HeadersMatch(st'.pendingTx, rootOf) && HeadersMatch(st'.pendingBridge, rootOf);
    forall c | c in st'.located ensures LocationOk(st', content, c, st'.located[c]) {
      assert LocationOk(st, content, c, st.located[c]);
    }
  }

  lemma {:induction false} AppliedKeepsInv(st: Sync, kind: BatchKind, pi: Pi, pre: seq<byte>, leaves: seq<HashOutput>,
                                           ns: seq<HashOutput>,
                                           content: Pi -> seq<HashOutput>, rootOf: Pi -> HashOutput)
    requires Inv(st, content, rootOf) && |leaves| == 512 && leaves == content(pi) && HeaderRoot(pre) == rootOf(pi)
    ensures Inv(Applied(st, kind, pi, pre, leaves, ns), content, rootOf)
  {
    var mid := AddCommitments(st, pi, leaves);
    CommitmentsKeepInv(st, pi, leaves, content, rootOf);
    NullifiersKeepInv(mid, pi, ns, content, rootOf);
    RecordKeepsInv(AddNullifiers(mid, pi, ns), kind, pi, pre, content, rootOf);
  }

  lemma {:induction false} InsertKeepsIndex(stateLeaves: seq<HashOutput>, rootIndex: map<seq<byte>, nat>,
                                            root: HashOutput)
    requires IndexOk(stateLeaves, rootIndex)
    ensures IndexOk(stateLeaves + [root], rootIndex[HashBytes(root) := |stateLeaves|])
  {
  }

  lemma {:induction false} PutRootKeepsInv(st: Sync, root: HashOutput, content: Pi -> seq<HashOutput>,
                                           rootOf: Pi -> HashOutput)
    requires Inv(st, content, rootOf) && |st.stateLeaves| < Pow2(st.depth)
    ensures Inv(PutRoot(st, root), content, rootOf)
  {
    var st' := PutRoot(st, root);
    InsertKeepsIndex(st.stateLeaves, st.rootIndex, root);
    forall c | c in st'.located ensures LocationOk(st', content, c, st'.located[c]) {
      assert LocationOk(st, content, c, st.located[c]);
    }
  }

  lemma {:induction false} SettleLeavesKeepsInv(st: Sync, pi: Pi, content: Pi -> seq<HashOutput>,
                                                rootOf: Pi -> HashOutput)
    requires Inv(st, content, rootOf)
    ensures Inv(SettleLeaves(st, pi), content, rootOf)
    ensures pi !in SettleLeaves(st, pi).pendingLeaves
  {
    var st' := SettleLeaves(st, pi);
    assert LeavesMatch(st'.pendingLeaves, content) && LeavesMatch(st'.subtrees, content);
    forall c | c in st'.located ensures LocationOk(st', content, c, st'.located[c]) {
      assert LocationOk(st, content, c, st.located[c]);
    }
  }

  lemma {:induction false} MoveBatchKeepsInv(st: Sync, pi: Pi, content: Pi -> seq<HashOutput>, rootOf: Pi -> HashOutput)
    requires Inv(st, content, rootOf)
    ensures Inv(MoveBatch(st, pi), content, rootOf)
  {
    var st' := MoveBatch(st, pi);
    forall c | c in st'.located ensures LocationOk(st', content, c, st'.located[c]) {
      assert LocationOk(st, content, c, st.located[c]);
    }
    assert HeadersMatch(st'.pendingTx, rootOf) && HeadersMatch(st'.pendingBridge, rootOf);
  }

  lemma {:induction false} SettleKeepsInv(st: Sync, pi: Pi, root: HashOutput, newRoot: HashOutput,
                                          content: Pi -> seq<HashOutput>, rootOf: Pi -> HashOutput)
    requires Inv(st, content, rootOf) && pi !in st.pendingLeaves && root == rootOf(pi)
        && HashBytes(root) in st.rootIndex
    ensures Inv(Settle(st, pi, root, newRoot), content, rootOf)
  {
    var mid := st.(batchRoots := st.batchRoots[pi := root],
                   located := AllConfirmed(st.located, pi),
                   pendingNull := OthersPending(st.pendingNull, pi),
                   spent := st.spent + PendingFor(st.pendingNull, pi),
                   roots := st.roots + {newRoot});
    forall c | c in mid.located ensures LocationOk(mid, content, c, mid.located[c]) {
      assert LocationOk(st, content, c, st.located[c]);
    }
    MoveBatchKeepsInv(mid, pi, content, rootOf);
  }

  lemma {:induction false} ConfirmKeepsInv(st: Sync, pi: Pi, root: HashOutput, newRoot: HashOutput,
                                           content: Pi -> seq<HashOutput>, rootOf: Pi -> HashOutput)
    requires Inv(st, content, rootOf) && |st.stateLeaves| < Pow2(st.depth) && root == rootOf(pi)
    ensures Inv(Confirm(st, pi, root, newRoot), content, rootOf)
  {
    var grown := PutRoot(st, root);
    PutRootKeepsInv(st, root, content, rootOf);
    SettleLeavesKeepsInv(grown, pi, content, rootOf);
    SettleKeepsInv(SettleLeaves(grown, pi), pi, root, newRoot, content, rootOf);
  }

  lemma {:induction false} ConfirmKnownKeepsInv(st: Sync, kind: BatchKind, pi: Pi, newRoot: HashOutput,
                                                content: Pi -> seq<HashOutput>, rootOf: Pi -> HashOutput)
    requires Inv(st, content, rootOf)
    ensures Inv(ConfirmKnown(st, kind, pi, newRoot), content, rootOf)
  {
    if pi in PendingOf(st, kind) && |st.stateLeaves| < Pow2(st.depth) {
      assert HeaderRoot(PendingOf(st, kind)[pi]) == rootOf(pi);
      ConfirmKeepsInv(st, pi, rootOf(pi), newRoot, content, rootOf);
    }
  }

  /** Every event keeps the invariant. */
  lemma {:induction false} StepKeepsInv(st: Sync, e: Event, content: Pi -> seq<HashOutput>, rootOf: Pi -> HashOutput)
    requires Inv(st, content, rootOf) && EventOk(e, content, rootOf)
    ensures Inv(Step(st, e), content, rootOf)
  {
    AppliedKeepsInv(st, e.kind, e.pi, e.pre, EventLeaves(e), EventNullifiers(e), content, rootOf);
    if e.Proven? {
      ConfirmKnownKeepsInv(Prepared(st, e), e.kind, e.pi, e.newRoot, content, rootOf);
    }
  }

  ghost predicate AllOk(es: seq<Event>, content: Pi -> seq<HashOutput>, rootOf: Pi -> HashOutput) {
    forall i | 0 <= i < |es| :: EventOk(es[i], content, rootOf)
  }

  /** So does every run. */
  lemma {:induction false} RunKeepsInv(st: Sync, es: seq<Event>, content: Pi -> seq<HashOutput>,
                                       rootOf: Pi -> HashOutput)
    requires Inv(st, content, rootOf) && AllOk(es, content, rootOf) && AllReadable(es)
    ensures Inv(Run(st, es), content, rootOf)
  {
    if |es| > 0 {
      var n := |es| - 1;
      RunKeepsInv(st, es[..n], content, rootOf);
      StepKeepsInv(Run(st, es[..n]), es[n], content, rootOf);
    }
  }

  lemma {:induction false} InitialInv(h: Hasher<HashOutput>, depth: nat, content: Pi -> seq<HashOutput>,
                                      rootOf: Pi -> HashOutput)
    ensures Inv(Initial(h, depth), content, rootOf)
  {
  }
}
