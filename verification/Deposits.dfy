/**
The deposit index of the sync service. Logs are fetched in chunks of blocks and applied in three
passes per window: available, then validated, then withdrawn.
*/
module Deposits {
  import opened Arith

  datatype Status = Pending | Validated | Withdrawn

  datatype Record = Record(note: nat, value: nat, recipient: nat, asset: nat, block: nat, status: Status)

  datatype Kind = Becomes | Validates | Withdraws

  /** A deposit log; a log that makes a note available carries its record. */
  datatype Log = Available(record: Record) | Valid(note: nat) | Gone(note: nat)
  {
    function Kind(): Kind {
      match this
      case Available(_) => Becomes
      case Valid(_) => Validates
      case Gone(_) => Withdraws
    }

    function Note(): nat {
      match this
      case Available(r) => r.note
      case Valid(n) => n
      case Gone(n) => n
    }
  }

  type Block = seq<Log>
  type Index = map<nat, Record>

  // --- one window ---------------------------------------------------------------------------------------

  function SetStatus(m: Index, n: nat, s: Status): Index {
    if n in m then m[n := m[n].(status := s)] else m
  }

  /** The body of the loop for the log's kind. */
  function Apply(m: Index, log: Log): Index {
    match log
    case Available(r) => m[r.note := r.(status := Pending)]
    case Valid(n) => SetStatus(m, n, Validated)
    case Gone(n) => SetStatus(m, n, Withdrawn)
  }

  /** One pass: the logs of one kind, in order. */
  function Pass(m: Index, w: seq<Log>, k: Kind): Index {
    if |w| == 0 then m
    else
      var n := |w| - 1;
      var rest := Pass(m, w[..n], k);
      if w[n].Kind() == k then Apply(rest, w[n]) else rest
  }

  /** `sync_deposits` on the logs of a window. */
  function Window(m: Index, w: seq<Log>): Index {
    Pass(Pass(Pass(m, w, Becomes), w, Validates), w, Withdraws)
  }

  // --- fetching -------------------------------------------------------------------------------------------

  function Filter(w: seq<Log>, k: Kind): seq<Log> {
    if |w| == 0 then []
    else
      var rest, last := Filter(w[..|w| - 1], k), w[|w| - 1];
      if last.Kind() == k then rest + [last] else rest
  }

  lemma {:induction false} FilterKeepsKind(w: seq<Log>, k: Kind)
    ensures forall i | 0 <= i < |Filter(w, k)| :: Filter(w, k)[i].Kind() == k
  {
    if |w| > 0 {
      FilterKeepsKind(w[..|w| - 1], k);
    }
  }

  /** All logs of some blocks, in order. */
  function Concat(blocks: seq<Block>): seq<Log> {
    if |blocks| == 0 then [] else Concat(blocks[..|blocks| - 1]) + blocks[|blocks| - 1]
  }

  /** The blocks from `lo` up to `hi`; the chain has none beyond its end. */
  function Blocks(chain: seq<Block>, lo: nat, hi: nat): seq<Block> {
    if lo < hi && lo < |chain| then chain[lo..if hi < |chain| then hi else |chain|] else []
  }

  lemma {:induction false} FilterAppend(v: seq<Log>, w: seq<Log>, k: Kind)
    ensures Filter(v + w, k) == Filter(v, k) + Filter(w, k)
  {
    if |w| == 0 {
      assert v + w == v;
    } else {
      FilterAppend(v, w[..|w| - 1], k);
      assert (v + w)[..|v + w| - 1] == v + w[..|w| - 1];
    }
  }

  lemma {:induction false} ConcatAppend(a: seq<Block>, b: seq<Block>)
    ensures Concat(a + b) == Concat(a) + Concat(b)
  {
    if |b| == 0 {
      assert a + b == a;
    } else {
      ConcatAppend(a, b[..|b| - 1]);
      assert (a + b)[..|a + b| - 1] == a + b[..|b| - 1];
    }
  }

  /** What the provider answers: the logs of a kind in the blocks `lo` to `hi`, both included. */
  function GetLogs(chain: seq<Block>, k: Kind, lo: nat, hi: nat): seq<Log> {
    LogsBefore(chain, k, lo, hi + 1)
  }

  function LogsBefore(chain: seq<Block>, k: Kind, lo: nat, hi: nat): seq<Log> {
    Filter(Concat(Blocks(chain, lo, hi)), k)
  }

  lemma {:induction false} BlocksJoin(chain: seq<Block>, mid: nat, hi: nat)
    requires mid <= hi
    ensures Blocks(chain, 0, hi) == Blocks(chain, 0, mid) + Blocks(chain, mid, hi)
  {
  }

  /** Neighbouring ranges of blocks cover the joint range, each block once. */
  lemma {:induction false} RangesJoin(chain: seq<Block>, k: Kind, lo: nat, mid: nat, hi: nat)
    requires lo <= mid <= hi
    ensures LogsBefore(chain, k, lo, mid) + LogsBefore(chain, k, mid, hi) == LogsBefore(chain, k, lo, hi)
  {
    var a, b := Blocks(chain, lo, mid), Blocks(chain, mid, hi);
    assert Blocks(chain, lo, hi) == a + b;
    ConcatAppend(a, b);
    FilterAppend(Concat(a), Concat(b), k);
  }

  /** One page of `fetch_logs`. */
  method FetchPage(chain: seq<Block>, k: Kind, start: nat, end: nat, logs: seq<Log>, ghost first: nat)
    returns (all: seq<Log>)
    requires first <= start <= end && logs == LogsBefore(chain, k, first, start)
    ensures all == LogsBefore(chain, k, first, end + 1)
  {
    RangesJoin(chain, k, first, start, end + 1);
    all := logs + GetLogs(chain, k, start, end);
  }

  lemma {:induction false} NoBlocks(chain: seq<Block>, k: Kind, first: nat)
    ensures LogsBefore(chain, k, first, first) == []
  {
  }

  /** `fetch_logs`: chunk after chunk, whatever the chunk size. */
  method FetchLogs(chain: seq<Block>, k: Kind, first: nat, last: nat, chunk: nat) returns (all: seq<Log>)
    requires chunk >= 1
    ensures all == LogsBefore(chain, k, first, Max(first, last + 1))
  {
    all := [];
    var start := first;
    NoBlocks(chain, k, first);
    ghost var stop := Max(first, last + 1);
    while start <= last
      invariant first <= start <= stop && stop >= last + 1
      invariant all == LogsBefore(chain, k, first, start)
      decreases last + 1 - start
    {
      var end := if start + chunk - 1 < last then start + chunk - 1 else last;
      all := FetchPage(chain, k, start, end, all, first);
      start := end + 1;
    }
  }

  lemma {:induction false} PassFilter(m: Index, w: seq<Log>, k: Kind)
    ensures Pass(m, Filter(w, k), k) == Pass(m, w, k)
  {
    if |w| > 0 {
      var n := |w| - 1;
      PassFilter(m, w[..n], k);
      if w[n].Kind() == k {
        PassSnoc(m, Filter(w[..n], k), w[n]);
      }
    }
  }

  lemma {:induction false} PassSnoc(m: Index, w: seq<Log>, log: Log)
    ensures Pass(m, w + [log], log.Kind()) == Apply(Pass(m, w, log.Kind()), log)
  {
    assert (w + [log])[..|w|] == w;
  }

  /** The block after the highest head, or the first one when there is no head. */
  ghost predicate NextAfter(heads: seq<nat>, next: nat) {
    && (forall i | 0 <= i < |heads| :: heads[i] < next)
    && (next == 0 || exists i | 0 <= i < |heads| :: heads[i] + 1 == next)
  }

  lemma {:induction false} NextHead(heads: seq<nat>, i: nat, was: nat, next: nat)
    requires i < |heads| && NextAfter(heads[..i], was)
    requires next == if was <= heads[i] then heads[i] + 1 else was
    ensures NextAfter(heads[..i + 1], next)
  {
    assert heads[..i + 1] == heads[..i] + [heads[i]];
    if was <= heads[i] {
      assert heads[..i + 1][i] + 1 == next;
    } else if was > 0 {
      var j :| 0 <= j < i && heads[..i][j] + 1 == was;
      assert heads[..i + 1][j] + 1 == next;
    }
  }

  class DepositIndex {
    var deposits: Index

    constructor ()
      ensures deposits == map[]
    {
      deposits := map[];
    }

    method RunPass(logs: seq<Log>, k: Kind)
      requires forall i | 0 <= i < |logs| :: logs[i].Kind() == k
      modifies this
      ensures deposits == Pass(old(deposits), logs, k)
    {
      ghost var m := deposits;
      for i := 0 to |logs|
        invariant deposits == Pass(m, logs[..i], k)
      {
        match logs[i] {
          case Available(r) => deposits := deposits[r.note := r.(status := Pending)];
          case Valid(n) =>
            if n in deposits {
              deposits := deposits[n := deposits[n].(status := Validated)];
            }
          case Gone(n) =>
            if n in deposits {
              deposits := deposits[n := deposits[n].(status := Withdrawn)];
            }
        }
        assert logs[..i + 1][..i] == logs[..i];
      }
      assert logs[..|logs|] == logs;
    }

    /** `sync_deposits`: three fetches, then three passes. */
    method SyncDeposits(chain: seq<Block>, first: nat, last: nat, chunk: nat)
      requires chunk >= 1
      modifies this
      ensures deposits == Window(old(deposits), Concat(Blocks(chain, first, Max(first, last + 1))))
    {
      ghost var w, m := Concat(Blocks(chain, first, Max(first, last + 1))), deposits;
      var available := FetchLogs(chain, Becomes, first, last, chunk);
      var validated := FetchLogs(chain, Validates, first, last, chunk);
      var withdrawn := FetchLogs(chain, Withdraws, first, last, chunk);
      FilterKeepsKind(w, Becomes);
      RunPass(available, Becomes);
      PassFilter(m, w, Becomes);
      FilterKeepsKind(w, Validates);
      RunPass(validated, Validates);
      PassFilter(Pass(m, w, Becomes), w, Validates);
      FilterKeepsKind(w, Withdraws);
      RunPass(withdrawn, Withdraws);
      PassFilter(Pass(Pass(m, w, Becomes), w, Validates), w, Withdraws);
    }

    /** The genesis sync and every later poll: each takes the blocks up to the head it sees. */
    method Follow(chain: seq<Block>, heads: seq<nat>, chunk: nat) returns (next: nat)
      requires chunk >= 1 && deposits == map[] && WellFormed(Concat(chain))
      modifies this
      ensures NextAfter(heads, next)
      ensures deposits == Window(map[], Concat(Blocks(chain, 0, next)))
    {
      next := 0;
      ghost var ws: seq<seq<Block>> := [];
      for i := 0 to |heads|
        invariant Synced(chain, ws, next)
        invariant NextAfter(heads[..i], next)
      {
        ghost var was := next;
        if next <= heads[i] {
          ws := Poll(chain, next, heads[i], chunk, ws);
          next := heads[i] + 1;
        }
        NextHead(heads, i, was, next);
      }
      assert heads[..|heads|] == heads;
      SyncedAgrees(chain, ws, next);
    }

    /** The blocks before `next` have been taken in the windows `ws`. */
    ghost predicate Synced(chain: seq<Block>, ws: seq<seq<Block>>, next: nat)
      reads this
    {
      deposits == Final(ws) && Join(ws) == Blocks(chain, 0, next)
    }

    method Poll(chain: seq<Block>, next: nat, head: nat, chunk: nat, ghost ws: seq<seq<Block>>)
      returns (ghost ws': seq<seq<Block>>)
      requires chunk >= 1 && next <= head && Synced(chain, ws, next)
      modifies this
      ensures Synced(chain, ws', head + 1)
    {
      SyncDeposits(chain, next, head, chunk);
      ghost var w := Blocks(chain, next, head + 1);
      BlocksJoin(chain, next, head + 1);
      FinalSnoc(ws, w);
      ws' := ws + [w];
    }

    /** `get_deposits_from_block` */
    method DepositsFromBlock(block: nat) returns (r: set<Record>)
      ensures forall d :: d in r <==> d.block >= block && exists n :: Get(deposits, n) == Some(d)
    {
      r := set n | n in deposits && deposits[n].block >= block :: deposits[n];
      forall d: Record | d.block >= block && exists n :: Get(deposits, n) == Some(d) ensures d in r {
        var n :| Get(deposits, n) == Some(d);
        assert n in deposits;
      }
      forall d | d in r ensures d.block >= block && exists n :: Get(deposits, n) == Some(d) {
        var n :| n in deposits && deposits[n] == d;
        assert Get(deposits, n) == Some(d);
      }
    }
  }

  /**
  What a client is told after genesis sync and any polls: for every note made available in the
  blocks seen, its last record with the status of its strongest event, if it is recent enough.
  */
  method DepositsAfterPolls(chain: seq<Block>, heads: seq<nat>, chunk: nat, block: nat)
    returns (r: set<Record>, next: nat)
    requires chunk >= 1 && WellFormed(Concat(chain))
    ensures NextAfter(heads, next)
    ensures var w := Concat(Blocks(chain, 0, next));
            forall d :: d in r <==> d.block >= block && exists n :: Ranked(LastAvailable(w, n), Rank(w, n)) == Some(d)
  {
    var index := new DepositIndex();
    next := index.Follow(chain, heads, chunk);
    r := index.DepositsFromBlock(block);
    ghost var w := Concat(Blocks(chain, 0, next));
    forall n: nat ensures Get(index.deposits, n) == Ranked(LastAvailable(w, n), Rank(w, n)) {
      GenesisNote(w, n);
    }
  }

  // --- one note -----------------------------------------------------------------------------------------------

  function Get(m: Index, n: nat): Option<Record> {
    if n in m then Some(m[n]) else None
  }

  function Has(w: seq<Log>, n: nat, k: Kind): bool {
    |w| > 0 && (Has(w[..|w| - 1], n, k) || (w[|w| - 1].Note() == n && w[|w| - 1].Kind() == k))
  }

  /** The record of the last log that makes a note available. */
  function LastAvailable(w: seq<Log>, n: nat): Option<Record> {
    if |w| == 0 then None
    else
      var last := w[|w| - 1];
      if last.Available? && last.record.note == n then Some(last.record.(status := Pending))
      else LastAvailable(w[..|w| - 1], n)
  }

  /** The strongest log about a note: 0 for none, 1 available, 2 validated, 3 withdrawn. */
  function Rank(w: seq<Log>, n: nat): nat {
    if Has(w, n, Withdraws) then 3 else if Has(w, n, Validates) then 2 else if Has(w, n, Becomes) then 1 else 0
  }

  function OrElse(a: Option<Record>, b: Option<Record>): Option<Record> {
    if a.Some? then a else b
  }

  function Ranked(r: Option<Record>, rank: nat): Option<Record> {
    if r.None? || rank < 2 then r else Some(r.value.(status := if rank == 2 then Validated else Withdrawn))
  }

  lemma {:induction false} AvailablePass(m: Index, w: seq<Log>, n: nat)
    ensures Get(Pass(m, w, Becomes), n) == OrElse(LastAvailable(w, n), Get(m, n))
    ensures LastAvailable(w, n).Some? == Has(w, n, Becomes)
    ensures LastAvailable(w, n).Some? ==> LastAvailable(w, n).value.status == Pending
  {
    if |w| > 0 {
      AvailablePass(m, w[..|w| - 1], n);
    }
  }

  lemma {:induction false} StatusPass(m: Index, w: seq<Log>, k: Kind, n: nat)
    requires k != Becomes
    ensures Get(Pass(m, w, k), n) ==
        if Has(w, n, k) then Ranked(Get(m, n), if k == Validates then 2 else 3) else Get(m, n)
  {
    if |w| > 0 {
      StatusPass(m, w[..|w| - 1], k, n);
    }
  }

  /** What a window does to one note: the last record wins, then the strongest log. */
  lemma {:induction false} WindowNote(m: Index, w: seq<Log>, n: nat)
    ensures Get(Window(m, w), n) == Ranked(OrElse(LastAvailable(w, n), Get(m, n)), Rank(w, n))
  {
    AvailablePass(m, w, n);
    var m1 := Pass(m, w, Becomes);
    StatusPass(m1, w, Validates, n);
    StatusPass(Pass(m1, w, Validates), w, Withdraws, n);
  }

  lemma {:induction false} HasAppend(v: seq<Log>, w: seq<Log>, n: nat, k: Kind)
    ensures Has(v + w, n, k) == (Has(v, n, k) || Has(w, n, k))
  {
    if |w| == 0 {
      assert v + w == v;
    } else {
      HasAppend(v, w[..|w| - 1], n, k);
      assert (v + w)[..|v + w| - 1] == v + w[..|w| - 1];
    }
  }

  lemma {:induction false} LastAvailableAppend(v: seq<Log>, w: seq<Log>, n: nat)
    ensures LastAvailable(v + w, n) == OrElse(LastAvailable(w, n), LastAvailable(v, n))
  {
    if |w| == 0 {
      assert v + w == v;
    } else {
      LastAvailableAppend(v, w[..|w| - 1], n);
      assert (v + w)[..|v + w| - 1] == v + w[..|w| - 1];
    }
  }

  lemma {:induction false} RankAppend(v: seq<Log>, w: seq<Log>, n: nat)
    ensures Rank(v + w, n) == Max(Rank(v, n), Rank(w, n))
    ensures LastAvailable(v + w, n) == OrElse(LastAvailable(w, n), LastAvailable(v, n))
  {
    HasAppend(v, w, n, Becomes);
    HasAppend(v, w, n, Validates);
    HasAppend(v, w, n, Withdraws);
    LastAvailableAppend(v, w, n);
  }

  // --- windows of blocks --------------------------------------------------------------------------------------

  /** The index after a sequence of windows, each one call of `sync_deposits`. */
  function Final(ws: seq<seq<Block>>): Index {
    if |ws| == 0 then map[] else Window(Final(ws[..|ws| - 1]), Concat(ws[|ws| - 1]))
  }

  function Join(ws: seq<seq<Block>>): seq<Block> {
    if |ws| == 0 then [] else Join(ws[..|ws| - 1]) + ws[|ws| - 1]
  }

  /** The strongest log in the last block that mentions a note. */
  function LastRank(blocks: seq<Block>, n: nat): nat {
    if |blocks| == 0 then 0
    else
      var r := Rank(blocks[|blocks| - 1], n);
      if r > 0 then r else LastRank(blocks[..|blocks| - 1], n)
  }

  /** The last block about an available note has its strongest log. */
  ghost predicate OrderlyAt(blocks: seq<Block>, n: nat) {
    Has(Concat(blocks), n, Becomes) ==> LastRank(blocks, n) == Rank(Concat(blocks), n)
  }

  ghost predicate Orderly(blocks: seq<Block>) {
    forall n: nat :: OrderlyAt(blocks, n)
  }

  lemma {:induction false} LastRankBounds(blocks: seq<Block>, n: nat)
    ensures LastRank(blocks, n) <= Rank(Concat(blocks), n)
    ensures LastRank(blocks, n) == 0 <==> Rank(Concat(blocks), n) == 0
  {
    if |blocks| > 0 {
      var k := |blocks| - 1;
      LastRankBounds(blocks[..k], n);
      RankAppend(Concat(blocks[..k]), blocks[k], n);
    }
  }

  lemma {:induction false} LastRankAppend(a: seq<Block>, b: seq<Block>, n: nat)
    ensures LastRank(a + b, n) == if LastRank(b, n) > 0 then LastRank(b, n) else LastRank(a, n)
  {
    if |b| == 0 {
      assert a + b == a;
    } else {
      LastRankAppend(a, b[..|b| - 1], n);
      assert (a + b)[..|a + b| - 1] == a + b[..|b| - 1];
    }
  }

  ghost predicate SameDeposit(a: Option<Record>, b: Option<Record>) {
    a == b || (a.Some? && b.Some? && a.value == b.value.(status := a.value.status))
  }

  /** Apart from the status, the split never matters. */
  lemma {:induction false} FinalDeposit(ws: seq<seq<Block>>, n: nat)
    ensures SameDeposit(Get(Final(ws), n), LastAvailable(Concat(Join(ws)), n))
  {
    if |ws| > 0 {
      var init, w := ws[..|ws| - 1], ws[|ws| - 1];
      FinalDeposit(init, n);
      WindowNote(Final(init), Concat(w), n);
      ConcatAppend(Join(init), w);
      RankAppend(Concat(Join(init)), Concat(w), n);
    }
  }

  /** The index of a single pass over everything. */
  lemma {:induction false} GenesisNote(w: seq<Log>, n: nat)
    ensures Get(Window(map[], w), n) == Ranked(LastAvailable(w, n), Rank(w, n))
    ensures LastAvailable(w, n).Some? <==> Has(w, n, Becomes)
    ensures LastAvailable(w, n).Some? ==> LastAvailable(w, n).value.status == Pending
  {
    WindowNote(map[], w, n);
    AvailablePass(map[], w, n);
  }

  lemma {:induction false} HasFrom(w: seq<Log>, n: nat, i: nat)
    requires i < |w| && w[i].Note() == n
    ensures Has(w, n, w[i].Kind())
  {
    if i < |w| - 1 {
      HasFrom(w[..|w| - 1], n, i);
    }
  }

  /** `Has`, by position. */
  lemma {:induction false} HasExactly(w: seq<Log>, n: nat)
    ensures Has(w, n, Withdraws) <==> Gone(n) in w
    ensures Has(w, n, Validates) <==> Valid(n) in w
  {
    if Has(w, n, Withdraws) {
      var i := HasIndex(w, n, Withdraws);
    }
    if Has(w, n, Validates) {
      var i := HasIndex(w, n, Validates);
    }
    forall i | 0 <= i < |w| && w[i].Note() == n ensures Has(w, n, w[i].Kind()) {
      HasFrom(w, n, i);
    }
  }

  /** Log `i` is the last one that makes the note available. */
  ghost predicate MadeAvailableLast(w: seq<Log>, n: nat, i: nat) {
    && i < |w| && w[i].Available? && w[i].record.note == n
    && forall j | i < j < |w| && w[j].Available? :: w[j].record.note != n
  }

  lemma {:induction false} LastAvailableIndex(w: seq<Log>, n: nat, i: nat)
    requires MadeAvailableLast(w, n, i)
    ensures LastAvailable(w, n) == Some(w[i].record.(status := Pending))
  {
    if i < |w| - 1 {
      assert MadeAvailableLast(w[..|w| - 1], n, i);
      LastAvailableIndex(w[..|w| - 1], n, i);
    }
  }

  lemma {:induction false} NeverAvailable(w: seq<Log>, n: nat)
    requires forall i | 0 <= i < |w| && w[i].Available? :: w[i].record.note != n
    ensures LastAvailable(w, n) == None
  {
    if |w| > 0 {
      NeverAvailable(w[..|w| - 1], n);
    }
  }

  /**
  The index of a single pass, by the logs alone: the last record of a note, withdrawn if any log says so,
  else validated if any log says so, else pending; and no other notes.
  */
  lemma {:induction false} GenesisStatus(w: seq<Log>, n: nat, i: nat)
    ensures var m := Window(map[], w);
            MadeAvailableLast(w, n, i) ==>
              && n in m && m[n] == w[i].record.(status := m[n].status)
              && (m[n].status == Withdrawn <==> Gone(n) in w)
              && (m[n].status == Validated <==> Gone(n) !in w && Valid(n) in w)
    ensures (forall j | 0 <= j < |w| && w[j].Available? :: w[j].record.note != n) ==> n !in Window(map[], w)
  {
    GenesisNote(w, n);
    HasExactly(w, n);
    if MadeAvailableLast(w, n, i) {
      LastAvailableIndex(w, n, i);
    }
    if forall j | 0 <= j < |w| && w[j].Available? :: w[j].record.note != n {
      NeverAvailable(w, n);
    }
  }

  /** Adding a window that mentions the note: if its strongest log is the strongest of all, it decides. */
  lemma {:induction false} DecidingWindow(before: Option<Record>, h: seq<Log>, w: seq<Log>, n: nat)
    requires SameDeposit(before, LastAvailable(h, n))
    requires Rank(w, n) == Rank(h + w, n) > 0
    ensures Ranked(OrElse(LastAvailable(w, n), before), Rank(w, n)) == Ranked(LastAvailable(h + w, n), Rank(h + w, n))
  {
    RankAppend(h, w, n);
    AvailablePass(map[], w, n);
  }

  /** On an orderly note every split gives the status of the genesis pass. */
  lemma {:induction false} SplitAgreesAt(ws: seq<seq<Block>>, n: nat)
    requires Has(Concat(Join(ws)), n, Becomes) ==> LastRank(Join(ws), n) == Rank(Concat(Join(ws)), n)
    ensures Get(Final(ws), n) == Ranked(LastAvailable(Concat(Join(ws)), n), Rank(Concat(Join(ws)), n))
  {
    var all := Concat(Join(ws));
    AvailablePass(map[], all, n);
    FinalDeposit(ws, n);
    if |ws| > 0 && Has(all, n, Becomes) {
      var init, w := ws[..|ws| - 1], ws[|ws| - 1];
      var h, c := Concat(Join(init)), Concat(w);
      ConcatAppend(Join(init), w);
      RankAppend(h, c, n);
      LastRankAppend(Join(init), w, n);
      LastRankBounds(w, n);
      WindowNote(Final(init), c, n);
      AvailablePass(map[], c, n);
      if Rank(c, n) == 0 {
        SplitAgreesAt(init, n);
      } else {
        FinalDeposit(init, n);
        DecidingWindow(Get(Final(init), n), h, c, n);
      }
    }
  }

  /** One window per block. */
  function Singles(blocks: seq<Block>): seq<seq<Block>> {
    seq(|blocks|, i requires 0 <= i < |blocks| => [blocks[i]])
  }

  lemma {:induction false} SinglesJoin(blocks: seq<Block>)
    ensures Join(Singles(blocks)) == blocks
  {
    if |blocks| > 0 {
      var k := |blocks| - 1;
      SinglesJoin(blocks[..k]);
      assert Singles(blocks)[..k] == Singles(blocks[..k]);
    }
  }

  lemma {:induction false} SinglesNote(blocks: seq<Block>, n: nat)
    ensures Get(Final(Singles(blocks)), n) == Ranked(LastAvailable(Concat(blocks), n), LastRank(blocks, n))
  {
    if |blocks| > 0 {
      var k := |blocks| - 1;
      var init, b := blocks[..k], blocks[k];
      SinglesNote(init, n);
      assert Singles(blocks)[..k] == Singles(init);
      assert Concat([b]) == b by {
        assert [b][..0] == [];
      }
      WindowNote(Final(Singles(init)), b, n);
      RankAppend(Concat(init), b, n);
      AvailablePass(map[], b, n);
    }
  }

  lemma {:induction false} EqualByNotes(a: Index, b: Index)
    requires forall n: nat :: Get(a, n) == Get(b, n)
    ensures a == b
  {
    assert forall n: nat :: (n in a) == Get(a, n).Some?;
    assert forall n: nat :: (n in b) == Get(b, n).Some?;
    assert a.Keys == b.Keys;
    forall n: nat | n in a ensures a[n] == b[n] {
      assert Get(a, n) == Get(b, n);
    }
  }

  ghost predicate SplitIndependent(blocks: seq<Block>) {
    forall ws: seq<seq<Block>> | Join(ws) == blocks :: Final(ws) == Window(map[], Concat(blocks))
  }

  /**
  Every split of a history into consecutive windows gives the index of one genesis pass exactly
  when the history is orderly.
  */
  lemma {:induction false} SplitsAgreeExactly(blocks: seq<Block>)
    ensures SplitIndependent(blocks) <==> Orderly(blocks)
  {
    if Orderly(blocks) {
      forall ws: seq<seq<Block>> | Join(ws) == blocks ensures Final(ws) == Window(map[], Concat(blocks)) {
        OrderlySplitAgrees(ws);
      }
    }
    if SplitIndependent(blocks) {
      SinglesJoin(blocks);
      forall n: nat ensures OrderlyAt(blocks, n) {
        SinglesNote(blocks, n);
        GenesisNote(Concat(blocks), n);
        LastRankBounds(blocks, n);
      }
    }
  }

  lemma {:induction false} OrderlySplitAgrees(ws: seq<seq<Block>>)
    requires Orderly(Join(ws))
    ensures Final(ws) == Window(map[], Concat(Join(ws)))
  {
    var all := Concat(Join(ws));
    forall n: nat ensures Get(Final(ws), n) == Get(Window(map[], all), n) {
      assert OrderlyAt(Join(ws), n);
      SplitAgreesAt(ws, n);
      GenesisNote(all, n);
    }
    EqualByNotes(Final(ws), Window(map[], all));
  }

  // --- histories of the contract ------------------------------------------------------------------------------

  function RankOf(log: Log): nat {
    match log
    case Available(_) => 1
    case Valid(_) => 2
    case Gone(_) => 3
  }

  ghost predicate AvailableOnce(w: seq<Log>) {
    forall i, j | 0 <= i < j < |w| && w[i].Available? && w[j].Available? :: w[i].Note() != w[j].Note()
  }

  ghost predicate AvailableFirst(w: seq<Log>) {
    forall j | 0 <= j < |w| && !w[j].Available? ::
      exists i | 0 <= i < j :: w[i].Available? && w[i].Note() == w[j].Note()
  }

  ghost predicate ValidatedFirst(w: seq<Log>) {
    forall i, j | 0 <= i < j < |w| && w[i].Gone? && w[j].Valid? :: w[i].Note() != w[j].Note()
  }

  /** Each note becomes available once, before it is validated or withdrawn, validation first. */
  ghost predicate WellFormed(w: seq<Log>) {
    AvailableOnce(w) && AvailableFirst(w) && ValidatedFirst(w)
  }

  ghost predicate Rising(w: seq<Log>) {
    forall i, j | 0 <= i < j < |w| && w[i].Note() == w[j].Note() :: RankOf(w[i]) <= RankOf(w[j])
  }

  lemma {:induction false} WellFormedRises(w: seq<Log>)
    requires WellFormed(w)
    ensures Rising(w)
  {
    forall i, j | 0 <= i < j < |w| && w[i].Note() == w[j].Note() ensures RankOf(w[i]) <= RankOf(w[j]) {
    }
  }

  lemma {:induction false} RankIsOne(w: seq<Log>, n: nat) returns (i: nat)
    requires Rank(w, n) > 0
    ensures i < |w| && w[i].Note() == n && RankOf(w[i]) == Rank(w, n)
  {
    i := HasIndex(w, n, if Rank(w, n) == 3 then Withdraws else if Rank(w, n) == 2 then Validates else Becomes);
  }

  lemma {:induction false} HasIndex(w: seq<Log>, n: nat, k: Kind) returns (i: nat)
    requires Has(w, n, k)
    ensures i < |w| && w[i].Note() == n && w[i].Kind() == k
  {
    i := |w| - 1;
    if !(w[i].Note() == n && w[i].Kind() == k) {
      i := HasIndex(w[..i], n, k);
    }
  }

  lemma {:induction false} RisingRank(v: seq<Log>, w: seq<Log>, n: nat)
    requires Rising(v + w) && Rank(w, n) > 0
    ensures Rank(v, n) <= Rank(w, n)
  {
    if Rank(v, n) > 0 {
      var i := RankIsOne(v, n);
      var j := RankIsOne(w, n);
      assert (v + w)[i] == v[i] && (v + w)[|v| + j] == w[j];
    }
  }

  lemma {:induction false} RisingLastRank(blocks: seq<Block>, n: nat)
    requires Rising(Concat(blocks))
    ensures LastRank(blocks, n) == Rank(Concat(blocks), n)
  {
    if |blocks| > 0 {
      var k := |blocks| - 1;
      var h := Concat(blocks[..k]);
      assert Rising(h) by {
        assert forall i | 0 <= i < |h| :: h[i] == Concat(blocks)[i];
      }
      RisingLastRank(blocks[..k], n);
      RankAppend(h, blocks[k], n);
      if Rank(blocks[k], n) > 0 {
        RisingRank(h, blocks[k], n);
      }
    }
  }

  /** So every history of the contract may be cut into windows anywhere. */
  lemma {:induction false} WellFormedHistoriesSplit(blocks: seq<Block>)
    requires WellFormed(Concat(blocks))
    ensures SplitIndependent(blocks)
  {
    WellFormedRises(Concat(blocks));
    forall n: nat ensures OrderlyAt(blocks, n) {
      RisingLastRank(blocks, n);
    }
    SplitsAgreeExactly(blocks);
  }

  lemma {:induction false} FinalSnoc(ws: seq<seq<Block>>, w: seq<Block>)
    ensures Final(ws + [w]) == Window(Final(ws), Concat(w)) && Join(ws + [w]) == Join(ws) + w
  {
    assert (ws + [w])[..|ws|] == ws;
  }

  /** Whatever the windows, what has been synced is the genesis pass over the blocks seen. */
  lemma {:induction false} SyncedAgrees(chain: seq<Block>, ws: seq<seq<Block>>, next: nat)
    requires WellFormed(Concat(chain)) && Join(ws) == Blocks(chain, 0, next)
    ensures Final(ws) == Window(map[], Concat(Blocks(chain, 0, next)))
  {
    PrefixSplits(chain, next);
  }

  lemma {:induction false} PrefixSplits(chain: seq<Block>, n: nat)
    requires WellFormed(Concat(chain))
    ensures SplitIndependent(Blocks(chain, 0, n))
  {
    var k := if n < |chain| then n else |chain|;
    var h, t := Concat(chain[..k]), Concat(chain[k..]);
    assert chain[..k] + chain[k..] == chain;
    ConcatAppend(chain[..k], chain[k..]);
    WellFormedPrefix(h, t);
    WellFormedHistoriesSplit(chain[..k]);
    assert Blocks(chain, 0, n) == chain[..k];
  }

  lemma {:induction false} WellFormedPrefix(v: seq<Log>, w: seq<Log>)
    requires WellFormed(v + w)
    ensures WellFormed(v)
  {
    var all := v + w;
    assert forall i | 0 <= i < |v| :: v[i] == all[i];
    forall j | 0 <= j < |v| && !v[j].Available?
      ensures exists i | 0 <= i < j :: v[i].Available? && v[i].Note() == v[j].Note()
    {
      assert !all[j].Available?;
      var i :| 0 <= i < j && all[i].Available? && all[i].Note() == all[j].Note();
      assert v[i] == all[i];
    }
  }

  /** A note that is made available again after its withdrawal comes out differently in two windows. */
  lemma {:induction false} DisorderlyHistory()
    ensures var r := Record(7, 1, 2, 3, 0, Pending);
            var blocks: seq<Block> := [[Available(r)], [Gone(7)], [Available(r)]];
            !Orderly(blocks) && !SplitIndependent(blocks)
  {
    var r := Record(7, 1, 2, 3, 0, Pending);
    var b0: Block, b1: Block, b2: Block := [Available(r)], [Gone(7)], [Available(r)];
    var blocks := [b0, b1, b2];
    var first: seq<Block>, two: seq<Block> := [b0], [b0, b1];
    assert blocks[..2] == two && two[..1] == first && first[..0] == [];
    assert Concat(first) == b0;
    assert Concat(two) == Concat(first) + b1;
    assert Concat(blocks) == b0 + b1 + b2;
    RankAppend(b0 + b1, b2, 7);
    RankAppend(b0, b1, 7);
    assert b2[..0] == [] && b1[..0] == [] && b0[..0] == [];
    assert Has(b1, 7, Withdraws);
    assert Has(b2, 7, Becomes) && !Has(b2, 7, Validates) && !Has(b2, 7, Withdraws);
    HasAppend(b0 + b1, b2, 7, Becomes);
    assert LastRank(blocks, 7) == 1;
    assert !OrderlyAt(blocks, 7);
    SplitsAgreeExactly(blocks);
  }
}
