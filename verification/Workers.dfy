/** Concurrent block scans: the UI's `scanRemarks` (packages/ui/src/indexer.ts), the auditor's
    (packages/cli/src/chain.ts) and the faucet's `scanRange` (packages/api/src/faucet/ring-indexer.service.ts).
    A worker runs alone between two awaits, so one step is: a fetch ends, the worker deals with the block,
    goes back to the head of its loop and claims the next one. Which fetch ends next, and how, is left open. */
module Workers {
  import opened Text
  import opened Log

  /** What the workers share: the next block to claim, the blocks being fetched, what became of the
      others, and the remarks in the order they landed. */
  datatype Pool = Pool(next: nat, awaiting: set<nat>, landed: set<nat>, failed: set<nat>, remarks: seq<Remark>)

  function Lesser(a: int, b: int): int { if a < b then a else b }
  function Greater(a: int, b: int): int { if a < b then b else a }

  function IfLanded(chain: Chain, landed: set<nat>, b: nat): seq<Remark> { if b in landed then chain(b) else [] }

  /** Every claimed block was claimed once and is in one state; every landed block gave its remarks once. */
  ghost predicate PoolOk(p: Pool, chain: Chain, from: nat, upTo: int) {
    && NumberedChain(chain)
    && from <= p.next
    && p.awaiting + p.landed + p.failed == BlockRange(from, Lesser(p.next - 1, upTo))
    && p.awaiting !! p.landed && p.awaiting !! p.failed && p.landed !! p.failed
    && (forall b: nat :: AtBlock(p.remarks, b) == IfLanded(chain, p.landed, b))
  }

  function Fresh(from: nat): Pool { Pool(from, {}, {}, {}, []) }

  /** `const n = next++; if (n > toBlock) return;` */
  function Claim(p: Pool, upTo: int): Pool {
    if p.next <= upTo then p.(next := p.next + 1, awaiting := p.awaiting + {p.next})
    else p.(next := p.next + 1)
  }

  function Land(p: Pool, chain: Chain, n: nat): Pool {
    p.(awaiting := p.awaiting - {n}, landed := p.landed + {n}, remarks := p.remarks + chain(n))
  }

  function Fail(p: Pool, n: nat): Pool { p.(awaiting := p.awaiting - {n}, failed := p.failed + {n}) }

  /** The blocks that have neither landed nor failed. */
  function Open(p: Pool, from: nat, upTo: int): set<nat> { BlockRange(from, upTo) - p.landed - p.failed }

  lemma StillOpen(p: Pool, chain: Chain, from: nat, upTo: int, n: nat)
    requires PoolOk(p, chain, from, upTo) && n in p.awaiting
    ensures from <= n <= upTo && n !in p.landed && n !in p.failed && n in Open(p, from, upTo)
  {
    assert n in BlockRange(from, Lesser(p.next - 1, upTo));
  }

  lemma ClaimOk(p: Pool, chain: Chain, from: nat, upTo: int)
    requires PoolOk(p, chain, from, upTo)
    ensures PoolOk(Claim(p, upTo), chain, from, upTo)
    ensures p.next !in p.awaiting + p.landed + p.failed
  {
    if p.next <= upTo {
      assert BlockRange(from, p.next) == BlockRange(from, p.next - 1) + {p.next};
    }
  }

  lemma LandOk(p: Pool, chain: Chain, from: nat, upTo: int, n: nat)
    requires PoolOk(p, chain, from, upTo) && n in p.awaiting
    ensures PoolOk(Land(p, chain, n), chain, from, upTo)
  {
    var q := Land(p, chain, n);
    forall b: nat ensures AtBlock(q.remarks, b) == IfLanded(chain, q.landed, b) {
      AtBlockAppend(p.remarks, chain(n), b);
      if b == n { AtBlockAll(chain(n), b); } else { AtBlockNone(chain(n), b); }
    }
  }

  /** Landing a block keeps the remarks in block order exactly when it has none, or no later block that has some
      landed before. */
  lemma LandsInOrderIff(p: Pool, chain: Chain, from: nat, upTo: int, n: nat)
    requires PoolOk(p, chain, from, upTo) && n in p.awaiting
    ensures InBlockOrder(Land(p, chain, n).remarks) <==>
            && InBlockOrder(p.remarks)
            && (chain(n) == [] || forall b :: b in p.landed && chain(b) != [] ==> b <= n)
  {
    OrderedAppendIff(p.remarks, chain(n));
    forall r | r in p.remarks ensures r.blockNumber in p.landed && r in chain(r.blockNumber) {
      AtBlockMembers(p.remarks, r.blockNumber);
      assert AtBlock(p.remarks, r.blockNumber) == IfLanded(chain, p.landed, r.blockNumber);
    }
    forall b | b in p.landed && chain(b) != [] ensures chain(b)[0] in p.remarks && chain(b)[0].blockNumber == b {
      AtBlockMembers(p.remarks, b);
      assert AtBlock(p.remarks, b) == IfLanded(chain, p.landed, b);
      assert chain(b)[0] in chain(b);
    }
    if chain(n) != [] { assert chain(n)[0] in chain(n); }
  }

  /** Sorting what landed gives the sequential scan of the blocks that landed, whatever the landing order. */
  lemma SortedIsScan(p: Pool, chain: Chain, from: nat, upTo: int)
    requires PoolOk(p, chain, from, upTo)
    ensures SortByBlock(p.remarks) == ScanSome(chain, from, upTo, p.landed)
  {
    var s := ScanSome(chain, from, upTo, p.landed);
    ScanSomeBlocks(chain, from, upTo, p.landed);
    forall b: nat ensures AtBlock(s, b) == AtBlock(p.remarks, b) {
      assert b in p.landed ==> b in p.awaiting + p.landed + p.failed;
    }
    SortUnique(p.remarks, s);
  }

  /** The first claims: `workers` workers run up to their first await, one after the other. */
  method StartWorkers(chain: Chain, from: nat, upTo: int, workers: int) returns (p: Pool)
    requires NumberedChain(chain) && from <= upTo
    ensures PoolOk(p, chain, from, upTo) && p.landed == {} && p.failed == {} && p.remarks == []
    ensures workers > 0 && p.next <= upTo ==> p.awaiting != {}
    ensures workers <= 0 ==> p.awaiting == {}
  {
    p := Fresh(from);
    var w := 0;
    while w < workers
      invariant PoolOk(p, chain, from, upTo) && p.landed == {} && p.failed == {} && p.remarks == []
      invariant w > 0 && p.next <= upTo ==> p.awaiting != {}
      invariant w == 0 ==> p.next == from
      invariant workers <= 0 ==> w == 0 && p.awaiting == {}
    {
      ClaimOk(p, chain, from, upTo);
      p := Claim(p, upTo);
      w := w + 1;
    }
  }

  // ----- The UI scan: a contiguous prefix that grows while blocks land out of order -----

  datatype UiScan = UiScan(pool: Pool, done: set<nat>, scannedThrough: int)

  /** `scannedThrough` ends the contiguous prefix of landed blocks; `done` holds the landed blocks beyond it. */
  ghost predicate PrefixOk(s: UiScan, from: nat) {
    && from - 1 <= s.scannedThrough
    && BlockRange(from, s.scannedThrough) <= s.pool.landed
    && s.scannedThrough + 1 !in s.pool.landed
    && s.done == s.pool.landed - BlockRange(from, s.scannedThrough)
  }

  ghost predicate UiScanOk(s: UiScan, chain: Chain, from: nat, upTo: int) {
    PoolOk(s.pool, chain, from, upTo) && PrefixOk(s, from)
  }

  method Advance(done: set<nat>, scannedThrough: int) returns (rest: set<nat>, through: int)
    requires scannedThrough >= -1
    ensures scannedThrough <= through && BlockRange(scannedThrough + 1, through) <= done
    ensures through + 1 !in done && rest == done - BlockRange(scannedThrough + 1, through)
  {
    rest, through := done, scannedThrough;
    while through + 1 in rest
      invariant scannedThrough <= through && BlockRange(scannedThrough + 1, through) <= done
      invariant rest == done - BlockRange(scannedThrough + 1, through)
      decreases rest
    {
      through := through + 1;
      rest := rest - {through};
    }
  }

  /** A fetch succeeded: push the block's remarks, mark it done, walk the prefix forward. */
  method LandBlock(s: UiScan, chain: Chain, ghost from: nat, ghost upTo: int, n: nat) returns (t: UiScan)
    requires UiScanOk(s, chain, from, upTo) && n in s.pool.awaiting
    ensures UiScanOk(t, chain, from, upTo) && t.pool == Land(s.pool, chain, n)
    ensures s.scannedThrough <= t.scannedThrough
    ensures Open(t.pool, from, upTo) == Open(s.pool, from, upTo) - {n}
  {
    var pool := Land(s.pool, chain, n);
    LandOk(s.pool, chain, from, upTo, n);
    var done, through := Advance(s.done + {n}, s.scannedThrough);
    t := UiScan(pool, done, through);
    JoinRanges(from, s.scannedThrough, through);
    assert n !in s.pool.landed;
    assert n !in BlockRange(from, s.scannedThrough);
  }

  /** A fetch failed: the block stays out of `done`. */
  method FailBlock(s: UiScan, ghost chain: Chain, ghost from: nat, ghost upTo: int, n: nat) returns (t: UiScan)
    requires UiScanOk(s, chain, from, upTo) && n in s.pool.awaiting
    ensures UiScanOk(t, chain, from, upTo) && t == s.(pool := Fail(s.pool, n))
    ensures Open(t.pool, from, upTo) == Open(s.pool, from, upTo) - {n}
  {
    t := s.(pool := Fail(s.pool, n));
  }

  /** The worker is back at the head of its loop. */
  method ClaimNext(s: UiScan, ghost chain: Chain, ghost from: nat, upTo: int, aborted: bool) returns (t: UiScan)
    requires UiScanOk(s, chain, from, upTo)
    ensures UiScanOk(t, chain, from, upTo)
    ensures t == if aborted then s else s.(pool := Claim(s.pool, upTo))
    ensures !aborted && t.pool.next <= upTo ==> t.pool.awaiting != {}
    ensures Open(t.pool, from, upTo) == Open(s.pool, from, upTo)
  {
    if aborted { return s; }
    ClaimOk(s.pool, chain, from, upTo);
    t := s.(pool := Claim(s.pool, upTo));
  }

  /** The last sweep after all workers returned finds nothing left to walk over. */
  lemma SweepIsIdle(s: UiScan, from: nat, through: int)
    requires PrefixOk(s, from) && s.scannedThrough <= through
    requires BlockRange(s.scannedThrough + 1, through) <= s.done
    ensures through == s.scannedThrough
  {
    FirstOfRange(s.scannedThrough + 1, through);
  }

  lemma FirstOfRange(from: nat, upTo: int)
    ensures from <= upTo ==> from in BlockRange(from, upTo)
  {}

  lemma JoinRanges(from: nat, mid: int, upTo: int)
    requires from - 1 <= mid <= upTo
    ensures BlockRange(from, upTo) == BlockRange(from, mid) + BlockRange(mid + 1, upTo)
  {}

  ghost predicate NonDecreasing(xs: seq<int>) { forall i, j :: 0 <= i < j < |xs| ==> xs[i] <= xs[j] }

  /** Nobody is still fetching and every block of the range is accounted for. */
  lemma AllSettled(s: UiScan, chain: Chain, from: nat, upTo: int)
    requires UiScanOk(s, chain, from, upTo) && from <= upTo && s.pool.awaiting == {} && s.pool.next > upTo
    ensures s.pool.landed + s.pool.failed == BlockRange(from, upTo)
    ensures EndsAt(from, upTo, s.scannedThrough, s.pool.failed)
  {
    assert from <= s.scannedThrough ==> s.scannedThrough in BlockRange(from, s.scannedThrough);
    assert s.scannedThrough < upTo ==> s.scannedThrough + 1 in BlockRange(from, upTo);
    forall f | f in s.pool.failed ensures s.scannedThrough < f {
      assert f in BlockRange(from, upTo) && f !in s.pool.landed;
    }
  }

  /** Where a scan that was not aborted ends: before its lowest failing block, or at the end of the range. */
  ghost predicate EndsAt(from: nat, upTo: int, scannedThrough: int, failed: set<nat>) {
    if failed == {} then scannedThrough == Greater(from - 1, upTo)
    else scannedThrough + 1 in failed && forall f :: f in failed ==> scannedThrough < f
  }

  /** Of the range, the failing blocks failed and the others landed. */
  ghost predicate SplitBy(p: Pool, from: nat, upTo: int, fails: set<nat>) {
    p.landed == BlockRange(from, upTo) - fails && p.failed == BlockRange(from, upTo) * fails
  }

  /** Progress reports so far, none above the prefix. */
  ghost predicate ProgressOk(progress: seq<int>, through: int) {
    NonDecreasing(progress) && forall i :: 0 <= i < |progress| ==> progress[i] <= through
  }

  lemma Report(progress: seq<int>, before: int, through: int)
    requires ProgressOk(progress, before) && before <= through
    ensures ProgressOk(progress, through) && ProgressOk(progress + [through], through)
  {}

  /** The workers, under every schedule. `fails` are the blocks whose fetch fails; the abort signal is raised
      once `abortAfter` fetches have ended, if ever. */
  method RunWorkers(chain: Chain, from: nat, upTo: int, concurrency: int, fails: set<nat>, abortAfter: Option<nat>)
    returns (s: UiScan, progress: seq<int>)
    requires NumberedChain(chain) && from <= upTo
    ensures UiScanOk(s, chain, from, upTo) && s.pool.awaiting == {}
    ensures s.pool.landed !! fails && s.pool.failed <= fails
    ensures ProgressOk(progress, s.scannedThrough)
    ensures abortAfter.None? && concurrency > 0 ==> s.pool.next > upTo
    ensures concurrency <= 0 ==> s.pool.landed == {}
  {
    progress := [];
    var aborted, ended := abortAfter == Some(0), 0;
    var pool := Fresh(from);
    if !aborted {
      pool := StartWorkers(chain, from, upTo, Lesser(concurrency, upTo - from + 1));
    }
    s := UiScan(pool, {}, from - 1);
    while s.pool.awaiting != {}
      invariant UiScanOk(s, chain, from, upTo) && s.pool.landed !! fails && s.pool.failed <= fails
      invariant aborted ==> abortAfter.Some?
      invariant !aborted && concurrency > 0 && s.pool.next <= upTo ==> s.pool.awaiting != {}
      invariant concurrency <= 0 ==> s.pool.awaiting == {} && s.pool.landed == {}
      invariant ProgressOk(progress, s.scannedThrough)
      decreases Open(s.pool, from, upTo)
    {
      var n :| n in s.pool.awaiting;
      StillOpen(s.pool, chain, from, upTo, n);
      if n in fails {
        s := FailBlock(s, chain, from, upTo, n);
      } else {
        ghost var before := s.scannedThrough;
        s := LandBlock(s, chain, from, upTo, n);
        Report(progress, before, s.scannedThrough);
        progress := progress + [s.scannedThrough];
      }
      ended := ended + 1;
      if abortAfter == Some(ended) { aborted := true; }
      s := ClaimNext(s, chain, from, upTo, aborted);
    }
  }

  /** `scanRemarks` of the UI: the blocks that do not fail in sequence, progress that never goes back, and an
      end that is the last block before the lowest failing one. An aborted scan gives a part of that, with an
      end that is still the end of a contiguous prefix. */
  method ScanRemarks(chain: Chain, from: nat, upTo: int, concurrency: int, fails: set<nat>, abortAfter: Option<nat>)
    returns (remarks: seq<Remark>, scannedThrough: int, progress: seq<int>, ghost landed: set<nat>)
    requires NumberedChain(chain)
    ensures abortAfter.None? && concurrency > 0 ==>
              && remarks == ScanSome(chain, from, upTo, BlockRange(from, upTo) - fails)
              && EndsAt(from, upTo, scannedThrough, BlockRange(from, upTo) * fails)
    ensures remarks == ScanSome(chain, from, upTo, landed) && landed <= BlockRange(from, upTo) - fails
    ensures from - 1 <= scannedThrough && BlockRange(from, scannedThrough) <= landed && scannedThrough + 1 !in landed
    ensures NonDecreasing(progress) && (progress != [] ==> progress[|progress| - 1] == scannedThrough)
    ensures concurrency <= 0 ==> remarks == []
  {
    if from > upTo { return [], from - 1, [], {}; }
    var s: UiScan;
    s, progress := RunWorkers(chain, from, upTo, concurrency, fails, abortAfter);
    var done, through := Advance(s.done, s.scannedThrough);
    SweepIsIdle(s, from, through);
    Report(progress, s.scannedThrough, through);
    progress := progress + [through];
    SortedIsScan(s.pool, chain, from, upTo);
    remarks, scannedThrough, landed := SortByBlock(s.pool.remarks), through, s.pool.landed;
    LandedInRange(s.pool, chain, from, upTo);
    if abortAfter.None? && concurrency > 0 {
      AllSettled(s, chain, from, upTo);
      FailsSplit(s.pool, from, upTo, fails);
    }
    if concurrency <= 0 { ScanNothing(chain, from, upTo); }
  }

  lemma LandedInRange(p: Pool, chain: Chain, from: nat, upTo: int)
    requires PoolOk(p, chain, from, upTo)
    ensures p.landed <= BlockRange(from, upTo)
  {
    forall b: nat | b in p.landed ensures b in BlockRange(from, upTo) {
      assert b in BlockRange(from, Lesser(p.next - 1, upTo));
    }
  }

  lemma FailsSplit(p: Pool, from: nat, upTo: int, fails: set<nat>)
    requires p.landed + p.failed == BlockRange(from, upTo) && p.landed !! fails && p.failed <= fails
    ensures SplitBy(p, from, upTo, fails)
  {}

  lemma {:induction false} ScanNothing(chain: Chain, from: nat, upTo: int)
    ensures ScanSome(chain, from, upTo, {}) == []
    decreases upTo - from
  {
    if from <= upTo { ScanNothing(chain, from, upTo - 1); }
  }

  // ----- The auditor's scan: one failing block fails the scan -----

  datatype CliResult = Complete(remarks: seq<Remark>) | BlockFailed(block: nat)

  /** `scanRemarks` of the auditor. A worker whose fetch fails throws, and `Promise.all` rejects at once. */
  method CliScanRemarks(chain: Chain, from: nat, upTo: int, concurrency: int, fails: set<nat>) returns (r: CliResult)
    requires NumberedChain(chain)
    ensures concurrency > 0 ==> (r.BlockFailed? <==> BlockRange(from, upTo) * fails != {})
    ensures r.BlockFailed? ==> r.block in BlockRange(from, upTo) * fails
    ensures concurrency > 0 && r.Complete? ==> r.remarks == Scan(chain, from, upTo)
    ensures concurrency <= 0 ==> r == Complete([])
  {
    if from > upTo { return Complete([]); }
    var pool := StartWorkers(chain, from, upTo, concurrency);
    while pool.awaiting != {}
      invariant PoolOk(pool, chain, from, upTo) && pool.failed == {} && pool.landed !! fails
      invariant concurrency > 0 && pool.next <= upTo ==> pool.awaiting != {}
      invariant concurrency <= 0 ==> pool.awaiting == {} && pool.remarks == []
      decreases Open(pool, from, upTo)
    {
      var n :| n in pool.awaiting;
      StillOpen(pool, chain, from, upTo, n);
      if n in fails { return BlockFailed(n); }
      LandOk(pool, chain, from, upTo, n);
      pool := Land(pool, chain, n);
      ClaimOk(pool, chain, from, upTo);
      pool := Claim(pool, upTo);
    }
    if concurrency > 0 {
      SortedIsScan(pool, chain, from, upTo);
      ScanAllBlocks(chain, from, upTo, pool.landed);
    }
    r := Complete(SortByBlock(pool.remarks));
  }

  // ----- The faucet's scan: failing blocks are logged and skipped -----

  /** `scanRange`: ten workers, a failing block is skipped, and so is the rest of the range once the
      service is destroyed, after `destroyAfter` fetches, if ever: then the list is a part of the full one. */
  method ScanRange(chain: Chain, from: nat, upTo: int, fails: set<nat>, destroyAfter: Option<nat>)
    returns (out: seq<Remark>, destroyed: bool, ghost landed: set<nat>)
    requires NumberedChain(chain) && from <= upTo
    ensures destroyed ==> destroyAfter.Some?
    ensures out == ScanSome(chain, from, upTo, landed) && landed <= BlockRange(from, upTo) - fails
    ensures !destroyed ==> out == ScanSome(chain, from, upTo, BlockRange(from, upTo) - fails)
  {
    var ended := 0;
    destroyed := destroyAfter == Some(0);
    var pool := Fresh(from);
    if !destroyed {
      pool := StartWorkers(chain, from, upTo, Lesser(10, upTo - from + 1));
    }
    while pool.awaiting != {}
      invariant PoolOk(pool, chain, from, upTo) && pool.landed !! fails && pool.failed <= fails
      invariant destroyed ==> destroyAfter.Some?
      invariant !destroyed && pool.next <= upTo ==> pool.awaiting != {}
      decreases Open(pool, from, upTo)
    {
      var n :| n in pool.awaiting;
      StillOpen(pool, chain, from, upTo, n);
      if n in fails {
        pool := Fail(pool, n);
      } else {
        LandOk(pool, chain, from, upTo, n);
        pool := Land(pool, chain, n);
      }
      ended := ended + 1;
      if destroyAfter == Some(ended) { destroyed := true; }
      if !destroyed {
        ClaimOk(pool, chain, from, upTo);
        pool := Claim(pool, upTo);
      }
    }
    SortedIsScan(pool, chain, from, upTo);
    LandedInRange(pool, chain, from, upTo);
    if !destroyed { FailsSplit(pool, from, upTo, fails); }
    out, landed := SortByBlock(pool.remarks), pool.landed;
  }
}
