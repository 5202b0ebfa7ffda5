/** The browser's index of remarks: catch-up passes, chunked persistence, reload from the cache
    (packages/ui/src/hooks/useIndexer.ts). */
module UiIndexer {
  import opened Text
  import opened Log
  import opened Workers
  import opened IndexerCache

  const SAFETY_MARGIN: nat := 10
  const PERSIST_CHUNK_BLOCKS: nat := 500

  /** Where the next pass starts: a resumed session rescans the last ten blocks, within the proposal; one without
      a cache goes on behind what it has scanned. */
  function RescanPoint(start: nat, cacheHit: bool, scannedThrough: int): (from: nat)
    requires start - 1 <= scannedThrough
    ensures start <= from <= scannedThrough + 1
    ensures cacheHit ==> scannedThrough - 9 <= from && (from == start || from == scannedThrough - 9)
    ensures !cacheHit ==> from == scannedThrough + 1
  {
    if cacheHit then Greater(start, scannedThrough + 1 - SAFETY_MARGIN) else scannedThrough + 1
  }

  // ----- What a snapshot is worth -----

  function OnChain(chain: Chain, start: nat, b: nat): seq<Remark> { if b < start then [] else chain(b) }

  /** Below `limit` the snapshot holds exactly the chain's remarks, each once, in block order of the chain. */
  ghost predicate ExactBelow(chain: Chain, start: nat, remarks: seq<Remark>, limit: int) {
    forall b: nat :: b < limit ==> AtBlock(remarks, b) == OnChain(chain, start, b)
  }

  /** Exact below the point the next pass will start from. */
  ghost predicate Sound(chain: Chain, start: nat, cacheHit: bool, s: Snapshot) {
    && start - 1 <= s.scannedThrough
    && ExactBelow(chain, start, s.remarks, RescanPoint(start, cacheHit, s.scannedThrough))
  }

  /** The whole scanned chain and nothing else. */
  ghost predicate Whole(chain: Chain, start: nat, s: Snapshot) {
    start - 1 <= s.scannedThrough && SameBlocks(s.remarks, Scan(chain, start, s.scannedThrough))
  }

  function ScannedBlock(chain: Chain, start: nat, upTo: int, b: nat): seq<Remark> {
    if start <= b <= upTo then chain(b) else []
  }

  lemma ScanGives(chain: Chain, start: nat, upTo: int, b: nat)
    requires NumberedChain(chain)
    ensures AtBlock(Scan(chain, start, upTo), b) == ScannedBlock(chain, start, upTo, b)
  {
    ScanBlocks(chain, start, upTo);
    assert AtBlock(Scan(chain, start, upTo), b) == Taken(chain, start, upTo, BlockRange(start, upTo), b);
  }

  lemma WholeBlocks(chain: Chain, start: nat, s: Snapshot)
    requires NumberedChain(chain) && start - 1 <= s.scannedThrough
    ensures Whole(chain, start, s) <==>
            forall b: nat :: AtBlock(s.remarks, b) == ScannedBlock(chain, start, s.scannedThrough, b)
  {
    var scan := Scan(chain, start, s.scannedThrough);
    forall b: nat ensures AtBlock(scan, b) == ScannedBlock(chain, start, s.scannedThrough, b) {
      ScanGives(chain, start, s.scannedThrough, b);
    }
    if Whole(chain, start, s) {
      forall b: nat ensures AtBlock(s.remarks, b) == ScannedBlock(chain, start, s.scannedThrough, b) {
        assert AtBlock(s.remarks, b) == AtBlock(scan, b);
      }
    }
    if forall b: nat :: AtBlock(s.remarks, b) == ScannedBlock(chain, start, s.scannedThrough, b) {
      forall b: nat ensures AtBlock(s.remarks, b) == AtBlock(scan, b) {
        assert AtBlock(scan, b) == ScannedBlock(chain, start, s.scannedThrough, b);
      }
    }
  }

  // ----- Merging -----

  /** `mergeFresh`: what lies below the rescanned window stays, the window is replaced. */
  function MergeFresh(remarks: seq<Remark>, collected: seq<Remark>, from: nat): seq<Remark> { Below(remarks, from) + collected }

  ghost predicate AllFrom(rs: seq<Remark>, from: nat) { forall r :: r in rs ==> from <= r.blockNumber }

  /** The refs are in block order after a merge exactly when what was kept is, and what landed in the pass landed
      in block order. */
  lemma MergedInOrderIff(remarks: seq<Remark>, collected: seq<Remark>, from: nat)
    requires AllFrom(collected, from)
    ensures InBlockOrder(MergeFresh(remarks, collected, from)) <==>
            InBlockOrder(Below(remarks, from)) && InBlockOrder(collected)
    ensures InBlockOrder(remarks) ==> InBlockOrder(Below(remarks, from))
  {
    BelowMembers(remarks, from);
    OrderedAppendIff(Below(remarks, from), collected);
    if InBlockOrder(remarks) { BelowOrdered(remarks, from); }
  }

  // ----- What a pass does to a snapshot -----

  function WindowBlock(chain: Chain, was: Snapshot, from: nat, head: int, fails: set<nat>, b: nat): seq<Remark> {
    if b < from then AtBlock(was.remarks, b) else if b <= head && b !in fails then chain(b) else []
  }

  function ChunkBlock(chain: Chain, kept: seq<Remark>, from: nat, upTo: int, b: nat): seq<Remark> {
    if b < from then AtBlock(kept, b) else if b <= upTo then chain(b) else []
  }

  /** A chunk written in the middle of a pass: the old remarks below the window, then every block of the
      window up to the one the chunk claims. */
  ghost predicate Chunk(chain: Chain, kept: seq<Remark>, from: nat, s: Snapshot) {
    && from - 1 <= s.scannedThrough
    && forall b: nat :: AtBlock(s.remarks, b) == ChunkBlock(chain, kept, from, s.scannedThrough, b)
  }

  /** The end of a pass over `from..head` in which the blocks in `fails` could not be fetched. */
  ghost predicate PassDone(chain: Chain, was: Snapshot, from: nat, head: int, fails: set<nat>, now: Snapshot) {
    && (exists st: int :: EndsAt(from, head, st, BlockRange(from, head) * fails) &&
                          now.scannedThrough == Greater(was.scannedThrough, st))
    && forall b: nat :: AtBlock(now.remarks, b) == WindowBlock(chain, was, from, head, fails, b)
  }

  /** Every chunk is complete through the block it claims. */
  lemma ChunkIsWhole(chain: Chain, start: nat, cacheHit: bool, was: Snapshot, s: Snapshot)
    requires NumberedChain(chain) && Sound(chain, start, cacheHit, was)
    requires Chunk(chain, was.remarks, RescanPoint(start, cacheHit, was.scannedThrough), s)
    ensures Whole(chain, start, s)
  {
    var from := RescanPoint(start, cacheHit, was.scannedThrough);
    forall b: nat ensures AtBlock(s.remarks, b) == ScannedBlock(chain, start, s.scannedThrough, b) {
      assert AtBlock(s.remarks, b) == ChunkBlock(chain, was.remarks, from, s.scannedThrough, b);
    }
    WholeBlocks(chain, start, s);
  }

  lemma WholeIsSound(chain: Chain, start: nat, s: Snapshot)
    requires NumberedChain(chain) && Whole(chain, start, s)
    ensures Sound(chain, start, true, s) && Sound(chain, start, false, s)
  {
    WholeBlocks(chain, start, s);
  }

  /** A resumed session rewinds further than the one that wrote the snapshot. */
  lemma SoundAfterReload(chain: Chain, start: nat, cacheHit: bool, s: Snapshot)
    requires Sound(chain, start, cacheHit, s)
    ensures Sound(chain, start, true, s)
  {}

  /** Whatever blocks failed, the end of a pass is exact below the next rescan point. */
  lemma PassKeepsSound(chain: Chain, start: nat, cacheHit: bool, was: Snapshot, head: int, fails: set<nat>, now: Snapshot)
    requires NumberedChain(chain) && Sound(chain, start, cacheHit, was)
    requires PassDone(chain, was, RescanPoint(start, cacheHit, was.scannedThrough), head, fails, now)
    ensures Sound(chain, start, cacheHit, now)
  {
    var from := RescanPoint(start, cacheHit, was.scannedThrough);
    var st: int :| EndsAt(from, head, st, BlockRange(from, head) * fails) && now.scannedThrough == Greater(was.scannedThrough, st);
    forall b: nat | b < RescanPoint(start, cacheHit, now.scannedThrough)
      ensures AtBlock(now.remarks, b) == OnChain(chain, start, b)
    {
      assert AtBlock(now.remarks, b) == WindowBlock(chain, was, from, head, fails, b);
      if b >= from {
        PassedBlock(from, head, st, fails, b);
      }
    }
  }

  lemma PassedBlock(from: nat, head: int, st: int, fails: set<nat>, b: nat)
    requires EndsAt(from, head, st, BlockRange(from, head) * fails) && from <= b <= st
    ensures b <= head && b !in fails
  {
    var failed := BlockRange(from, head) * fails;
    assert failed != {} ==> st + 1 in BlockRange(from, head);
    assert b in fails ==> b in failed;
  }

  /** A pass over a window that reaches at least as far as before, without a failing block, leaves the
      whole chain exactly when what lay below the window was already the chain's. */
  lemma CleanPassIff(chain: Chain, start: nat, from: nat, was: Snapshot, head: int, fails: set<nat>, now: Snapshot)
    requires NumberedChain(chain) && start <= from <= was.scannedThrough + 1 && was.scannedThrough <= head
    requires PassDone(chain, was, from, head, fails, now) && BlockRange(from, head) !! fails
    ensures now.scannedThrough == head
    ensures Whole(chain, start, now) <==> ExactBelow(chain, start, was.remarks, from)
  {
    assert BlockRange(from, head) * fails == {};
    WholeBlocks(chain, start, now);
    forall b: nat | from <= b ensures AtBlock(now.remarks, b) == ScannedBlock(chain, start, head, b) {
      assert AtBlock(now.remarks, b) == WindowBlock(chain, was, from, head, fails, b);
      assert b <= head ==> b in BlockRange(from, head);
    }
    forall b: nat | b < from ensures AtBlock(now.remarks, b) == AtBlock(was.remarks, b) {
      assert AtBlock(now.remarks, b) == WindowBlock(chain, was, from, head, fails, b);
    }
    if Whole(chain, start, now) {
      forall b: nat | b < from ensures AtBlock(was.remarks, b) == OnChain(chain, start, b) {
        assert AtBlock(now.remarks, b) == ScannedBlock(chain, start, head, b);
      }
    }
  }

  /** Reorganisations: a snapshot that was sound for one chain is sound for another exactly when the two
      agree on the scanned blocks below the rescan point. */
  lemma SoundAfterReorgIff(a: Chain, b: Chain, start: nat, cacheHit: bool, s: Snapshot)
    requires Sound(a, start, cacheHit, s)
    ensures Sound(b, start, cacheHit, s) <==>
            forall n: nat :: start <= n < RescanPoint(start, cacheHit, s.scannedThrough) ==> a(n) == b(n)
  {
    var limit := RescanPoint(start, cacheHit, s.scannedThrough);
    forall n: nat | n < limit ensures AtBlock(s.remarks, n) == OnChain(a, start, n) {}
    if Sound(b, start, cacheHit, s) {
      forall n: nat | start <= n < limit ensures a(n) == b(n) {
        assert AtBlock(s.remarks, n) == OnChain(b, start, n);
      }
    }
  }

  // ----- The session -----

  class Indexer {
    const slot: CacheSlot
    const cacheHit: bool
    /** localStorage outlives the session. */
    const storage: LocalStorage
    var scannedThrough: int
    var remarks: seq<Remark>

    /** The refs, seeded from what the cache gave. */
    constructor (slot: CacheSlot, storage: LocalStorage, cached: Option<Snapshot>)
      ensures this.slot == slot && this.storage == storage && cacheHit == cached.Some?
      ensures Refs() == if cached.Some? then cached.value else Snapshot(slot.startBlock - 1, [])
    {
      this.slot, this.storage, this.cacheHit := slot, storage, cached.Some?;
      if cached.Some? {
        this.scannedThrough, this.remarks := cached.value.scannedThrough, cached.value.remarks;
      } else {
        this.scannedThrough, this.remarks := slot.startBlock - 1, [];
      }
    }

    function Refs(): (s: Snapshot)
      reads this
    {
      Snapshot(scannedThrough, remarks)
    }

    /** What a reload would start from. */
    function Cached(): Option<Snapshot>
      reads storage
    {
      Readable(storage.items, slot)
    }

    /** `persist()`, or a chunk. */
    method Persist(s: Snapshot, reliable: bool) returns (written: bool)
      requires slot.startBlock - 1 <= s.scannedThrough
      modifies storage
      ensures Cached() == if written then Some(s) else old(Cached())
      ensures reliable ==> written
    {
      written := storage.WriteCache(slot, s, reliable);
      ReadAfterWrite(old(storage.items), slot, slot, s);
    }

    /** What a chunk holds: the old remarks below the window, then what has landed through `st`. */
    method ChunkOf(chain: Chain, from: nat, head: int, scan: UiScan) returns (s: Snapshot)
      requires UiScanOk(scan, chain, from, head)
      ensures Chunk(chain, remarks, from, s) && s.scannedThrough == scan.scannedThrough
    {
      var preserved := Below(remarks, from);
      var landedUpTo := Below(scan.pool.remarks, scan.scannedThrough + 1);
      s := Snapshot(scan.scannedThrough, preserved + landedUpTo);
      forall b: nat ensures AtBlock(s.remarks, b) == ChunkBlock(chain, remarks, from, s.scannedThrough, b) {
        AtBlockAppend(preserved, landedUpTo, b);
        BelowBlocks(remarks, from, b);
        BelowBlocks(scan.pool.remarks, scan.scannedThrough + 1, b);
        LandedBlock(chain, from, head, scan, b);
      }
    }

    /** The callback that runs each time the prefix may have grown. It writes a chunk when 500 blocks
        are unsaved, and when the last write was long ago; with reliable storage fewer are unsaved afterwards. */
    method OnProgress(chain: Chain, from: nat, head: int, scan: UiScan, lastPersistedBlock: int,
                      waitedLong: bool, reliable: bool)
      returns (persisted: int)
      requires UiScanOk(scan, chain, from, head) && slot.startBlock <= from
      modifies this`scannedThrough, storage
      ensures scannedThrough == Greater(old(scannedThrough), scan.scannedThrough)
      ensures Cached() == old(Cached()) || (Cached().Some? && Chunk(chain, remarks, from, Cached().value))
      ensures reliable ==>
                || (Cached() == old(Cached()) && persisted == lastPersistedBlock)
                || (Cached().Some? && Chunk(chain, remarks, from, Cached().value) && persisted == Cached().value.scannedThrough)
      ensures scan.scannedThrough - persisted < 500
      ensures !waitedLong && scan.scannedThrough - lastPersistedBlock < 500 ==>
                Cached() == old(Cached()) && persisted == lastPersistedBlock
      ensures persisted == lastPersistedBlock || from - 1 <= persisted
    {
      scannedThrough := Greater(scannedThrough, scan.scannedThrough);
      persisted := lastPersistedBlock;
      if scan.scannedThrough - lastPersistedBlock >= PERSIST_CHUNK_BLOCKS || waitedLong {
        var s := ChunkOf(chain, from, head, scan);
        var _ := Persist(s, reliable);
        persisted := scan.scannedThrough;
      }
    }

    /** In the middle of a pass over `from..` that began with the cursor at `was` and `before` in the cache: the
        cursor, the cache, and how much is unsaved. */
    ghost predicate Underway(chain: Chain, from: nat, was: int, before: Option<Snapshot>, scan: UiScan,
                             persisted: int, reliable: bool)
      reads this, storage
    {
      && scannedThrough == Greater(was, scan.scannedThrough)
      && (Cached() == before || (Cached().Some? && Chunk(chain, remarks, from, Cached().value)))
      && SavedUpTo(was, Cached(), persisted, scan.scannedThrough, reliable)
    }

    /** A fetch ends, and the worker deals with the block up to its next claim. */
    method FetchEnds(chain: Chain, from: nat, head: int, fails: set<nat>, ghost was: int, ghost before: Option<Snapshot>,
                     scan: UiScan, n: nat, lastPersistedBlock: int, reliable: bool)
      returns (after: UiScan, persisted: int)
      requires UiScanOk(scan, chain, from, head) && slot.startBlock <= from && n in scan.pool.awaiting
      requires scan.pool.landed !! fails && scan.pool.failed <= fails
      requires Underway(chain, from, was, before, scan, lastPersistedBlock, reliable) && was + 1 - from <= 10
      modifies this`scannedThrough, storage
      ensures UiScanOk(after, chain, from, head) && Open(after.pool, from, head) == Open(scan.pool, from, head) - {n}
      ensures after.pool.landed !! fails && after.pool.failed <= fails
      ensures Underway(chain, from, was, before, after, persisted, reliable)
    {
      if n in fails {
        after := FailBlock(scan, chain, from, head, n);
        persisted := lastPersistedBlock;
      } else {
        after := LandBlock(scan, chain, from, head, n);
        var waitedLong: bool := *;
        persisted := OnProgress(chain, from, head, after, lastPersistedBlock, waitedLong, reliable);
      }
    }

    /** The scan of a pass with its callbacks. The tab closes once `closeAfter` fetches have ended, if ever. */
    method Fetch(chain: Chain, from: nat, head: int, fails: set<nat>, closeAfter: Option<nat>, reliable: bool)
      returns (closed: bool, scan: UiScan)
      requires NumberedChain(chain) && slot.startBlock <= from <= head && from <= scannedThrough + 1
      requires scannedThrough + 1 - from <= 10
      modifies this`scannedThrough, storage
      ensures UiScanOk(scan, chain, from, head)
      ensures closed ==> closeAfter.Some?
      ensures !closed ==> scan.pool.awaiting == {} && scan.pool.next > head
      ensures scan.pool.landed !! fails && scan.pool.failed <= fails
      ensures scannedThrough == Greater(old(scannedThrough), scan.scannedThrough)
      ensures Cached() == old(Cached()) || (Cached().Some? && Chunk(chain, remarks, from, Cached().value))
      ensures reliable ==>
                || scannedThrough - old(scannedThrough) < 500
                || (Cached().Some? && scannedThrough - Cached().value.scannedThrough < 500)
    {
      ghost var was, before := scannedThrough, Cached();
      var lastPersistedBlock := scannedThrough;
      var pool := StartWorkers(chain, from, head, Lesser(16, head - from + 1));
      var ended := 0;
      scan := UiScan(pool, {}, from - 1);
      while scan.pool.awaiting != {}
        invariant UiScanOk(scan, chain, from, head) && (scan.pool.next <= head ==> scan.pool.awaiting != {})
        invariant scan.pool.landed !! fails && scan.pool.failed <= fails
        invariant Underway(chain, from, was, before, scan, lastPersistedBlock, reliable)
        decreases Open(scan.pool, from, head)
      {
        if closeAfter == Some(ended) { return true, scan; }
        var n :| n in scan.pool.awaiting;
        StillOpen(scan.pool, chain, from, head, n);
        scan, lastPersistedBlock := FetchEnds(chain, from, head, fails, was, before, scan, n, lastPersistedBlock, reliable);
        ended := ended + 1;
        scan := ClaimNext(scan, chain, from, head, false);
      }
      var waitedLong: bool := *;
      lastPersistedBlock := OnProgress(chain, from, head, scan, lastPersistedBlock, waitedLong, reliable);
      closed := closeAfter == Some(ended);
    }

    /** `catchUp`, when no other pass is in flight. `chain` is what this pass's fetches return, `fails` the blocks
        whose fetch fails. Of a tab that closes nothing but the cache survives: the old snapshot or a chunk, and
        with reliable storage it lags the scanned prefix by less than one chunk. */
    method CatchUp(chain: Chain, head: int, fails: set<nat>, closeAfter: Option<nat>, reliable: bool)
      returns (closed: bool, ghost collected: seq<Remark>)
      requires NumberedChain(chain) && slot.startBlock - 1 <= scannedThrough
      modifies this, storage
      ensures closed ==> closeAfter.Some?
      ensures var from := RescanPoint(slot.startBlock, cacheHit, old(scannedThrough));
              from <= head && !closed ==>
                && remarks == MergeFresh(old(remarks), collected, from) && AllFrom(collected, from)
                && (InBlockOrder(remarks) <==> InBlockOrder(Below(old(remarks), from)) && InBlockOrder(collected))
      ensures var from := RescanPoint(slot.startBlock, cacheHit, old(scannedThrough));
              && (from > head ==> !closed && Refs() == old(Refs()) && Cached() == old(Cached()))
              && (from <= head && !closed ==>
                    && PassDone(chain, old(Refs()), from, head, fails, Refs())
                    && (reliable ==> Cached() == Some(Refs()))
                    && (Cached() == Some(Refs()) || Cached() == old(Cached()) ||
                        (Cached().Some? && Chunk(chain, old(remarks), from, Cached().value))))
              && (closed ==> Cached() == old(Cached()) || (Cached().Some? && Chunk(chain, old(remarks), from, Cached().value)))
              && (closed && reliable ==>
                    || scannedThrough - old(scannedThrough) < 500
                    || (Cached().Some? && scannedThrough - Cached().value.scannedThrough < 500))
    {
      ghost var was := Refs();
      var from := RescanPoint(slot.startBlock, cacheHit, scannedThrough);
      if from > head { return false, []; }
      var scan: UiScan;
      closed, scan := Fetch(chain, from, head, fails, closeAfter, reliable);
      collected := scan.pool.remarks;
      if closed { return; }
      LandedFrom(chain, from, head, scan);
      MergedInOrderIff(remarks, collected, from);
      AllSettled(scan, chain, from, head);
      FailsSplit(scan.pool, from, head, fails);
      remarks := MergeFresh(remarks, scan.pool.remarks, from);
      MergedBlocks(chain, was, from, head, scan, fails);
      var _ := Persist(Refs(), reliable);
    }
  }

  /** Less than one chunk of the prefix is unsaved: it was saved before the pass, or by the last chunk. */
  ghost predicate SavedUpTo(was: int, cache: Option<Snapshot>, persisted: int, through: int, reliable: bool) {
    && through - persisted < 500
    && was - persisted < 500
    && (reliable ==> persisted == was || (cache.Some? && persisted == cache.value.scannedThrough))
  }

  /** What merging leaves in each block. */
  lemma MergedBlocks(chain: Chain, was: Snapshot, from: nat, head: int, scan: UiScan, fails: set<nat>)
    requires UiScanOk(scan, chain, from, head) && SplitBy(scan.pool, from, head, fails)
    ensures forall b: nat :: AtBlock(MergeFresh(was.remarks, scan.pool.remarks, from), b) ==
                             WindowBlock(chain, was, from, head, fails, b)
  {
    forall b: nat ensures AtBlock(MergeFresh(was.remarks, scan.pool.remarks, from), b) ==
                          WindowBlock(chain, was, from, head, fails, b)
    {
      AtBlockAppend(Below(was.remarks, from), scan.pool.remarks, b);
      BelowBlocks(was.remarks, from, b);
      LandedBlock(chain, from, head, scan, b);
      assert AtBlock(scan.pool.remarks, b) == IfLanded(chain, scan.pool.landed, b);
    }
  }

  lemma LandedFrom(chain: Chain, from: nat, head: int, scan: UiScan)
    requires UiScanOk(scan, chain, from, head)
    ensures AllFrom(scan.pool.remarks, from)
  {
    forall r | r in scan.pool.remarks ensures from <= r.blockNumber {
      AtBlockMembers(scan.pool.remarks, r.blockNumber);
      assert r in AtBlock(scan.pool.remarks, r.blockNumber);
      LandedBlock(chain, from, head, scan, r.blockNumber);
    }
  }

  /** Which blocks of the window have landed, around the end of the contiguous prefix. */
  lemma LandedBlock(chain: Chain, from: nat, head: int, scan: UiScan, b: nat)
    requires UiScanOk(scan, chain, from, head)
    ensures b < from ==> AtBlock(scan.pool.remarks, b) == []
    ensures from <= b <= scan.scannedThrough ==> AtBlock(scan.pool.remarks, b) == chain(b)
  {
    assert b in scan.pool.landed ==> b in BlockRange(from, Lesser(scan.pool.next - 1, head));
  }

  // ----- Whole lifetimes -----

  /** Mounting: read the cache, seed the refs. */
  method Mount(slot: CacheSlot, storage: LocalStorage) returns (session: Indexer)
    modifies storage
    ensures fresh(session) && session.slot == slot && session.storage == storage
    ensures session.cacheHit == old(Readable(storage.items, slot)).Some?
    ensures session.Refs() == if session.cacheHit then old(Readable(storage.items, slot)).value
                              else Snapshot(slot.startBlock - 1, [])
    ensures forall other: CacheSlot :: Readable(storage.items, other) == old(Readable(storage.items, other))
  {
    var cached := storage.ReadCache(slot);
    session := new Indexer(slot, storage, cached);
  }

  ghost predicate CacheSound(chain: Chain, slot: CacheSlot, cached: Option<Snapshot>) {
    cached.Some? ==> Sound(chain, slot.startBlock, true, cached.value)
  }

  /** Any number of passes with any failing blocks and any targets, tabs closed at any point, cache writes
      that fail, caches that are cleared, reloads, other proposals' pages writing to the same storage under
      keys that may clash: between passes the refs and the stored snapshot are exact below the block the next
      pass starts from. */
  method Lifetime(chain: Chain, slot: CacheSlot, steps: nat)
    returns (refs: Snapshot, cacheHit: bool, cached: Option<Snapshot>)
    requires NumberedChain(chain)
    ensures Sound(chain, slot.startBlock, cacheHit, refs)
    ensures CacheSound(chain, slot, cached)
  {
    var storage := new LocalStorage();
    var session := Mount(slot, storage);
    for k := 0 to steps
      invariant fresh(session) && fresh(storage) && session.slot == slot && session.storage == storage
      invariant Sound(chain, slot.startBlock, session.cacheHit, session.Refs())
      invariant CacheSound(chain, slot, session.Cached())
    {
      var other: CacheSlot, snapshot: Snapshot := *, *;
      if other != slot {
        Intrude(chain, slot, storage, other, snapshot);
      }
      var reload: bool := *;
      if !reload {
        var head: int, fails: set<nat>, closeAfter: Option<nat>, reliable: bool := *, *, *, *;
        reload := RunPass(chain, session, head, fails, closeAfter, reliable);
      }
      if reload {
        if * { storage.ClearCache(slot); }
        session := Mount(slot, storage);
      }
    }
    refs, cacheHit, cached := session.Refs(), session.cacheHit, session.Cached();
  }

  /** Another slot's page writes its snapshot. */
  method Intrude(ghost chain: Chain, ghost slot: CacheSlot, storage: LocalStorage, other: CacheSlot, snapshot: Snapshot)
    requires other != slot && CacheSound(chain, slot, Readable(storage.items, slot))
    modifies storage
    ensures CacheSound(chain, slot, Readable(storage.items, slot))
  {
    var _ := storage.WriteCache(other, snapshot, true);
    ReadAfterWrite(old(storage.items), slot, other, snapshot);
  }

  /** A pass, and what it leaves behind. */
  method RunPass(chain: Chain, session: Indexer, head: int, fails: set<nat>, closeAfter: Option<nat>, reliable: bool)
    returns (closed: bool)
    requires NumberedChain(chain)
    requires Sound(chain, session.slot.startBlock, session.cacheHit, session.Refs())
    requires CacheSound(chain, session.slot, session.Cached())
    modifies session, session.storage
    ensures CacheSound(chain, session.slot, session.Cached())
    ensures !closed ==> Sound(chain, session.slot.startBlock, session.cacheHit, session.Refs())
  {
    ghost var was := session.Refs();
    ghost var collected;
    closed, collected := session.CatchUp(chain, head, fails, closeAfter, reliable);
    PassOutcome(chain, session.slot.startBlock, session.cacheHit, was, head, fails, session.Refs(), session.Cached());
  }

  /** Whatever a pass leaves behind is sound. */
  lemma PassOutcome(chain: Chain, start: nat, cacheHit: bool, was: Snapshot, head: int, fails: set<nat>,
                    now: Snapshot, cache: Option<Snapshot>)
    requires NumberedChain(chain) && Sound(chain, start, cacheHit, was)
    ensures var from := RescanPoint(start, cacheHit, was.scannedThrough);
            && (from <= head && PassDone(chain, was, from, head, fails, now) ==>
                  Sound(chain, start, cacheHit, now) && Sound(chain, start, true, now))
            && (cache.Some? && Chunk(chain, was.remarks, from, cache.value) ==> Sound(chain, start, true, cache.value))
  {
    var from := RescanPoint(start, cacheHit, was.scannedThrough);
    if from <= head && PassDone(chain, was, from, head, fails, now) {
      PassKeepsSound(chain, start, cacheHit, was, head, fails, now);
      SoundAfterReload(chain, start, cacheHit, now);
    }
    if cache.Some? && Chunk(chain, was.remarks, from, cache.value) {
      ChunkIsWhole(chain, start, cacheHit, was, cache.value);
      WholeIsSound(chain, start, cache.value);
    }
  }

  /** Crash and resume equal a full scan: from any sound state a pass without failing blocks, to a target no
      lower than what was scanned, leaves the whole chain. */
  lemma CleanPassIsFullScan(chain: Chain, start: nat, cacheHit: bool, was: Snapshot, head: int, fails: set<nat>, now: Snapshot)
    requires NumberedChain(chain) && Sound(chain, start, cacheHit, was) && was.scannedThrough <= head
    requires var from := RescanPoint(start, cacheHit, was.scannedThrough);
             PassDone(chain, was, from, head, fails, now) && BlockRange(from, head) !! fails
    ensures now.scannedThrough == head && SameBlocks(now.remarks, Scan(chain, start, head))
  {
    CleanPassIff(chain, start, RescanPoint(start, cacheHit, was.scannedThrough), was, head, fails, now);
  }

  /** Reorganisations heal exactly when they touch nothing but the window: for a resumed session, the last
      ten scanned blocks; for a session without a cache, none of the scanned blocks. */
  lemma ReorgHealsIff(before: Chain, after: Chain, start: nat, cacheHit: bool, was: Snapshot,
                      head: int, fails: set<nat>, now: Snapshot)
    requires NumberedChain(after) && Sound(before, start, cacheHit, was) && was.scannedThrough <= head
    requires var from := RescanPoint(start, cacheHit, was.scannedThrough);
             PassDone(after, was, from, head, fails, now) && BlockRange(from, head) !! fails
    ensures Whole(after, start, now) <==>
            forall n: nat :: start <= n <= (if cacheHit then was.scannedThrough - 10 else was.scannedThrough)
                             ==> before(n) == after(n)
  {
    CleanPassIff(after, start, RescanPoint(start, cacheHit, was.scannedThrough), was, head, fails, now);
    SoundAfterReorgIff(before, after, start, cacheHit, was);
  }
}
