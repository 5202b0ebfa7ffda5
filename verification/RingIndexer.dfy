/** The faucet's live index of remarks (packages/api/src/faucet/ring-indexer.service.ts). */
module RingIndexer {
  import opened Text
  import opened Log
  import opened Ring
  import opened Announced
  import opened Workers

  /** The index holds the remarks of exactly the blocks in `got`, in block order. */
  ghost predicate Holds(chain: Chain, got: set<nat>, remarks: seq<Remark>) {
    && InBlockOrder(remarks)
    && forall r: Remark :: r in remarks <==> r.blockNumber in got && r in chain(r.blockNumber)
  }

  /** A catch-up scan whose fetches are under way. */
  datatype Pass = Pass(from: nat, upTo: int)

  /** Passes start no later than the first block nobody has scanned; several may be under way at once. */
  ghost predicate PassesOk(start: nat, scannedThrough: int, passes: seq<Pass>) {
    forall i :: 0 <= i < |passes| ==> start <= passes[i].from <= passes[i].upTo && passes[i].from <= scannedThrough + 1
  }

  class Indexer {
    const proposal: Proposal
    const start: nat
    var remarks: seq<Remark>
    var scannedThrough: int

    constructor (proposal: Proposal, start: nat)
      ensures this.proposal == proposal && this.start == start
      ensures remarks == [] && scannedThrough == start - 1
    {
      this.proposal, this.start, this.remarks, this.scannedThrough := proposal, start, [], start - 1;
    }

    /** `catchUpTo` up to its first fetch. */
    method BeginPass(upTo: int) returns (pass: Option<Pass>)
      requires start - 1 <= scannedThrough
      ensures pass == if scannedThrough < upTo then Some(Pass(scannedThrough + 1, upTo)) else None
    {
      var from := scannedThrough + 1;
      if from > upTo { return None; }
      return Some(Pass(from, upTo));
    }

    /** `catchUpTo` after its last fetch: append, sort, advance. */
    method EndPass(chain: Chain, pass: Pass, scanned: seq<Remark>, ghost landed: set<nat>, ghost got: set<nat>)
      requires NumberedChain(chain) && Holds(chain, got, remarks)
      requires scanned == ScanSome(chain, pass.from, pass.upTo, landed) && landed <= BlockRange(pass.from, pass.upTo)
      modifies this
      ensures Holds(chain, got + landed, remarks)
      ensures scannedThrough == Greater(old(scannedThrough), pass.upTo)
    {
      ghost var before := remarks;
      remarks := remarks + scanned;
      remarks := SortByBlock(remarks);
      scannedThrough := Greater(scannedThrough, pass.upTo);
      SortIsStable(before + scanned);
      forall r: Remark ensures r in remarks <==> r.blockNumber in got + landed && r in chain(r.blockNumber) {
        ScannedRemark(chain, pass.from, pass.upTo, landed, r);
        assert r in Seen(remarks) <==> r in Seen(before + scanned);
      }
    }

    /** The ring the faucet checks a drip against. */
    method GetRingAt(block: nat) returns (ring: Option<seq<string>>)
      ensures ring == if block > scannedThrough then None
                      else Some(CanonicalRing(Seen(remarks), proposal, block))
    {
      if block > scannedThrough { return None; }
      var votingStart := FindVotingStartBlock(remarks, proposal);
      var r := ComputeRingAt(remarks, proposal, block, votingStart);
      return Some(r);
    }

    method GetAnnouncedVoterCount() returns (count: nat)
      requires proposal.allowed.Some?
      ensures count == |AnnouncedSigners(Seen(remarks), proposal, VotingStart(Seen(remarks), proposal))|
    {
      count := AnnouncedVoterCount(remarks, proposal);
    }
  }

  lemma ScannedRemark(chain: Chain, from: nat, upTo: int, landed: set<nat>, r: Remark)
    requires NumberedChain(chain) && landed <= BlockRange(from, upTo)
    ensures r in ScanSome(chain, from, upTo, landed) <==> r.blockNumber in landed && r in chain(r.blockNumber)
  {
    var s := ScanSome(chain, from, upTo, landed);
    ScanSomeBlocks(chain, from, upTo, landed);
    AtBlockMembers(s, r.blockNumber);
    assert AtBlock(s, r.blockNumber) == Taken(chain, from, upTo, landed, r.blockNumber);
    assert r.blockNumber in landed ==> r.blockNumber in BlockRange(from, upTo);
  }

  /** One pass: its fetches, then what it adds to an index that may have grown meanwhile. */
  method RunPass(index: Indexer, chain: Chain, pass: Pass, fails: set<nat>, destroyAfter: Option<nat>, ghost got: set<nat>)
    returns (destroyed: bool)
    requires NumberedChain(chain) && Holds(chain, got, index.remarks) && pass.from <= pass.upTo
    modifies index
    ensures destroyed ==> destroyAfter.Some? && index.remarks == old(index.remarks) && index.scannedThrough == old(index.scannedThrough)
    ensures !destroyed ==>
              && Holds(chain, got + (BlockRange(pass.from, pass.upTo) - fails), index.remarks)
              && index.scannedThrough == Greater(old(index.scannedThrough), pass.upTo)
  {
    var scanned: seq<Remark>;
    ghost var landed;
    scanned, destroyed, landed := ScanRange(chain, pass.from, pass.upTo, fails, destroyAfter);
    if !destroyed {
      index.EndPass(chain, pass, scanned, BlockRange(pass.from, pass.upTo) - fails, got);
    }
  }

  /** Any number of head ticks, passes that overlap in any way and scan the same range twice, blocks whose
      fetch fails, a service that is destroyed while passes are under way. `missed` collects the blocks that
      failed in some pass. If there are none, every ring the index gives out is that of the plain chain. */
  method Serve(chain: Chain, proposal: Proposal, start: nat, steps: nat)
    returns (index: Indexer, ghost got: set<nat>, ghost missed: set<nat>)
    requires NumberedChain(chain)
    ensures index.proposal == proposal && index.start == start && start - 1 <= index.scannedThrough
    ensures Holds(chain, got, index.remarks)
    ensures got <= BlockRange(start, index.scannedThrough) <= got + missed
    ensures missed == {} ==>
              forall b: nat, upTo: int :: b <= index.scannedThrough <= upTo ==>
                CanonicalRing(Seen(index.remarks), proposal, b) == CanonicalRing(Seen(Scan(chain, start, upTo)), proposal, b)
  {
    index := new Indexer(proposal, start);
    got, missed := {}, {};
    var passes: seq<Pass> := [];
    for k := 0 to steps
      invariant fresh(index) && index.proposal == proposal && index.start == start && start - 1 <= index.scannedThrough
      invariant Holds(chain, got, index.remarks) && PassesOk(start, index.scannedThrough, passes)
      invariant got <= BlockRange(start, index.scannedThrough) <= got + missed
    {
      var tick: bool := *;
      if tick || passes == [] {
        var head: int := *;
        var pass := index.BeginPass(head);
        if pass.Some? { passes := passes + [pass.value]; }
      } else {
        var i :| 0 <= i < |passes|;
        var pass := passes[i];
        passes := passes[..i] + passes[i + 1..];
        var fails: set<nat>, destroyAfter: Option<nat> := *, *;
        ghost var before := index.scannedThrough;
        var destroyed := RunPass(index, chain, pass, fails, destroyAfter, got);
        if destroyed { break; }
        ghost var landed := BlockRange(pass.from, pass.upTo) - fails;
        ghost var failed := BlockRange(pass.from, pass.upTo) * fails;
        GrowIndex(start, before, pass, got, missed, landed, failed);
        got, missed := got + landed, missed + failed;
      }
    }
    RingsAgree(chain, start, index.scannedThrough, got, missed, index.remarks, proposal);
  }

  lemma GrowIndex(start: nat, scannedThrough: int, pass: Pass, got: set<nat>, missed: set<nat>, landed: set<nat>, failed: set<nat>)
    requires start - 1 <= scannedThrough && start <= pass.from <= pass.upTo && pass.from <= scannedThrough + 1
    requires got <= BlockRange(start, scannedThrough) <= got + missed
    requires landed == BlockRange(pass.from, pass.upTo) - failed
    ensures got + landed <= BlockRange(start, Greater(scannedThrough, pass.upTo)) <= got + landed + (missed + failed)
  {
    var st := Greater(scannedThrough, pass.upTo);
    forall b: nat | b in BlockRange(start, st) ensures b in got + landed + (missed + failed) {
      assert b in BlockRange(start, scannedThrough) || b in BlockRange(pass.from, pass.upTo);
    }
    forall b: nat | b in got + landed ensures b in BlockRange(start, st) {
      assert b in got ==> b in BlockRange(start, scannedThrough);
      assert b in landed ==> b in BlockRange(pass.from, pass.upTo);
    }
  }

  // ----- Agreement with the plain chain -----

  lemma RingsAgree(chain: Chain, start: nat, scannedThrough: int, got: set<nat>, missed: set<nat>, remarks: seq<Remark>, p: Proposal)
    requires NumberedChain(chain) && Holds(chain, got, remarks)
    requires got <= BlockRange(start, scannedThrough) <= got + missed
    ensures missed == {} ==>
              forall b: nat, upTo: int :: b <= scannedThrough <= upTo ==>
                CanonicalRing(Seen(remarks), p, b) == CanonicalRing(Seen(Scan(chain, start, upTo)), p, b)
  {
    if missed == {} {
      forall b: nat, upTo: int | b <= scannedThrough <= upTo
        ensures CanonicalRing(Seen(remarks), p, b) == CanonicalRing(Seen(Scan(chain, start, upTo)), p, b)
      {
        RingAtAgrees(chain, start, scannedThrough, got, remarks, p, b, upTo);
      }
    }
  }

  /** The rings the faucet hands out are final and the same for everyone: at every scanned block, the ring of
      the plain scan to any later block, so of every auditor and every tally. */
  lemma RingAtAgrees(chain: Chain, start: nat, scannedThrough: int, got: set<nat>, remarks: seq<Remark>,
                     p: Proposal, b: nat, upTo: int)
    requires NumberedChain(chain) && Holds(chain, got, remarks) && got == BlockRange(start, scannedThrough)
    requires b <= scannedThrough <= upTo
    ensures CanonicalRing(Seen(remarks), p, b) == CanonicalRing(Seen(Scan(chain, start, upTo)), p, b)
  {
    ScanBlocks(chain, start, upTo);
    SnapshotStable(Seen(remarks), Seen(Scan(chain, start, upTo)), p, scannedThrough, b);
  }

  lemma LostRemarksShow(chain: Chain, start: nat, scannedThrough: int, got: set<nat>, remarks: seq<Remark>, b: nat)
    requires NumberedChain(chain) && Holds(chain, got, remarks)
    requires start <= b <= scannedThrough && b !in got && chain(b) != []
    ensures Seen(remarks) != Seen(Scan(chain, start, scannedThrough))
  {
    var r := chain(b)[0];
    ScanBlocks(chain, start, scannedThrough);
    assert r in Seen(Scan(chain, start, scannedThrough)) && r !in Seen(remarks);
  }

  /** A failed fetch is not retried once `scannedThrough` has moved past it. The index is fully scanned
      exactly when the blocks it lost had no remarks. */
  lemma FullyScannedIff(chain: Chain, start: nat, scannedThrough: int, got: set<nat>, remarks: seq<Remark>)
    requires NumberedChain(chain) && Holds(chain, got, remarks) && got <= BlockRange(start, scannedThrough)
    ensures Seen(remarks) == Seen(Scan(chain, start, scannedThrough)) <==>
            forall b: nat :: start <= b <= scannedThrough && b !in got ==> chain(b) == []
  {
    var full := Scan(chain, start, scannedThrough);
    ScanBlocks(chain, start, scannedThrough);
    forall b: nat | start <= b <= scannedThrough && b !in got && chain(b) != [] ensures Seen(remarks) != Seen(full) {
      LostRemarksShow(chain, start, scannedThrough, got, remarks, b);
    }
    if forall b: nat :: start <= b <= scannedThrough && b !in got ==> chain(b) == [] {
      forall r: Remark ensures r in Seen(remarks) <==> r in Seen(full) {
        assert r.blockNumber in got ==> r.blockNumber in BlockRange(start, scannedThrough);
      }
    }
  }

  /** A lost block can change the ring: an announce nobody else's key stands in for is missing from it. */
  lemma LostAnnounceChangesRing(full: set<Remark>, held: set<Remark>, p: Proposal, b: nat, r: Remark)
    requires Winner(Window(full, b), p, VotingStart(full, p), r)
    requires forall q :: q in held && Eligible(q, p, None) ==> RankOf(q).vkPub != RankOf(r).vkPub
    ensures RankOf(r).vkPub in CanonicalRing(full, p, b)
    ensures RankOf(r).vkPub !in CanonicalRing(held, p, b)
  {
    WinnerInRing(Window(full, b), p, VotingStart(full, p), r);
    forall q | q in Window(held, b) && Winner(Window(held, b), p, VotingStart(held, p), q)
      ensures RankOf(q).vkPub != RankOf(r).vkPub
    {
      assert Eligible(q, p, None);
    }
    var ring := CanonicalRing(held, p, b);
    assert forall k :: k in ring <==> k in KeySet(ring);
  }
}
