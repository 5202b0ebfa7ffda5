/** The three loops that say who has announced: the tally's gate for clear votes, the faucet's
    voter count, and the browser's `useRing` (packages/shared/src/index.ts,
    packages/api/src/faucet/ring-indexer.service.ts, packages/ui/src/hooks/useRing.ts). */
module Announced {
  import opened Text
  import opened Wire
  import opened Log
  import opened Ring
  import Sets

  function AnnouncedSigners(log: set<Remark>, p: Proposal, start: Option<nat>): set<string> {
    set r | r in log && Eligible(r, p, start) :: r.signer
  }

  lemma LatestStep(log: set<Remark>, p: Proposal, start: Option<nat>, latest: map<string, Rank>, r: Remark)
    returns (updated: map<string, Rank>)
    requires LatestPerVoter(log, p, start, latest)
    ensures LatestPerVoter(log + {r}, p, start, updated)
  {
    if Replaces(p, start, latest, r) {
      LatestReplaced(log, p, start, latest, r);
      updated := latest[r.signer := RankOf(r)];
    } else {
      LatestKept(log, p, start, latest, r);
      updated := latest;
    }
  }

  lemma {:induction false} LatestExists(log: set<Remark>, p: Proposal, start: Option<nat>)
    returns (latest: map<string, Rank>)
    ensures LatestPerVoter(log, p, start, latest)
  {
    latest := map[];
    if log != {} {
      var r :| r in log;
      latest := LatestExists(log - {r}, p, start);
      latest := LatestStep(log - {r}, p, start, latest, r);
      assert log - {r} + {r} == log;
    }
  }

  /** For each announced signer, the announce that counts. */
  ghost function Latest(log: set<Remark>, p: Proposal, start: Option<nat>): (latest: map<string, Rank>)
    ensures LatestPerVoter(log, p, start, latest)
    ensures latest.Keys == AnnouncedSigners(log, p, start)
    ensures RingKeys(log, p, start) == set s | s in latest :: latest[s].vkPub
  {
    assert exists latest :: LatestPerVoter(log, p, start, latest) by {
      var latest := LatestExists(log, p, start);
    }
    var latest :| LatestPerVoter(log, p, start, latest);
    LatestKeys(log, p, start, latest);
    latest
  }

  ghost predicate NoSharedKey(latest: map<string, Rank>) {
    forall s, t :: s in latest && t in latest && s != t ==> latest[s].vkPub != latest[t].vkPub
  }

  /** The ring never has more members than announced voters, and as many exactly when
      no two voters' counting announces name the same key. */
  lemma RingSize(log: set<Remark>, p: Proposal, start: Option<nat>)
    ensures var ring := Ascending(RingKeys(log, p, start));
            var signers := AnnouncedSigners(log, p, start);
            && |ring| <= |signers|
            && (|ring| == |signers| <==> NoSharedKey(Latest(log, p, start)))
  {
    var latest := Latest(log, p, start);
    var f := s => if s in latest then latest[s].vkPub else "";
    AscendingLength(Ascending(RingKeys(log, p, start)));
    assert Sets.Image(latest.Keys, f) == RingKeys(log, p, start);
    Sets.ImageSize(latest.Keys, f);
    assert Sets.InjectiveOn(latest.Keys, f) <==> NoSharedKey(latest) by {
      if NoSharedKey(latest) { assert Sets.InjectiveOn(latest.Keys, f); }
      if Sets.InjectiveOn(latest.Keys, f) {
        forall s, t | s in latest && t in latest && s != t ensures latest[s].vkPub != latest[t].vkPub {
          assert f(s) != f(t);
        }
      }
    }
  }

  /** Every announced voter's counting key is in the ring. */
  lemma WinnerInRing(log: set<Remark>, p: Proposal, start: Option<nat>, r: Remark)
    requires Winner(log, p, start, r)
    ensures RankOf(r).vkPub in Ascending(RingKeys(log, p, start))
  {
    assert RankOf(r).vkPub in KeySet(Ascending(RingKeys(log, p, start)));
  }

  // ----- The tally's gate and the faucet's count -----

  /** The loop of `tallyRemarks` that collects who may cast a clear vote. */
  method CollectAnnouncedSigners(remarks: seq<Remark>, p: Proposal, start: Option<nat>)
    returns (signers: set<string>)
    ensures signers == if start.None? then {} else AnnouncedSigners(Seen(remarks), p, start)
  {
    signers := {};
    if start.Some? {
      for i := 0 to |remarks|
        invariant signers == AnnouncedSigners(Seen(remarks[..i]), p, start)
      {
        var r := remarks[i];
        assert Seen(remarks[..i + 1]) == Seen(remarks[..i]) + {r};
        var parsed := ParseAnnounce(r.text);
        if parsed.None? { continue; }
        if parsed.value.proposalId != p.id { continue; }
        if p.allowed.Some? && r.signer !in p.allowed.value { continue; }
        if r.blockNumber >= start.value { continue; }
        signers := signers + {r.signer};
      }
      assert remarks[..|remarks|] == remarks;
    }
  }

  /** `getAnnouncedVoterCount` of the faucet's indexer. */
  method AnnouncedVoterCount(remarks: seq<Remark>, p: Proposal) returns (count: nat)
    requires p.allowed.Some?
    ensures count == |AnnouncedSigners(Seen(remarks), p, VotingStart(Seen(remarks), p))|
  {
    var start := FindVotingStartBlock(remarks, p);
    var seen: set<string> := {};
    for i := 0 to |remarks|
      invariant seen == AnnouncedSigners(Seen(remarks[..i]), p, start)
    {
      var r := remarks[i];
      assert Seen(remarks[..i + 1]) == Seen(remarks[..i]) + {r};
      if r.signer !in p.allowed.value { continue; }
      var parsed := ParseAnnounce(r.text);
      if parsed.None? || parsed.value.proposalId != p.id { continue; }
      if start.Some? && r.blockNumber >= start.value { continue; }
      seen := seen + {r.signer};
    }
    assert remarks[..|remarks|] == remarks;
    count := |seen|;
  }

  // ----- The browser's view -----

  /** `mine` pairs `myAnnounceBlock` with `myAnnouncedVk`: the code sets both or neither. */
  datatype RingState = RingState(ring: seq<string>, mine: Option<Rank>, announcedAt: map<string, nat>)

  /** `at[s]` is the last block in which `s` announced. */
  ghost predicate LastAnnounceBlocks(rs: seq<Remark>, p: Proposal, start: Option<nat>, at: map<string, nat>) {
    && (forall r :: r in rs && Eligible(r, p, start) ==> r.signer in at && r.blockNumber <= at[r.signer])
    && (forall s :: s in at ==> exists r :: r in rs && Eligible(r, p, start) && r.signer == s && r.blockNumber == at[s])
  }

  /** `rs[i]` is the first of `me`'s announces, in list order, among those in `me`'s last announce block. */
  ghost predicate FirstOfLastBlock(rs: seq<Remark>, p: Proposal, start: Option<nat>, me: string, i: nat) {
    && i < |rs| && rs[i].signer == me && Eligible(rs[i], p, start)
    && (forall j :: 0 <= j < |rs| && rs[j].signer == me && Eligible(rs[j], p, start) ==>
          rs[j].blockNumber <= rs[i].blockNumber)
    && (forall j :: 0 <= j < i && rs[j].signer == me && Eligible(rs[j], p, start) ==>
          rs[j].blockNumber < rs[i].blockNumber)
  }

  /** What the browser takes for `me`'s voting key and its block. */
  ghost predicate MyAnnounceIs(rs: seq<Remark>, p: Proposal, start: Option<nat>, me: string, mine: Option<Rank>) {
    match mine
    case None => forall i :: 0 <= i < |rs| && rs[i].signer == me ==> !Eligible(rs[i], p, start)
    case Some(rank) => exists i: nat :: FirstOfLastBlock(rs, p, start, me, i) && rank == RankOf(rs[i])
  }

  lemma LastBlocksAfter(rs: seq<Remark>, p: Proposal, start: Option<nat>, at: map<string, nat>, r: Remark)
    requires LastAnnounceBlocks(rs, p, start, at)
    ensures !Eligible(r, p, start) || (r.signer in at && r.blockNumber <= at[r.signer]) ==>
              LastAnnounceBlocks(rs + [r], p, start, at)
    ensures Eligible(r, p, start) && (r.signer !in at || r.blockNumber > at[r.signer]) ==>
              LastAnnounceBlocks(rs + [r], p, start, at[r.signer := r.blockNumber])
  {
    if !Eligible(r, p, start) || (r.signer in at && r.blockNumber <= at[r.signer]) {
      LastBlocksStay(rs, p, start, at, r);
    } else {
      LastBlockMoves(rs, p, start, at, r);
    }
  }

  lemma LastBlocksStay(rs: seq<Remark>, p: Proposal, start: Option<nat>, at: map<string, nat>, r: Remark)
    requires LastAnnounceBlocks(rs, p, start, at)
    requires !Eligible(r, p, start) || (r.signer in at && r.blockNumber <= at[r.signer])
    ensures LastAnnounceBlocks(rs + [r], p, start, at)
  {
    forall q | q in rs ensures q in rs + [r] {}
  }

  lemma LastBlockMoves(rs: seq<Remark>, p: Proposal, start: Option<nat>, at: map<string, nat>, r: Remark)
    requires LastAnnounceBlocks(rs, p, start, at)
    requires Eligible(r, p, start) && (r.signer !in at || r.blockNumber > at[r.signer])
    ensures LastAnnounceBlocks(rs + [r], p, start, at[r.signer := r.blockNumber])
  {
    assert r in rs + [r];
    forall q | q in rs ensures q in rs + [r] {}
  }

  /** The update rule of the loop, on one more remark. */
  function NextMine(mine: Option<Rank>, p: Proposal, start: Option<nat>, me: string, r: Remark): Option<Rank> {
    if r.signer == me && Eligible(r, p, start) && (mine.None? || r.blockNumber > mine.value.blockNumber)
    then Some(RankOf(r)) else mine
  }

  lemma FirstStays(rs: seq<Remark>, p: Proposal, start: Option<nat>, me: string, i: nat, r: Remark)
    requires FirstOfLastBlock(rs, p, start, me, i)
    requires r.signer == me && Eligible(r, p, start) ==> r.blockNumber <= rs[i].blockNumber
    ensures FirstOfLastBlock(rs + [r], p, start, me, i)
  {
    var all := rs + [r];
    assert forall j :: 0 <= j < |rs| ==> all[j] == rs[j];
  }

  lemma FirstMoves(rs: seq<Remark>, p: Proposal, start: Option<nat>, me: string, r: Remark)
    requires r.signer == me && Eligible(r, p, start)
    requires forall j :: 0 <= j < |rs| && rs[j].signer == me && Eligible(rs[j], p, start) ==>
               rs[j].blockNumber < r.blockNumber
    ensures FirstOfLastBlock(rs + [r], p, start, me, |rs|)
  {
    var all := rs + [r];
    assert forall j :: 0 <= j < |rs| ==> all[j] == rs[j];
  }

  lemma MyAnnounceAfter(rs: seq<Remark>, p: Proposal, start: Option<nat>, me: string, mine: Option<Rank>, r: Remark)
    requires MyAnnounceIs(rs, p, start, me, mine)
    ensures MyAnnounceIs(rs + [r], p, start, me, NextMine(mine, p, start, me, r))
  {
    var all := rs + [r];
    assert forall j :: 0 <= j < |rs| ==> all[j] == rs[j];
    assert all[|rs|] == r;
    if NextMine(mine, p, start, me, r) != mine {
      FirstMoves(rs, p, start, me, r);
      assert FirstOfLastBlock(all, p, start, me, |rs|);
    } else if mine.Some? {
      var i: nat :| FirstOfLastBlock(rs, p, start, me, i) && mine.value == RankOf(rs[i]);
      FirstStays(rs, p, start, me, i, r);
      assert FirstOfLastBlock(all, p, start, me, i);
    }
  }

  method UseRing(remarks: seq<Remark>, p: Proposal, realAddress: Option<string>) returns (state: RingState)
    requires p.allowed.Some?
    ensures var start := VotingStart(Seen(remarks), p);
            && state.ring == Ascending(RingKeys(Seen(remarks), p, start))
            && LastAnnounceBlocks(remarks, p, start, state.announcedAt)
            && if realAddress.None? || realAddress.value == "" then state.mine == None
               else MyAnnounceIs(remarks, p, start, realAddress.value, state.mine)
  {
    var start := FindVotingStartBlock(remarks, p);
    var ring := ReconstructRing(remarks, p, start);
    var connected := realAddress.Some? && realAddress.value != "";
    var mine: Option<Rank> := None;
    var at: map<string, nat> := map[];
    for i := 0 to |remarks|
      invariant LastAnnounceBlocks(remarks[..i], p, start, at)
      invariant if connected then MyAnnounceIs(remarks[..i], p, start, realAddress.value, mine) else mine == None
    {
      var r := remarks[i];
      assert remarks[..i + 1] == remarks[..i] + [r];
      LastBlocksAfter(remarks[..i], p, start, at, r);
      if connected { MyAnnounceAfter(remarks[..i], p, start, realAddress.value, mine, r); }
      if r.signer !in p.allowed.value { continue; }
      var parsed := ParseAnnounce(r.text);
      if parsed.None? || parsed.value.proposalId != p.id { continue; }
      if start.Some? && r.blockNumber >= start.value { continue; }
      if r.signer !in at || r.blockNumber > at[r.signer] {
        at := at[r.signer := r.blockNumber];
      }
      if connected && r.signer == realAddress.value && (mine.None? || r.blockNumber > mine.value.blockNumber) {
        mine := Some(Rank(r.blockNumber, parsed.value.vkPub));
      }
    }
    assert remarks[..|remarks|] == remarks;
    state := RingState(ring, mine, at);
  }

  /** The block it shows for a signer is that of the announce that counts. */
  lemma LastBlockIsLatest(rs: seq<Remark>, p: Proposal, start: Option<nat>, at: map<string, nat>, s: string)
    requires LastAnnounceBlocks(rs, p, start, at) && s in at
    ensures s in Latest(Seen(rs), p, start) && at[s] == Latest(Seen(rs), p, start)[s].blockNumber
  {
    var latest := Latest(Seen(rs), p, start);
    var r :| r in rs && Eligible(r, p, start) && r.signer == s && r.blockNumber == at[s];
    assert r in Seen(rs);
    var q :| q in Seen(rs) && Eligible(q, p, start) && q.signer == s && RankOf(q) == latest[s];
  }

  lemma LastBlocksCover(rs: seq<Remark>, p: Proposal, start: Option<nat>, at: map<string, nat>, s: string)
    requires LastAnnounceBlocks(rs, p, start, at)
    ensures s in at <==> s in AnnouncedSigners(Seen(rs), p, start)
  {
    if s in at {
      var r :| r in rs && Eligible(r, p, start) && r.signer == s && r.blockNumber == at[s];
      assert r in Seen(rs);
    }
  }

  /** The browser lists exactly the signers that the faucet counts and the tally admits. */
  lemma AnnounceLoopsAgree(rs: seq<Remark>, p: Proposal, start: Option<nat>, at: map<string, nat>)
    requires LastAnnounceBlocks(rs, p, start, at)
    ensures at.Keys == AnnouncedSigners(Seen(rs), p, start)
  {
    forall s ensures s in at <==> s in AnnouncedSigners(Seen(rs), p, start) {
      LastBlocksCover(rs, p, start, at, s);
    }
  }

  /** The key the browser shows is the one in the ring exactly when, within the voter's last announce
      block, the first announce in list order names the largest key. */
  lemma MyKeyIsMyRingKey(rs: seq<Remark>, p: Proposal, start: Option<nat>, me: string, i: nat)
    requires FirstOfLastBlock(rs, p, start, me, i)
    ensures me in Latest(Seen(rs), p, start)
    ensures Latest(Seen(rs), p, start)[me].vkPub == RankOf(rs[i]).vkPub <==>
            forall r :: r in rs && r.signer == me && Eligible(r, p, start) && r.blockNumber == rs[i].blockNumber ==>
              !Less(RankOf(rs[i]).vkPub, RankOf(r).vkPub)
  {
    var latest := Latest(Seen(rs), p, start);
    assert rs[i] in Seen(rs);
    var q :| q in Seen(rs) && Eligible(q, p, start) && q.signer == me && RankOf(q) == latest[me];
    assert q.blockNumber == rs[i].blockNumber;
    LessTotal(RankOf(rs[i]).vkPub, RankOf(q).vkPub);
    forall r | r in rs && r.signer == me && Eligible(r, p, start) && r.blockNumber == rs[i].blockNumber
      ensures !Outranks(RankOf(r), latest[me])
    {
      assert r in Seen(rs);
    }
  }

  /** So a voter who never announced twice in one block sees the key that is in the ring. */
  lemma MyKeyInRing(rs: seq<Remark>, p: Proposal, start: Option<nat>, me: string, i: nat)
    requires FirstOfLastBlock(rs, p, start, me, i)
    requires forall r :: r in rs && r.signer == me && Eligible(r, p, start) && r.blockNumber == rs[i].blockNumber ==>
               r == rs[i]
    ensures RankOf(rs[i]).vkPub in Ascending(RingKeys(Seen(rs), p, start))
  {
    LessTotal(RankOf(rs[i]).vkPub, RankOf(rs[i]).vkPub);
    MyKeyIsMyRingKey(rs, p, start, me, i);
    var ring := Ascending(RingKeys(Seen(rs), p, start));
    assert RankOf(rs[i]).vkPub in KeySet(ring);
  }
}
