/** How many ballots a log can count (packages/shared/src/index.ts). */
module BallotBound {
  import opened Text
  import opened Log
  import opened Ring
  import opened FirstWins
  import opened Announced
  import opened Tally

  /** Vote `v` may come from the holder of key `k`: the key is in the vote's ring and has its key image. */
  ghost predicate CastBy(log: set<Remark>, p: Proposal, image: string -> string, v: AcceptedVote, k: string) {
    k in CanonicalRing(log, p, v.vote.ringBlock) && image(k) == KeyImageOf(v)
  }

  /** No counted vote is a forgery: each carries the image of some key in its ring. */
  ghost predicate Unforged(remarks: seq<Remark>, o: TallyOpts, image: string -> string) {
    forall v :: v in TallyOf(remarks, o).votes ==> exists k :: CastBy(Seen(remarks), o.proposal, image, v, k)
  }

  /** Every key announced before the start by an eligible signer, superseded or not. */
  function PreStartKeys(log: set<Remark>, p: Proposal, start: Option<nat>): set<string> {
    set r | r in log && Eligible(r, p, start) :: RankOf(r).vkPub
  }

  /** `k` is in a ring that is large enough to vote with, at ring block `b`. */
  ghost predicate RingedAt(log: set<Remark>, p: Proposal, k: string, b: nat) {
    k in CanonicalRing(log, p, b) && |CanonicalRing(log, p, b)| >= 2
  }

  /** The keys a counted ballot can come from. */
  ghost function RingedKeys(log: set<Remark>, p: Proposal): set<string> {
    set k | k in PreStartKeys(log, p, VotingStart(log, p)) && exists b: nat :: RingedAt(log, p, k, b)
  }

  lemma RingMembersAnnounced(log: set<Remark>, p: Proposal, k: string, b: nat)
    requires k in CanonicalRing(log, p, b)
    ensures k in PreStartKeys(log, p, VotingStart(log, p))
  {
    var start := VotingStart(log, p);
    assert k in KeySet(RingAt(log, p, b, start));
    var r :| r in Window(log, b) && Winner(Window(log, b), p, start, r) && RankOf(r).vkPub == k;
    assert r in log && Eligible(r, p, start);
  }

  /** A counted vote is a valid ballot of some remark. */
  lemma CountedBallot(remarks: seq<Remark>, o: TallyOpts, v: AcceptedVote) returns (r: Remark)
    requires v in TallyOf(remarks, o).votes
    ensures r in remarks && Judge(Seen(remarks), o, r) == Ballot(v)
  {
    var sorted := SortByBlock(remarks);
    CountedIff(Seen(remarks), o, sorted, v);
    var i: nat :| CountsAt(Seen(remarks), o, sorted, i, v);
    r := sorted[i];
    SortIsStable(remarks);
    assert r in Seen(sorted);
  }

  /** Where a counted vote's key image comes from. */
  lemma BallotKey(remarks: seq<Remark>, o: TallyOpts, image: string -> string, v: AcceptedVote) returns (k: string)
    requires Unforged(remarks, o, image) && v in TallyOf(remarks, o).votes
    ensures k in RingedKeys(Seen(remarks), o.proposal) && CastBy(Seen(remarks), o.proposal, image, v, k)
  {
    var log := Seen(remarks);
    var r := CountedBallot(remarks, o, v);
    ValidBallotIff(log, o, r, v);
    k :| CastBy(log, o.proposal, image, v, k);
    RingMembersAnnounced(log, o.proposal, k, v.vote.ringBlock);
    assert RingedAt(log, o.proposal, k, v.vote.ringBlock);
  }

  /** Pigeonhole: if every counted vote's key image is the image of a key in `keys`, there are at most `|keys|`. */
  lemma VotesWithin(remarks: seq<Remark>, o: TallyOpts, image: string -> string, keys: set<string>)
    requires forall v :: v in TallyOf(remarks, o).votes ==> KeyImageOf(v) in Sets.Image(keys, image)
    ensures |TallyOf(remarks, o).votes| <= |keys|
  {
    var valid := Ballots(Seen(remarks), o, SortByBlock(remarks));
    var votes := TallyOf(remarks, o).votes;
    FirstPerKeys(valid, KeyImageOf);
    forall i | i in KeysOf(votes, KeyImageOf) ensures i in Sets.Image(keys, image) {
      var at :| 0 <= at < |votes| && KeyImageOf(votes[at]) == i;
      assert votes[at] in votes;
    }
    Sets.SubsetSize(KeysOf(votes, KeyImageOf), Sets.Image(keys, image));
    Sets.ImageSize(keys, image);
  }

  /** At most one counted ballot for each key that was ever in a usable ring. */
  lemma VotesBoundedByKeys(remarks: seq<Remark>, o: TallyOpts, image: string -> string)
    requires Unforged(remarks, o, image)
    ensures |TallyOf(remarks, o).votes| <= |RingedKeys(Seen(remarks), o.proposal)|
    ensures |TallyOf(remarks, o).votes| <=
            |PreStartKeys(Seen(remarks), o.proposal, VotingStart(Seen(remarks), o.proposal))|
  {
    var log := Seen(remarks);
    var ringed := RingedKeys(log, o.proposal);
    forall v | v in TallyOf(remarks, o).votes ensures KeyImageOf(v) in Sets.Image(ringed, image) {
      var k := BallotKey(remarks, o, image, v);
    }
    VotesWithin(remarks, o, image, ringed);
    Sets.SubsetSize(ringed, PreStartKeys(log, o.proposal, VotingStart(log, o.proposal)));
  }

  /** No eligible signer announced two different keys before the start. */
  ghost predicate OneKeyEach(log: set<Remark>, p: Proposal) {
    forall r, q :: r in log && q in log && r.signer == q.signer &&
                   Eligible(r, p, VotingStart(log, p)) && Eligible(q, p, VotingStart(log, p)) ==>
      RankOf(r).vkPub == RankOf(q).vkPub
  }

  /** Every counted vote was signed over a ring at or after the last announce block. */
  ghost predicate FrozenRingsOnly(remarks: seq<Remark>, o: TallyOpts) {
    forall v :: v in TallyOf(remarks, o).votes ==>
      VotingStart(Seen(remarks), o.proposal).Some? &&
      VotingStart(Seen(remarks), o.proposal).value <= v.vote.ringBlock + 1
  }

  lemma OneKeyEachBound(log: set<Remark>, p: Proposal)
    requires OneKeyEach(log, p)
    ensures var start := VotingStart(log, p);
            |PreStartKeys(log, p, start)| <= |AnnouncedSigners(log, p, start)|
  {
    var start := VotingStart(log, p);
    var signers, latest := AnnouncedSigners(log, p, start), Latest(log, p, start);
    var f := s => if s in latest then latest[s].vkPub else "";
    forall k | k in PreStartKeys(log, p, start) ensures k in Sets.Image(signers, f) {
      var r :| r in log && Eligible(r, p, start) && RankOf(r).vkPub == k;
      var q :| q in log && Eligible(q, p, start) && q.signer == r.signer && RankOf(q) == latest[r.signer];
      assert f(r.signer) == k;
    }
    Sets.SubsetSize(PreStartKeys(log, p, start), Sets.Image(signers, f));
    Sets.ImageSize(signers, f);
  }

  /** One ballot per announced voter, under either of two conditions: each voter announced a single
      key, or every counted ring block is at least the start block minus one. */
  lemma VotesBoundedByVoters(remarks: seq<Remark>, o: TallyOpts, image: string -> string)
    requires Unforged(remarks, o, image)
    requires OneKeyEach(Seen(remarks), o.proposal) || FrozenRingsOnly(remarks, o)
    ensures var log := Seen(remarks);
            |TallyOf(remarks, o).votes| <= |AnnouncedSigners(log, o.proposal, VotingStart(log, o.proposal))|
  {
    var log, p := Seen(remarks), o.proposal;
    var start := VotingStart(log, p);
    if OneKeyEach(log, p) {
      VotesBoundedByKeys(remarks, o, image);
      OneKeyEachBound(log, p);
    } else {
      var keys := RingKeys(log, p, start);
      forall v | v in TallyOf(remarks, o).votes ensures KeyImageOf(v) in Sets.Image(keys, image) {
        var k := BallotKey(remarks, o, image, v);
        RingFreezes(log, p, v.vote.ringBlock);
        assert k in KeySet(Ascending(keys));
      }
      VotesWithin(remarks, o, image, keys);
      RingSize(log, p, start);
      AscendingLength(Ascending(keys));
    }
  }

  lemma ClearVotesBounded(remarks: seq<Remark>, o: TallyOpts)
    ensures var log := Seen(remarks);
            |TallyOf(remarks, o).clearVotes| <= |AnnouncedSigners(log, o.proposal, VotingStart(log, o.proposal))|
  {
    var log, sorted := Seen(remarks), SortByBlock(remarks);
    var clears := ClearBallots(log, o, sorted);
    var signers := AnnouncedSigners(log, o.proposal, VotingStart(log, o.proposal));
    ClearVotersAnnounced(log, o, sorted);
    forall s | s in KeysOf(clears, VoterOf) ensures s in signers {
      var i :| 0 <= i < |clears| && VoterOf(clears[i]) == s;
    }
    FirstPerKeys(clears, VoterOf);
    Sets.SubsetSize(KeysOf(clears, VoterOf), signers);
  }

  lemma {:induction false} ClearVotersAnnounced(log: set<Remark>, o: TallyOpts, rs: seq<Remark>)
    ensures forall i :: 0 <= i < |ClearBallots(log, o, rs)| ==>
              VoterOf(ClearBallots(log, o, rs)[i]) in
              AnnouncedSigners(log, o.proposal, VotingStart(log, o.proposal))
  {
    if rs != [] {
      var rest, r := rs[..|rs| - 1], rs[|rs| - 1];
      ClearVotersAnnounced(log, o, rest);
      assert rs == rest + [r];
      VerdictStep(log, o, rest, r);
      if Judge(log, o, r).ClearBallot? {
        ValidClearIff(log, o, r, Judge(log, o, r).clear);
      }
    }
  }

  /** Anonymous and clear votes together: at most two per allowlisted address. */
  lemma TotalBounded(remarks: seq<Remark>, o: TallyOpts, image: string -> string)
    requires Unforged(remarks, o, image) && o.proposal.allowed.Some?
    requires OneKeyEach(Seen(remarks), o.proposal) || FrozenRingsOnly(remarks, o)
    ensures TallyOf(remarks, o).tally.totalVoted <= 2 * |o.proposal.allowed.value|
  {
    var log := Seen(remarks);
    VotesBoundedByVoters(remarks, o, image);
    ClearVotesBounded(remarks, o);
    var signers := AnnouncedSigners(log, o.proposal, VotingStart(log, o.proposal));
    Sets.SubsetSize(signers, o.proposal.allowed.value);
  }

  /** A valid ballot's key image is always among the counted ones. */
  lemma BallotCounted(remarks: seq<Remark>, o: TallyOpts, x: Remark)
    requires x in remarks && Judge(Seen(remarks), o, x).Ballot?
    ensures KeyImageOf(Judge(Seen(remarks), o, x).accepted) in KeysOf(TallyOf(remarks, o).votes, KeyImageOf)
  {
    var log, sorted := Seen(remarks), SortByBlock(remarks);
    var i := KeyImageOf(Judge(log, o, x).accepted);
    SortIsStable(remarks);
    assert x in Seen(sorted);
    var at: nat :| at < |sorted| && sorted[at] == x;
    assert CastAt(log, o, sorted, at, i);
    BallotKeys(log, o, sorted, i);
    FirstPerKeys(Ballots(log, o, sorted), KeyImageOf);
  }
}
