/** Exactly when one voter can have two counted votes (packages/shared/src/index.ts). `able` says which keys can
    sign over which rings; it is derived for the signature scheme in module VotingKeys. */
module DoubleVote {
  import opened Text
  import opened Wire
  import opened Log
  import opened Ring
  import opened FirstWins
  import opened Announced
  import opened Tally
  import opened BallotBound

  type Able = (string, seq<string>) -> bool

  // ----- Who can sign what -----

  ghost predicate CanSignFor(o: TallyOpts, image: string -> string, ring: seq<string>, k: string, text: string) {
    exists sig :: WellFormedSig(sig) && sig.keyImage == image(k) && o.verify(sig, ring, MessageHex(text)) == Valid
  }

  /** An able key can sign anything: some well-formed signature verifies and has its image. */
  ghost predicate CanSign(o: TallyOpts, image: string -> string, able: Able) {
    forall ring: seq<string>, k, text {:trigger CanSignFor(o, image, ring, k, text)} ::
      k in ring && able(k, ring) ==> CanSignFor(o, image, ring, k, text)
  }

  /** And no other key's image goes with a signature that verifies over a ring it is in. */
  ghost predicate OnlyAble(o: TallyOpts, image: string -> string, able: Able) {
    forall sig, ring, msg, k {:trigger o.verify(sig, ring, msg), image(k)} ::
      o.verify(sig, ring, msg) == Valid && k in ring && image(k) == sig.keyImage ==> able(k, ring)
  }

  /** The key can vote with the ring at block `b`. */
  ghost predicate VotableAt(log: set<Remark>, p: Proposal, able: Able, k: string, b: nat) {
    var ring := CanonicalRing(log, p, b);
    k in ring && |ring| >= 2 && able(k, ring)
  }

  ghost predicate Votable(log: set<Remark>, p: Proposal, able: Able, k: string) {
    exists b: nat :: VotableAt(log, p, able, k, b)
  }

  /** From the start on rings do not change, so no later ring block is needed. */
  lemma VotableEarly(log: set<Remark>, p: Proposal, able: Able, k: string) returns (b: nat)
    requires Votable(log, p, able, k) && VotingStart(log, p).Some?
    ensures b <= VotingStart(log, p).value && VotableAt(log, p, able, k, b)
  {
    b :| VotableAt(log, p, able, k, b);
    var start := VotingStart(log, p).value;
    if b > start {
      RingFreezes(log, p, b);
      RingFreezes(log, p, start);
      b := start;
    }
  }

  // ----- Adding ballots to a log -----

  /** Votes and clear votes only. */
  ghost predicate OnlyBallots(o: TallyOpts, added: seq<Remark>) {
    forall r :: r in added ==> ParseVote(o.parse, r.text).Some? || ParseClearVote(r.text).Some?
  }

  lemma BallotsAreNoAnnounces(o: TallyOpts, added: seq<Remark>)
    requires OnlyBallots(o, added)
    ensures forall r :: r in Seen(added) ==> ParseAnnounce(r.text).None? && ParseStart(r.text).None?
  {
    forall r | r in Seen(added) ensures ParseAnnounce(r.text).None? && ParseStart(r.text).None? {
      KindsDisjoint(o.parse, r.text);
    }
  }

  /** Adding ballots changes neither the start, nor any ring, nor who announced. */
  lemma BallotsDontTouchRings(log: set<Remark>, o: TallyOpts, added: seq<Remark>)
    requires OnlyBallots(o, added)
    ensures var all := log + Seen(added);
            && VotingStart(all, o.proposal) == VotingStart(log, o.proposal)
            && (forall b: nat :: CanonicalRing(all, o.proposal, b) == CanonicalRing(log, o.proposal, b))
            && (forall r, start :: r in all && Eligible(r, o.proposal, start) ==> r in log)
  {
    var all, p := log + Seen(added), o.proposal;
    BallotsAreNoAnnounces(o, added);
    var start := VotingStart(log, p);
    assert StartBlocks(all, p) == StartBlocks(log, p);
    forall b: nat ensures CanonicalRing(all, p, b) == CanonicalRing(log, p, b) {
      SameEligibleSameKeys(Window(all, b), start, Window(log, b), start, p);
    }
  }

  /** So every remark keeps its verdict. */
  lemma VerdictsUnaffected(log: set<Remark>, o: TallyOpts, added: seq<Remark>, r: Remark)
    requires OnlyBallots(o, added)
    ensures Judge(log + Seen(added), o, r) == Judge(log, o, r)
  {
    var all, p := log + Seen(added), o.proposal;
    BallotsDontTouchRings(log, o, added);
    assert AnnouncedSigners(all, p, VotingStart(log, p)) == AnnouncedSigners(log, p, VotingStart(log, p));
  }

  lemma VotableUnaffected(log: set<Remark>, o: TallyOpts, able: Able, added: seq<Remark>, k: string)
    requires OnlyBallots(o, added)
    ensures Votable(log + Seen(added), o.proposal, able, k) <==> Votable(log, o.proposal, able, k)
  {
    BallotsDontTouchRings(log, o, added);
    forall b: nat
      ensures VotableAt(log + Seen(added), o.proposal, able, k, b) <==> VotableAt(log, o.proposal, able, k, b)
    {}
  }

  /** No ballot of the log carries the image of an announced key that is not in its ring. */
  ghost predicate NoStrayImages(log: set<Remark>, o: TallyOpts, image: string -> string) {
    forall r, k :: r in log && Judge(log, o, r).Ballot? && k in PreStartKeys(log, o.proposal, VotingStart(log, o.proposal)) &&
                   image(k) == KeyImageOf(Judge(log, o, r).accepted) ==>
      k in CanonicalRing(log, o.proposal, Judge(log, o, r).accepted.vote.ringBlock)
  }

  /** What it takes to send a vote that lands in block `block`. */
  ghost predicate CanSend(log: set<Remark>, o: TallyOpts, j: JsonCodec, block: nat) {
    && Faithful(j) && o.parse == j.parse && block <= MAX_SAFE_INTEGER
    && OutsideWindow(VotingStart(log, o.proposal), o.endBlock, block) == None
  }

  /** A vote by a votable key, landing in block `block`. */
  lemma CastVote(log: set<Remark>, o: TallyOpts, image: string -> string, able: Able, j: JsonCodec, k: string, block: nat)
    returns (r: Remark)
    requires CanSign(o, image, able) && CanSend(log, o, j, block) && Votable(log, o.proposal, able, k)
    ensures Judge(log, o, r).Ballot? && CastBy(log, o.proposal, image, Judge(log, o, r).accepted, k)
    ensures ParseVote(o.parse, r.text).Some?
  {
    var b := VotableEarly(log, o.proposal, able, k);
    var ring := CanonicalRing(log, o.proposal, b);
    var text := VoteText(o.proposal.id, Yes, b);
    assert CanSignFor(o, image, ring, k, text);
    var sig :| WellFormedSig(sig) && sig.keyImage == image(k) && o.verify(sig, ring, MessageHex(text)) == Valid;
    var vote := Vote(o.proposal.id, Yes, b, sig);
    VoteRoundTrip(j, vote);
    r := Remark(block, "", EncodeVote(j, vote));
    ValidBallotIff(log, o, r, AcceptedVote(vote, block));
  }

  /** Once such a vote is added, some counted vote comes from its key. */
  lemma AddedVoteCounts(remarks: seq<Remark>, o: TallyOpts, image: string -> string, k: string, added: seq<Remark>, x: Remark)
    returns (v: AcceptedVote)
    requires OnlyBallots(o, added) && x in added && NoStrayImages(Seen(remarks), o, image)
    requires Judge(Seen(remarks), o, x).Ballot?
    requires CastBy(Seen(remarks), o.proposal, image, Judge(Seen(remarks), o, x).accepted, k)
    requires forall y :: y in added && Judge(Seen(remarks), o, y).Ballot? &&
                         KeyImageOf(Judge(Seen(remarks), o, y).accepted) == image(k) ==>
               CastBy(Seen(remarks), o.proposal, image, Judge(Seen(remarks), o, y).accepted, k)
    ensures v in TallyOf(remarks + added, o).votes && CastBy(Seen(remarks + added), o.proposal, image, v, k)
  {
    var log, all := Seen(remarks), remarks + added;
    assert Seen(all) == log + Seen(added);
    VerdictsUnaffected(log, o, added, x);
    BallotCounted(all, o, x);
    var votes := TallyOf(all, o).votes;
    var i :| 0 <= i < |votes| && KeyImageOf(votes[i]) == image(k);
    v := votes[i];
    var r := CountedBallot(all, o, v);
    VerdictsUnaffected(log, o, added, r);
    RingMembersAnnounced(log, o.proposal, k, Judge(log, o, x).accepted.vote.ringBlock);
    BallotsDontTouchRings(log, o, added);
  }

  /** A counted vote that may come from a key shows the key to be votable. */
  lemma CountedVotable(remarks: seq<Remark>, o: TallyOpts, image: string -> string, able: Able, v: AcceptedVote, k: string)
    requires OnlyAble(o, image, able)
    requires v in TallyOf(remarks, o).votes && CastBy(Seen(remarks), o.proposal, image, v, k)
    ensures Votable(Seen(remarks), o.proposal, able, k)
  {
    var r := CountedBallot(remarks, o, v);
    ValidBallotIff(Seen(remarks), o, r, v);
    assert VotableAt(Seen(remarks), o.proposal, able, k, v.vote.ringBlock);
  }

  // ----- Two anonymous votes -----

  /** One signer's two eligible announces of different keys. */
  ghost predicate ReAnnounced(log: set<Remark>, p: Proposal, r: Remark, q: Remark) {
    && r in log && q in log && r.signer == q.signer
    && Eligible(r, p, VotingStart(log, p)) && Eligible(q, p, VotingStart(log, p))
    && RankOf(r).vkPub != RankOf(q).vkPub
  }

  /** Two different counted votes that may come from two keys announced by one signer. */
  ghost predicate CountedTwice(remarks: seq<Remark>, o: TallyOpts, image: string -> string, r: Remark, q: Remark) {
    && ReAnnounced(Seen(remarks), o.proposal, r, q)
    && exists v, w :: && v in TallyOf(remarks, o).votes && w in TallyOf(remarks, o).votes && v != w
                      && CastBy(Seen(remarks), o.proposal, image, v, RankOf(r).vkPub)
                      && CastBy(Seen(remarks), o.proposal, image, w, RankOf(q).vkPub)
  }

  ghost predicate DoubleBallot(remarks: seq<Remark>, o: TallyOpts, image: string -> string) {
    exists r, q :: CountedTwice(remarks, o, image, r, q)
  }

  /** One signer announced two keys with different images, and can vote with each of them. */
  ghost predicate BothVotable(log: set<Remark>, p: Proposal, image: string -> string, able: Able, r: Remark, q: Remark) {
    && ReAnnounced(log, p, r, q) && image(RankOf(r).vkPub) != image(RankOf(q).vkPub)
    && Votable(log, p, able, RankOf(r).vkPub) && Votable(log, p, able, RankOf(q).vkPub)
  }

  ghost predicate TwoVotableKeys(log: set<Remark>, p: Proposal, image: string -> string, able: Able) {
    exists r, q :: BothVotable(log, p, image, able, r, q)
  }

  lemma ReAnnouncedUnaffected(log: set<Remark>, o: TallyOpts, added: seq<Remark>, r: Remark, q: Remark)
    requires OnlyBallots(o, added)
    ensures ReAnnounced(log + Seen(added), o.proposal, r, q) <==> ReAnnounced(log, o.proposal, r, q)
  {
    BallotsDontTouchRings(log, o, added);
  }

  /** Different counted votes have different key images. */
  lemma CountedImagesDiffer(remarks: seq<Remark>, o: TallyOpts, v: AcceptedVote, w: AcceptedVote)
    requires v in TallyOf(remarks, o).votes && w in TallyOf(remarks, o).votes && v != w
    ensures KeyImageOf(v) != KeyImageOf(w)
  {
    var votes := TallyOf(remarks, o).votes;
    var valid := Ballots(Seen(remarks), o, SortByBlock(remarks));
    var i :| 0 <= i < |votes| && votes[i] == v;
    var j :| 0 <= j < |votes| && votes[j] == w;
    if i < j { FirstPerDistinct(valid, KeyImageOf, i, j); } else { FirstPerDistinct(valid, KeyImageOf, j, i); }
  }

  /** Two counted anonymous votes need two votable keys, whatever else is in the log. */
  lemma DoubleBallotNeedsTwoKeys(remarks: seq<Remark>, o: TallyOpts, image: string -> string, able: Able, r: Remark, q: Remark)
    requires OnlyAble(o, image, able) && CountedTwice(remarks, o, image, r, q)
    ensures BothVotable(Seen(remarks), o.proposal, image, able, r, q)
  {
    var log, p := Seen(remarks), o.proposal;
    var v, w :| && v in TallyOf(remarks, o).votes && w in TallyOf(remarks, o).votes && v != w
                && CastBy(log, p, image, v, RankOf(r).vkPub) && CastBy(log, p, image, w, RankOf(q).vkPub);
    CountedVotable(remarks, o, image, able, v, RankOf(r).vkPub);
    CountedVotable(remarks, o, image, able, w, RankOf(q).vkPub);
    CountedImagesDiffer(remarks, o, v, w);
  }

  lemma AddedNeedTwoKeys(remarks: seq<Remark>, o: TallyOpts, image: string -> string, able: Able, added: seq<Remark>)
    requires OnlyAble(o, image, able) && OnlyBallots(o, added) && DoubleBallot(remarks + added, o, image)
    ensures TwoVotableKeys(Seen(remarks), o.proposal, image, able)
  {
    var log := Seen(remarks);
    assert Seen(remarks + added) == log + Seen(added);
    var r, q :| CountedTwice(remarks + added, o, image, r, q);
    DoubleBallotNeedsTwoKeys(remarks + added, o, image, able, r, q);
    ReAnnouncedUnaffected(log, o, added, r, q);
    VotableUnaffected(log, o, able, added, RankOf(r).vkPub);
    VotableUnaffected(log, o, able, added, RankOf(q).vkPub);
    assert BothVotable(log, o.proposal, image, able, r, q);
  }

  /** Two votes, one by each key. */
  lemma TwoVotes(remarks: seq<Remark>, o: TallyOpts, image: string -> string, able: Able, j: JsonCodec, block: nat,
                 r: Remark, q: Remark)
    returns (added: seq<Remark>)
    requires CanSign(o, image, able) && CanSend(Seen(remarks), o, j, block) && NoStrayImages(Seen(remarks), o, image)
    requires BothVotable(Seen(remarks), o.proposal, image, able, r, q)
    ensures OnlyBallots(o, added) && CountedTwice(remarks + added, o, image, r, q)
  {
    var log := Seen(remarks);
    var k, l := RankOf(r).vkPub, RankOf(q).vkPub;
    var x := CastVote(log, o, image, able, j, k, block);
    var y := CastVote(log, o, image, able, j, l, block);
    added := [x, y];
    var v, w := BothCount(remarks, o, image, k, l, x, y);
    assert Seen(remarks + added) == log + Seen(added);
    ReAnnouncedUnaffected(log, o, added, r, q);
  }

  lemma BothCount(remarks: seq<Remark>, o: TallyOpts, image: string -> string, k: string, l: string, x: Remark, y: Remark)
    returns (v: AcceptedVote, w: AcceptedVote)
    requires NoStrayImages(Seen(remarks), o, image) && image(k) != image(l)
    requires ParseVote(o.parse, x.text).Some? && ParseVote(o.parse, y.text).Some?
    requires Judge(Seen(remarks), o, x).Ballot? && Judge(Seen(remarks), o, y).Ballot?
    requires CastBy(Seen(remarks), o.proposal, image, Judge(Seen(remarks), o, x).accepted, k)
    requires CastBy(Seen(remarks), o.proposal, image, Judge(Seen(remarks), o, y).accepted, l)
    ensures OnlyBallots(o, [x, y]) && v != w
    ensures v in TallyOf(remarks + [x, y], o).votes && CastBy(Seen(remarks + [x, y]), o.proposal, image, v, k)
    ensures w in TallyOf(remarks + [x, y], o).votes && CastBy(Seen(remarks + [x, y]), o.proposal, image, w, l)
  {
    v := CountsBeside(remarks, o, image, k, x, y, [x, y]);
    w := CountsBeside(remarks, o, image, l, y, x, [x, y]);
  }

  /** A vote by key `k` next to one with another image. */
  lemma CountsBeside(remarks: seq<Remark>, o: TallyOpts, image: string -> string, k: string, x: Remark, y: Remark, added: seq<Remark>)
    returns (v: AcceptedVote)
    requires NoStrayImages(Seen(remarks), o, image) && x in added && forall r :: r in added ==> r == x || r == y
    requires ParseVote(o.parse, x.text).Some? && ParseVote(o.parse, y.text).Some?
    requires Judge(Seen(remarks), o, x).Ballot? && Judge(Seen(remarks), o, y).Ballot?
    requires CastBy(Seen(remarks), o.proposal, image, Judge(Seen(remarks), o, x).accepted, k)
    requires KeyImageOf(Judge(Seen(remarks), o, y).accepted) != image(k)
    ensures v in TallyOf(remarks + added, o).votes && CastBy(Seen(remarks + added), o.proposal, image, v, k)
  {
    v := AddedVoteCounts(remarks, o, image, k, added, x);
  }

  /** "Each eligible voter votes at most once" can be broken by two anonymous votes exactly when some voter
      announced two keys before the start, with different images, and can vote with each of them. */
  lemma DoubleBallotIff(remarks: seq<Remark>, o: TallyOpts, image: string -> string, able: Able, j: JsonCodec, block: nat)
    requires CanSign(o, image, able) && OnlyAble(o, image, able)
    requires CanSend(Seen(remarks), o, j, block) && NoStrayImages(Seen(remarks), o, image)
    ensures TwoVotableKeys(Seen(remarks), o.proposal, image, able) <==>
            exists added :: OnlyBallots(o, added) && DoubleBallot(remarks + added, o, image)
  {
    if TwoVotableKeys(Seen(remarks), o.proposal, image, able) {
      var r, q :| BothVotable(Seen(remarks), o.proposal, image, able, r, q);
      var added := TwoVotes(remarks, o, image, able, j, block, r, q);
      assert DoubleBallot(remarks + added, o, image);
    }
    forall added | OnlyBallots(o, added) && DoubleBallot(remarks + added, o, image)
      ensures TwoVotableKeys(Seen(remarks), o.proposal, image, able)
    {
      AddedNeedTwoKeys(remarks, o, image, able, added);
    }
  }

  // ----- A clear vote and an anonymous vote -----

  /** `r` is an eligible announce of `voter`. */
  ghost predicate AnnounceOf(log: set<Remark>, p: Proposal, voter: string, r: Remark) {
    r in log && r.signer == voter && Eligible(r, p, VotingStart(log, p))
  }

  /** A clear vote of `voter` is counted, and so is a vote that may come from a key it announced. */
  ghost predicate ClearAndAnonymous(remarks: seq<Remark>, o: TallyOpts, image: string -> string, voter: string, r: Remark) {
    && AnnounceOf(Seen(remarks), o.proposal, voter, r)
    && (exists c :: c in TallyOf(remarks, o).clearVotes && VoterOf(c) == voter)
    && exists v :: v in TallyOf(remarks, o).votes && CastBy(Seen(remarks), o.proposal, image, v, RankOf(r).vkPub)
  }

  /** A clear vote of an announced voter. */
  lemma CastClearVote(log: set<Remark>, o: TallyOpts, voter: string, r: Remark, block: nat) returns (x: Remark)
    requires AnnounceOf(log, o.proposal, voter, r)
    requires OutsideWindow(VotingStart(log, o.proposal), o.endBlock, block) == None
    ensures Judge(log, o, x).ClearBallot? && VoterOf(Judge(log, o, x).clear) == voter
    ensures ParseClearVote(x.text).Some?
  {
    var id := o.proposal.id;
    AnnounceTexts(r.text, ParseAnnounce(r.text).value);
    ClearVoteRoundTrip(id, "yes");
    assert ChoiceText(Yes) == "yes";
    x := Remark(block, voter, EncodeClearVote(id, "yes").text);
    ValidClearIff(log, o, x, AcceptedClear(id, Yes, block, voter));
  }

  /** A valid clear vote's signer is always among the counted ones. */
  lemma ClearCounted(remarks: seq<Remark>, o: TallyOpts, x: Remark) returns (c: AcceptedClear)
    requires x in remarks && Judge(Seen(remarks), o, x).ClearBallot?
    ensures c in TallyOf(remarks, o).clearVotes && VoterOf(c) == VoterOf(Judge(Seen(remarks), o, x).clear)
  {
    var log, sorted := Seen(remarks), SortByBlock(remarks);
    var voter := VoterOf(Judge(log, o, x).clear);
    SortIsStable(remarks);
    assert x in Seen(sorted);
    var at: nat :| at < |sorted| && sorted[at] == x;
    var vs := Verdicts(log, o, sorted);
    assert PickedAt(vs, PickClear, VoterOf, at, voter);
    PickedKeys(vs, PickClear, VoterOf, voter);
    FirstPerKeys(ClearBallots(log, o, sorted), VoterOf);
    var counted := TallyOf(remarks, o).clearVotes;
    var i :| 0 <= i < |counted| && VoterOf(counted[i]) == voter;
    c := counted[i];
  }

  lemma ClearAndVote(remarks: seq<Remark>, o: TallyOpts, image: string -> string, able: Able, j: JsonCodec, block: nat,
                     voter: string, r: Remark)
    returns (added: seq<Remark>)
    requires CanSign(o, image, able) && CanSend(Seen(remarks), o, j, block) && NoStrayImages(Seen(remarks), o, image)
    requires AnnounceOf(Seen(remarks), o.proposal, voter, r) && Votable(Seen(remarks), o.proposal, able, RankOf(r).vkPub)
    ensures OnlyBallots(o, added) && ClearAndAnonymous(remarks + added, o, image, voter, r)
  {
    var log := Seen(remarks);
    var x := CastVote(log, o, image, able, j, RankOf(r).vkPub, block);
    var y := CastClearVote(log, o, voter, r, block);
    added := [x, y];
    assert Seen(remarks + added) == log + Seen(added);
    var v := AddedVoteCounts(remarks, o, image, RankOf(r).vkPub, added, x);
    VerdictsUnaffected(log, o, added, y);
    var c := ClearCounted(remarks + added, o, y);
    BallotsDontTouchRings(log, o, added);
  }

  /** The other way to count twice, which no key image can tell: a voter can have a clear vote and an anonymous
      vote exactly when it announced a key it can vote with. */
  lemma ClearAndAnonymousIff(remarks: seq<Remark>, o: TallyOpts, image: string -> string, able: Able, j: JsonCodec,
                             block: nat, voter: string)
    requires CanSign(o, image, able) && OnlyAble(o, image, able)
    requires CanSend(Seen(remarks), o, j, block) && NoStrayImages(Seen(remarks), o, image)
    ensures (exists r :: AnnounceOf(Seen(remarks), o.proposal, voter, r) &&
                         Votable(Seen(remarks), o.proposal, able, RankOf(r).vkPub))
            <==>
            exists added, r :: OnlyBallots(o, added) && ClearAndAnonymous(remarks + added, o, image, voter, r)
  {
    var log, p := Seen(remarks), o.proposal;
    if r :| AnnounceOf(log, p, voter, r) && Votable(log, p, able, RankOf(r).vkPub) {
      var added := ClearAndVote(remarks, o, image, able, j, block, voter, r);
      assert ClearAndAnonymous(remarks + added, o, image, voter, r);
    }
    forall added, r | OnlyBallots(o, added) && ClearAndAnonymous(remarks + added, o, image, voter, r)
      ensures AnnounceOf(log, p, voter, r) && Votable(log, p, able, RankOf(r).vkPub)
    {
      ClearAndAnonymousNeeds(remarks, o, image, able, added, voter, r);
    }
  }

  lemma ClearAndAnonymousNeeds(remarks: seq<Remark>, o: TallyOpts, image: string -> string, able: Able, added: seq<Remark>,
                               voter: string, r: Remark)
    requires OnlyAble(o, image, able) && OnlyBallots(o, added) && ClearAndAnonymous(remarks + added, o, image, voter, r)
    ensures AnnounceOf(Seen(remarks), o.proposal, voter, r) && Votable(Seen(remarks), o.proposal, able, RankOf(r).vkPub)
  {
    var log, all := Seen(remarks), remarks + added;
    assert Seen(all) == log + Seen(added);
    BallotsDontTouchRings(log, o, added);
    var v :| v in TallyOf(all, o).votes && CastBy(Seen(all), o.proposal, image, v, RankOf(r).vkPub);
    CountedVotable(all, o, image, able, v, RankOf(r).vkPub);
    VotableUnaffected(log, o, able, added, RankOf(r).vkPub);
  }
}
