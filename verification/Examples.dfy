/** Concrete inputs on which a promise fails: a voter counted twice, a browser that shows a key the ring does
    not have, a block the faucet's index has lost. */
module Examples {
  import opened Text
  import opened Wire
  import opened Log
  import opened Ring
  import opened Announced
  import opened Tally
  import opened BallotBound
  import opened DoubleVote
  import opened VotingKeys
  import opened RingIndexer
  import opened Group
  import opened Blsag
  import opened BlsagCompleteness
  import opened WasmBoundary
  import opened SmallSuite
  import opened JsonText
  import opened Workers
  import IndexerCache
  import UiIndexer

  const ALICE := "alice"
  const BOB := "bob"
  const COORDINATOR := "coordinator"
  const PROPOSAL := Proposal("p", COORDINATOR, Some({ALICE, BOB}))

  function Announcement(block: nat, signer: string, key: string): Remark
    requires IsLowerHex32(key)
  {
    Remark(block, signer, EncodeAnnounce("p", key).text)
  }

  lemma AnnouncementParses(block: nat, signer: string, key: string)
    requires IsLowerHex32(key) && signer in {ALICE, BOB} && block < 10
    ensures Eligible(Announcement(block, signer, key), PROPOSAL, Some(10))
    ensures RankOf(Announcement(block, signer, key)) == Rank(block, key)
    ensures !OpensVoting(Announcement(block, signer, key), PROPOSAL)
  {
    AnnounceRoundTrip("p", key);
    KindsDisjoint(t => None, Announcement(block, signer, key).text);
  }

  // ----- A voter counted twice -----

  /** `early` and `late` are announces of one voter for secrets `x` and `z`, `other` is somebody else's for `y`,
      and `opening` opens the voting after them. */
  ghost predicate ReAnnouncing<P>(s: Suite<P>, p: Proposal, early: Remark, other: Remark, late: Remark, opening: Remark,
                                  x: nat, y: nat, z: nat) {
    && IsAnnounce(s, p, opening, early, x) && IsAnnounce(s, p, opening, other, y) && IsAnnounce(s, p, opening, late, z)
    && x != y && y != z && x != z
    && early.signer == late.signer && early.signer != other.signer
    && other.blockNumber == early.blockNumber < late.blockNumber < opening.blockNumber
    && OpensVoting(opening, p)
  }

  ghost predicate IsAnnounce<P>(s: Suite<P>, p: Proposal, opening: Remark, r: Remark, x: nat) {
    Eligible(r, p, Some(opening.blockNumber)) && 0 < x < s.group.order && RankOf(r).vkPub == HexKey(s, x)
  }

  lemma OnlyOpening(log: set<Remark>, p: Proposal, opening: Remark)
    requires opening in log && OpensVoting(opening, p)
    requires forall r :: r in log && r != opening ==> !OpensVoting(r, p)
    ensures VotingStart(log, p) == Some(opening.blockNumber)
  {
    VotingStartIs(log, p, Some(opening.blockNumber));
  }

  ghost predicate NoBallot(parse: string -> Option<Json>, r: Remark) {
    ParseVote(parse, r.text).None? && ParseClearVote(r.text).None?
  }

  lemma AnnounceIsNoBallot<P>(s: Suite<P>, p: Proposal, opening: Remark, r: Remark, x: nat, parse: string -> Option<Json>)
    requires IsAnnounce(s, p, opening, r, x)
    ensures !OpensVoting(r, p) && NoBallot(parse, r)
  {
    KindsDisjoint(parse, r.text);
  }

  lemma OpeningIsNoBallot(p: Proposal, r: Remark, parse: string -> Option<Json>)
    requires OpensVoting(r, p)
    ensures ParseAnnounce(r.text).None? && NoBallot(parse, r)
  {
    KindsDisjoint(parse, r.text);
  }

  /** The four remarks as a log. */
  ghost predicate IsLog(log: set<Remark>, early: Remark, other: Remark, late: Remark, opening: Remark) {
    log == {early, other, late, opening}
  }

  lemma EachOf(log: set<Remark>, early: Remark, other: Remark, late: Remark, opening: Remark, ok: Remark -> bool)
    requires IsLog(log, early, other, late, opening) && ok(early) && ok(other) && ok(late) && ok(opening)
    ensures forall r :: r in log ==> ok(r)
  {}

  lemma Starts<P>(s: Suite<P>, p: Proposal, log: set<Remark>, early: Remark, other: Remark, late: Remark, opening: Remark,
                  x: nat, y: nat, z: nat, parse: string -> Option<Json>)
    requires ReAnnouncing(s, p, early, other, late, opening, x, y, z) && IsLog(log, early, other, late, opening)
    ensures VotingStart(log, p) == Some(opening.blockNumber) && ParseAnnounce(opening.text).None?
    ensures forall r :: r in log ==> NoBallot(parse, r)
  {
    AnnounceIsNoBallot(s, p, opening, early, x, parse);
    AnnounceIsNoBallot(s, p, opening, other, y, parse);
    AnnounceIsNoBallot(s, p, opening, late, z, parse);
    OpeningIsNoBallot(p, opening, parse);
    EachOf(log, early, other, late, opening, r => NoBallot(parse, r));
    EachOf(log, early, other, late, opening, r => r == opening || !OpensVoting(r, p));
    OnlyOpening(log, p, opening);
  }

  /** The winners among an early and a late announce of one signer and an announce of another. */
  lemma Winners(p: Proposal, start: Option<nat>, early: Remark, other: Remark, late: Remark)
    requires Eligible(early, p, start) && Eligible(other, p, start) && Eligible(late, p, start)
    requires early.signer == late.signer && early.signer != other.signer && early.blockNumber < late.blockNumber
    ensures Winner({early, other}, p, start, early) && Winner({early, other}, p, start, other)
    ensures Winner({early, other, late}, p, start, late) && Winner({early, other, late}, p, start, other)
  {
    RankTotal(RankOf(early), RankOf(early));
    RankTotal(RankOf(other), RankOf(other));
    RankTotal(RankOf(late), RankOf(late));
  }

  lemma KeyEncodes<P(!new)>(s: Suite<P>, x: nat)
    requires LawfulSuite(s) && 0 < x < s.group.order
    ensures EncodesPoint(s, HexKey(s, x))
  {
    KeyIsGoodMember(s, x);
    KeyText(s, x);
  }

  lemma KeysDiffer<P(!new)>(s: Suite<P>, x: nat, y: nat)
    requires LawfulSuite(s) && x < s.group.order && y < s.group.order && x != y
    ensures HexKey(s, x) != HexKey(s, y)
  {
    if HexKey(s, x) == HexKey(s, y) {
      SecretUnique(s, HexKey(s, x), x, y);
    }
  }

  /** What the remark announces, if anything, is a point. */
  ghost predicate PointAnnounced<P>(s: Suite<P>, r: Remark) {
    ParseAnnounce(r.text).Some? ==> EncodesPoint(s, RankOf(r).vkPub)
  }

  lemma AnnouncesPoint<P(!new)>(s: Suite<P>, p: Proposal, opening: Remark, r: Remark, x: nat)
    requires LawfulSuite(s) && IsAnnounce(s, p, opening, r, x)
    ensures PointAnnounced(s, r)
  {
    KeyEncodes(s, x);
  }

  /** All keys of the log are points, so all its rings are. */
  lemma RingsArePoints<P(!new)>(s: Suite<P>, p: Proposal, log: set<Remark>, b: nat)
    requires forall r :: r in log ==> PointAnnounced(s, r)
    ensures AllPoints(s, CanonicalRing(log, p, b))
  {
    var ring := CanonicalRing(log, p, b);
    forall i | 0 <= i < |ring| ensures EncodesPoint(s, ring[i]) {
      RingMembersAnnounced(log, p, ring[i], b);
      var r :| r in log && Eligible(r, p, VotingStart(log, p)) && RankOf(r).vkPub == ring[i];
      assert PointAnnounced(s, r);
    }
  }

  lemma TwoIn<T>(xs: seq<T>, a: T, b: T)
    requires a in xs && b in xs && a != b
    ensures |xs| >= 2
  {}

  /** A winner for secret `x` in a ring with another winner, all of points, can vote with that ring. */
  lemma WinnerVotes<P(!new)>(s: Suite<P>, p: Proposal, log: set<Remark>, b: nat, x: nat, r: Remark, q: Remark)
    requires Winner(Window(log, b), p, VotingStart(log, p), r) && Winner(Window(log, b), p, VotingStart(log, p), q)
    requires x < s.group.order && Signs(s, x) && RankOf(r).vkPub == HexKey(s, x) && RankOf(q).vkPub != HexKey(s, x)
    requires AllPoints(s, CanonicalRing(log, p, b))
    ensures Votable(log, p, AbleFor(s), HexKey(s, x))
  {
    var ring := CanonicalRing(log, p, b);
    WinnerInRing(Window(log, b), p, VotingStart(log, p), r);
    WinnerInRing(Window(log, b), p, VotingStart(log, p), q);
    TwoIn(ring, RankOf(r).vkPub, RankOf(q).vkPub);
    assert IsSecretOf(s, HexKey(s, x), x);
    assert VotableAt(log, p, AbleFor(s), HexKey(s, x), b);
  }

  lemma AllPointsHere<P(!new)>(s: Suite<P>, p: Proposal, log: set<Remark>, early: Remark, other: Remark, late: Remark,
                               opening: Remark, x: nat, y: nat, z: nat, b: nat)
    requires LawfulSuite(s) && ReAnnouncing(s, p, early, other, late, opening, x, y, z)
    requires IsLog(log, early, other, late, opening)
    ensures AllPoints(s, CanonicalRing(log, p, b))
  {
    OpeningIsNoBallot(p, opening, t => None);
    AnnouncesPoint(s, p, opening, early, x);
    AnnouncesPoint(s, p, opening, other, y);
    AnnouncesPoint(s, p, opening, late, z);
    EachOf(log, early, other, late, opening, r => PointAnnounced(s, r));
    RingsArePoints(s, p, log, b);
  }

  lemma WindowsHere<P>(s: Suite<P>, p: Proposal, log: set<Remark>, early: Remark, other: Remark, late: Remark,
                       opening: Remark, x: nat, y: nat, z: nat)
    requires ReAnnouncing(s, p, early, other, late, opening, x, y, z) && IsLog(log, early, other, late, opening)
    ensures Window(log, early.blockNumber) == {early, other}
    ensures Window(log, late.blockNumber) == {early, other, late}
  {}

  lemma ReAnnouncedVotable<P(!new)>(s: Suite<P>, p: Proposal, log: set<Remark>, early: Remark, other: Remark, late: Remark,
                                    opening: Remark, x: nat, y: nat, z: nat)
    requires LawfulSuite(s) && ReAnnouncing(s, p, early, other, late, opening, x, y, z)
    requires IsLog(log, early, other, late, opening) && Signs(s, x) && Signs(s, z)
    ensures Votable(log, p, AbleFor(s), HexKey(s, x)) && Votable(log, p, AbleFor(s), HexKey(s, z))
  {
    Starts(s, p, log, early, other, late, opening, x, y, z, t => None);
    AllPointsHere(s, p, log, early, other, late, opening, x, y, z, early.blockNumber);
    AllPointsHere(s, p, log, early, other, late, opening, x, y, z, late.blockNumber);
    KeysDiffer(s, x, y);
    KeysDiffer(s, y, z);
    Winners(p, Some(opening.blockNumber), early, other, late);
    WindowsHere(s, p, log, early, other, late, opening, x, y, z);
    WinnerVotes(s, p, log, early.blockNumber, x, early, other);
    WinnerVotes(s, p, log, late.blockNumber, z, late, other);
  }

  lemma LogCanGrow<P(!new)>(s: Suite<P>, j: JsonCodec, p: Proposal, log: set<Remark>, early: Remark, other: Remark, late: Remark,
                      opening: Remark, x: nat, y: nat, z: nat)
    requires Faithful(j) && ReAnnouncing(s, p, early, other, late, opening, x, y, z)
    requires IsLog(log, early, other, late, opening) && opening.blockNumber <= MAX_SAFE_INTEGER
    ensures CanSend(log, Auditing(s, p, None, j.parse), j, opening.blockNumber)
    ensures NoStrayImages(log, Auditing(s, p, None, j.parse), Images(s))
  {
    Starts(s, p, log, early, other, late, opening, x, y, z, j.parse);
    forall r | r in log ensures Judge(log, Auditing(s, p, None, j.parse), r).Irrelevant? {
      assert NoBallot(j.parse, r);
    }
  }

  lemma KeysReAnnounced<P(!new)>(s: Suite<P>, p: Proposal, log: set<Remark>, early: Remark, other: Remark, late: Remark,
                                 opening: Remark, x: nat, y: nat, z: nat)
    requires LawfulSuite(s) && ReAnnouncing(s, p, early, other, late, opening, x, y, z)
    requires IsLog(log, early, other, late, opening) && Signs(s, x) && Signs(s, z) && HexImage(s, x) != HexImage(s, z)
    ensures BothVotable(log, p, Images(s), AbleFor(s), early, late) && AnnounceOf(log, p, early.signer, early)
  {
    Starts(s, p, log, early, other, late, opening, x, y, z, t => None);
    ReAnnouncedVotable(s, p, log, early, other, late, opening, x, y, z);
    ImageForSecret(s, x);
    ImageForSecret(s, z);
    KeysDiffer(s, x, z);
  }

  lemma TwoEntries(remarks: seq<Remark>, o: TallyOpts, image: string -> string, r: Remark, q: Remark)
    requires CountedTwice(remarks, o, image, r, q)
    ensures |TallyOf(remarks, o).votes| >= 2
  {
    var votes := TallyOf(remarks, o).votes;
    var v, w :| v in votes && w in votes && v != w;
    TwoIn(votes, v, w);
  }

  /** On every such log, in every lawful suite in which the two secrets have different images, the voter is
      counted twice once it sends two votes, and has another vote once it sends a clear vote. */
  lemma ReAnnouncerCountsTwice<P(!new)>(s: Suite<P>, j: JsonCodec, p: Proposal, log: seq<Remark>, early: Remark,
                                        other: Remark, late: Remark, opening: Remark, x: nat, y: nat, z: nat)
    returns (votes: seq<Remark>, both: seq<Remark>)
    requires LawfulSuite(s) && Faithful(j) && ReAnnouncing(s, p, early, other, late, opening, x, y, z)
    requires IsLog(Seen(log), early, other, late, opening) && opening.blockNumber <= MAX_SAFE_INTEGER
    requires Signs(s, x) && Signs(s, z) && HexImage(s, x) != HexImage(s, z)
    ensures var o := Auditing(s, p, None, j.parse);
            && OnlyBallots(o, votes) && |TallyOf(log + votes, o).votes| >= 2
            && CountedTwice(log + votes, o, Images(s), early, late)
            && OnlyBallots(o, both) && ClearAndAnonymous(log + both, o, Images(s), early.signer, early)
  {
    var o := Auditing(s, p, None, j.parse);
    SchemeCanSign(s, p, None, j.parse);
    LogCanGrow(s, j, p, Seen(log), early, other, late, opening, x, y, z);
    KeysReAnnounced(s, p, Seen(log), early, other, late, opening, x, y, z);
    votes, both := VotesTwice(o, Images(s), AbleFor(s), j, log, early, late, opening.blockNumber);
  }

  lemma VotesTwice(o: TallyOpts, image: string -> string, able: Able, j: JsonCodec, log: seq<Remark>,
                   early: Remark, late: Remark, block: nat)
    returns (votes: seq<Remark>, both: seq<Remark>)
    requires CanSign(o, image, able) && CanSend(Seen(log), o, j, block) && NoStrayImages(Seen(log), o, image)
    requires BothVotable(Seen(log), o.proposal, image, able, early, late)
    requires AnnounceOf(Seen(log), o.proposal, early.signer, early)
    ensures OnlyBallots(o, votes) && |TallyOf(log + votes, o).votes| >= 2 && CountedTwice(log + votes, o, image, early, late)
    ensures OnlyBallots(o, both) && ClearAndAnonymous(log + both, o, image, early.signer, early)
  {
    votes := TwoVotes(log, o, image, able, j, block, early, late);
    TwoEntries(log + votes, o, image, early, late);
    both := ClearAndVote(log, o, image, able, j, block, early.signer, early);
  }

  /** In the small suite every key hashes to the base point, so a secret's image is its key. */
  lemma SmallImages(x: nat)
    ensures Signs(Small(), x) && HexImage(Small(), x) == HexKey(Small(), x)
  {}

  /** Alice announces at block 1, Bob too; Alice announces another key at block 5; voting opens at block 10. */
  function AliceLog(k: string, l: string, m: string): seq<Remark>
    requires IsLowerHex32(k) && IsLowerHex32(l) && IsLowerHex32(m)
  {
    [Announcement(1, ALICE, k), Announcement(1, BOB, l), Announcement(5, ALICE, m),
     Remark(10, COORDINATOR, EncodeStart("p").text)]
  }

  /** All that Alice needs to count twice with the secrets `x` and `z`, Bob having `y`. */
  ghost predicate AliceCan<P(!new)>(s: Suite<P>, j: JsonCodec, x: nat, y: nat, z: nat) {
    && LawfulSuite(s) && Faithful(j) && Signs(s, x) && Signs(s, z) && HexImage(s, x) != HexImage(s, z)
    && 0 < x < s.group.order && 0 < y < s.group.order && 0 < z < s.group.order && x != y && y != z && x != z
    && IsLowerHex32(HexKey(s, x)) && IsLowerHex32(HexKey(s, y)) && IsLowerHex32(HexKey(s, z))
  }

  lemma AliceIn<P(!new)>(s: Suite<P>, j: JsonCodec, x: nat, y: nat, z: nat)
    returns (votes: seq<Remark>, both: seq<Remark>)
    requires AliceCan(s, j, x, y, z)
    ensures CountsTwice(Auditing(s, PROPOSAL, None, j.parse), Images(s),
                        AliceLog(HexKey(s, x), HexKey(s, y), HexKey(s, z)), votes, both)
  {
    var log := AliceLog(HexKey(s, x), HexKey(s, y), HexKey(s, z));
    AliceReAnnounces(s, x, y, z);
    assert Seen(log) == {log[0], log[1], log[2], log[3]};
    votes, both := ReAnnouncerCountsTwice(s, j, PROPOSAL, log, log[0], log[1], log[2], log[3], x, y, z);
  }

  /** With `votes` added to the log, two votes of Alice's two keys are counted; with `both`, a clear vote of hers
      and an anonymous one. */
  ghost predicate CountsTwice(o: TallyOpts, image: string -> string, log: seq<Remark>, votes: seq<Remark>, both: seq<Remark>) {
    && |log| == 4
    && OnlyBallots(o, votes) && |TallyOf(log + votes, o).votes| >= 2 && CountedTwice(log + votes, o, image, log[0], log[2])
    && OnlyBallots(o, both) && ClearAndAnonymous(log + both, o, image, ALICE, log[0])
  }

  lemma SmallImagesDiffer(x: nat, z: nat)
    requires x < SMALL_PRIME && z < SMALL_PRIME && x != z
    ensures HexImage(Small(), x) != HexImage(Small(), z)
  {
    SmallIsLawful();
    SmallImages(x);
    SmallImages(z);
    KeysDiffer(Small(), x, z);
  }

  lemma SmallKey(x: nat)
    requires 0 < x < SMALL_PRIME
    ensures IsLowerHex32(HexKey(Small(), x))
  {
    SmallIsLawful();
    KeyText(Small(), x);
  }

  lemma AliceCanInSmall(x: nat, y: nat, z: nat)
    requires 0 < x < SMALL_PRIME && 0 < y < SMALL_PRIME && 0 < z < SMALL_PRIME && x != y && y != z && x != z
    ensures AliceCan(Small(), VoteCodec(), x, y, z)
  {
    SmallKey(x);
    SmallKey(y);
    SmallKey(z);
    SmallIsLawful();
    VoteCodecIsFaithful();
    SmallImages(x);
    SmallImages(z);
    SmallImagesDiffer(x, z);
  }

  /** The promise that each voter votes at most once fails: with any three secrets of the small suite, Alice has two
      anonymous votes counted, one signed over the ring of block 1 and one over that of block 5; and she can have
      a clear vote counted beside an anonymous one. */
  lemma AliceCountsTwice(x: nat, y: nat, z: nat)
    returns (votes: seq<Remark>, both: seq<Remark>)
    requires 0 < x < SMALL_PRIME && 0 < y < SMALL_PRIME && 0 < z < SMALL_PRIME && x != y && y != z && x != z
    ensures IsLowerHex32(HexKey(Small(), x)) && IsLowerHex32(HexKey(Small(), y)) && IsLowerHex32(HexKey(Small(), z))
    ensures CountsTwice(Auditing(Small(), PROPOSAL, None, VoteCodec().parse), Images(Small()),
                        AliceLog(HexKey(Small(), x), HexKey(Small(), y), HexKey(Small(), z)), votes, both)
  {
    AliceCanInSmall(x, y, z);
    votes, both := AliceIn(Small(), VoteCodec(), x, y, z);
  }

  lemma AliceReAnnounces<P>(s: Suite<P>, x: nat, y: nat, z: nat)
    requires 0 < x < s.group.order && 0 < y < s.group.order && 0 < z < s.group.order && x != y && y != z && x != z
    requires IsLowerHex32(HexKey(s, x)) && IsLowerHex32(HexKey(s, y)) && IsLowerHex32(HexKey(s, z))
    ensures var log := AliceLog(HexKey(s, x), HexKey(s, y), HexKey(s, z));
            ReAnnouncing(s, PROPOSAL, log[0], log[1], log[2], log[3], x, y, z)
  {
    AnnouncementParses(1, ALICE, HexKey(s, x));
    AnnouncementParses(1, BOB, HexKey(s, y));
    AnnouncementParses(5, ALICE, HexKey(s, z));
    StartRoundTrip("p");
    assert ALICE[0] != BOB[0];
  }

  // ----- A ring that nobody can vote with -----

  /** A text of 64 hexadecimal digits that encodes no residue. */
  function NoPoint(): string { HexEncode(seq(32, i => 255)) }

  lemma NoPointEncodesNothing()
    ensures IsLowerHex32(NoPoint()) && !EncodesPoint(Small(), NoPoint())
  {
    var bytes: seq<Byte> := seq(32, i => 255);
    Hex32RoundTrip(bytes);
    assert LeDecode(bytes) >= 255;
  }

  /** Alice announces a key, Bob a text that is no point; voting opens at block 10. */
  function DeadLog(k: string, l: string): seq<Remark>
    requires IsLowerHex32(k) && IsLowerHex32(l)
  {
    [Announcement(1, ALICE, k), Announcement(1, BOB, l), Remark(10, COORDINATOR, EncodeStart("p").text)]
  }

  lemma OnlyWinner(log: set<Remark>, p: Proposal, start: Option<nat>, r: Remark)
    requires r in log && Eligible(r, p, start)
    requires forall q :: q in log && q != r ==> q.signer != r.signer || !Eligible(q, p, start)
    ensures Winner(log, p, start, r)
  {
    RankTotal(RankOf(r), RankOf(r));
  }

  lemma DeadLogOpens(k: string, l: string)
    requires IsLowerHex32(k) && IsLowerHex32(l)
    ensures VotingStart(Seen(DeadLog(k, l)), PROPOSAL) == Some(10)
  {
    var rs := DeadLog(k, l);
    AnnouncementParses(1, ALICE, k);
    AnnouncementParses(1, BOB, l);
    StartRoundTrip("p");
    assert Seen(rs) == {rs[0], rs[1], rs[2]};
    OnlyOpening(Seen(rs), PROPOSAL, rs[2]);
  }

  lemma OpeningNotEligible(r: Remark, p: Proposal)
    requires OpensVoting(r, p)
    ensures !Eligible(r, p, Some(r.blockNumber))
  {}

  lemma DeadRingHolds(k: string, l: string)
    requires IsLowerHex32(k) && IsLowerHex32(l)
    ensures VotingStart(Seen(DeadLog(k, l)), PROPOSAL) == Some(10)
    ensures k in CanonicalRing(Seen(DeadLog(k, l)), PROPOSAL, 10) && l in CanonicalRing(Seen(DeadLog(k, l)), PROPOSAL, 10)
  {
    var rs := DeadLog(k, l);
    var log := Seen(rs);
    AnnouncementParses(1, ALICE, k);
    AnnouncementParses(1, BOB, l);
    DeadLogOpens(k, l);
    OpeningNotEligible(rs[2], PROPOSAL);
    assert ALICE[0] != BOB[0];
    assert log == {rs[0], rs[1], rs[2]} && Window(log, 10) == log;
    OnlyWinner(log, PROPOSAL, Some(10), rs[0]);
    OnlyWinner(log, PROPOSAL, Some(10), rs[1]);
    WinnerInRing(log, PROPOSAL, Some(10), rs[0]);
    WinnerInRing(log, PROPOSAL, Some(10), rs[1]);
  }

  /** Alice's key is a point with a secret that can sign, and in the ring; Bob's text is in it too, and so nobody
      ever casts a valid vote over a ring block from the start on, whatever later blocks hold. */
  lemma BobShutsOutAlice(x: nat, endBlock: Option<nat>, parse: string -> Option<Json>, later: set<Remark>, b: nat, r: Remark)
    requires 0 < x < SMALL_PRIME && b >= 9 && forall e :: e in later ==> e.blockNumber > 10
    ensures IsLowerHex32(HexKey(Small(), x)) && IsLowerHex32(NoPoint()) && Signs(Small(), x)
    ensures var log := Seen(DeadLog(HexKey(Small(), x), NoPoint()));
            && HexKey(Small(), x) in CanonicalRing(log, PROPOSAL, 10)
            && !Usable(Small(), CanonicalRing(log, PROPOSAL, 10))
            && !ValidOver(log + later, Auditing(Small(), PROPOSAL, endBlock, parse), b, r)
  {
    SmallKey(x);
    SmallImages(x);
    NoPointEncodesNothing();
    DeadLogIsDead(Small(), HexKey(Small(), x), NoPoint(), endBlock, parse, later, b, r);
  }

  lemma DeadLogIsDead<P(!new)>(s: Suite<P>, k: string, l: string, endBlock: Option<nat>, parse: string -> Option<Json>,
                               later: set<Remark>, b: nat, r: Remark)
    requires IsLowerHex32(k) && IsLowerHex32(l) && !EncodesPoint(s, l)
    requires b >= 9 && forall e :: e in later ==> e.blockNumber > 10
    ensures var log := Seen(DeadLog(k, l));
            && k in CanonicalRing(log, PROPOSAL, 10)
            && !Usable(s, CanonicalRing(log, PROPOSAL, 10))
            && !ValidOver(log + later, Auditing(s, PROPOSAL, endBlock, parse), b, r)
  {
    DeadRingHolds(k, l);
    DeadForGood(s, PROPOSAL, endBlock, parse, Seen(DeadLog(k, l)), later, b, r);
  }

  // ----- A key the ring does not have -----

  /** A key of one repeated digit. */
  function Repeated(c: char): (k: string)
    requires IsLowerHexDigit(c)
    ensures IsLowerHex32(k) && k[0] == c
  {
    seq(64, i => c)
  }

  /** Two announces of one signer in one block: the browser keeps the first. */
  lemma BrowserKeepsFirst(p: Proposal, first: Remark, second: Remark)
    requires Eligible(first, p, None) && first.signer == second.signer && first.blockNumber == second.blockNumber
    ensures MyAnnounceIs([first, second], p, None, first.signer, Some(RankOf(first)))
  {
    assert FirstOfLastBlock([first, second], p, None, first.signer, 0);
  }

  /** And the ring the larger key. */
  lemma RingKeepsLarger(log: set<Remark>, p: Proposal, small: Remark, large: Remark)
    requires Eligible(small, p, None) && Eligible(large, p, None) && log == {small, large}
    requires small.signer == large.signer && Outranks(RankOf(large), RankOf(small))
    requires RankOf(small).vkPub != RankOf(large).vkPub
    ensures RankOf(small).vkPub !in Ascending(RingKeys(log, p, None))
  {
    assert !Winner(log, p, None, small);
    var ring := Ascending(RingKeys(log, p, None));
    assert forall k :: k in ring <==> k in KeySet(ring);
  }

  /** Alice announces twice in block 1. The browser keeps the first key it meets, the ring the larger one. */
  lemma TwoAnnouncesInOneBlock()
    ensures var rs := [Announcement(1, ALICE, Repeated('a')), Announcement(1, ALICE, Repeated('b'))];
            && VotingStart(Seen(rs), PROPOSAL) == None
            && MyAnnounceIs(rs, PROPOSAL, None, ALICE, Some(Rank(1, Repeated('a'))))
            && Repeated('a') !in Ascending(RingKeys(Seen(rs), PROPOSAL, None))
  {
    var first, second := Announcement(1, ALICE, Repeated('a')), Announcement(1, ALICE, Repeated('b'));
    assert Seen([first, second]) == {first, second};
    AnnouncementParses(1, ALICE, Repeated('a'));
    AnnouncementParses(1, ALICE, Repeated('b'));
    VotingStartIs({first, second}, PROPOSAL, None);
    assert Repeated('a')[0] != Repeated('b')[0];
    assert Less(Repeated('a'), Repeated('b'));
    BrowserKeepsFirst(PROPOSAL, first, second);
    RingKeepsLarger({first, second}, PROPOSAL, first, second);
  }

  // ----- Remarks out of block order -----

  /** Blocks 0 and 1 with one remark each. */
  function TwoBlocks(): Chain { (n: nat) => if n <= 1 then [Remark(n, "voter", "remark")] else [] }

  /** Two workers claim blocks 0 and 1, and block 1 lands first. */
  function LandedLateFirst(): Pool {
    var claimed := Claim(Claim(Fresh(0), 1), 1);
    Land(Land(claimed, TwoBlocks(), 1), TwoBlocks(), 0)
  }

  /** The scan is complete, and what the session merges is the whole chain, but not in block order. */
  lemma LandedOutOfOrder()
    ensures NumberedChain(TwoBlocks()) && PoolOk(LandedLateFirst(), TwoBlocks(), 0, 1) && LandedLateFirst().awaiting == {}
    ensures LandedLateFirst().remarks == [Remark(1, "voter", "remark"), Remark(0, "voter", "remark")]
    ensures UiIndexer.Whole(TwoBlocks(), 0, IndexerCache.Snapshot(1, UiIndexer.MergeFresh([], LandedLateFirst().remarks, 0)))
    ensures !InBlockOrder(UiIndexer.MergeFresh([], LandedLateFirst().remarks, 0))
  {
    var chain, first := TwoBlocks(), Claim(Fresh(0), 1);
    ClaimOk(Fresh(0), chain, 0, 1);
    ClaimOk(first, chain, 0, 1);
    var claimed := Claim(first, 1);
    LandOk(claimed, chain, 0, 1, 1);
    LandOk(Land(claimed, chain, 1), chain, 0, 1, 0);
    var merged := UiIndexer.MergeFresh([], LandedLateFirst().remarks, 0);
    assert merged == LandedLateFirst().remarks;
    assert merged[0].blockNumber > merged[1].blockNumber;
    forall b: nat ensures AtBlock(merged, b) == UiIndexer.ScannedBlock(chain, 0, 1, b) {}
    UiIndexer.WholeBlocks(chain, 0, IndexerCache.Snapshot(1, merged));
  }

  // ----- A lost block -----

  const FIRST := Announcement(1, ALICE, Repeated('a'))

  function OneRemark(r: Remark): Chain { n => if n == r.blockNumber then [r] else [] }

  /** A chain with one announce in it, in a block that was lost. */
  lemma LostLoneAnnounce(r: Remark, p: Proposal)
    requires Eligible(r, p, None) && !OpensVoting(r, p)
    ensures NumberedChain(OneRemark(r))
    ensures CanonicalRing({}, p, r.blockNumber) != CanonicalRing(Seen(Scan(OneRemark(r), 0, r.blockNumber)), p, r.blockNumber)
  {
    var full := Seen(Scan(OneRemark(r), 0, r.blockNumber));
    ScanBlocks(OneRemark(r), 0, r.blockNumber);
    assert full == {r};
    VotingStartIs(full, p, None);
    RankTotal(RankOf(r), RankOf(r));
    assert Winner(Window(full, r.blockNumber), p, None, r);
    LostAnnounceChangesRing(full, {}, p, r.blockNumber, r);
  }

  /** Block 1 holds Alice's announce and could not be fetched: the index counts it as scanned, and its ring
      at block 1 lacks her. */
  lemma LostBlockExample()
    ensures NumberedChain(OneRemark(FIRST)) && Holds(OneRemark(FIRST), {0}, [])
    ensures CanonicalRing(Seen([]), PROPOSAL, 1) != CanonicalRing(Seen(Scan(OneRemark(FIRST), 0, 1)), PROPOSAL, 1)
  {
    AnnouncementParses(1, ALICE, Repeated('a'));
    LostLoneAnnounce(FIRST, PROPOSAL);
    assert Seen([]) == {};
  }
}
