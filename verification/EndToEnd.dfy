/** From a signature to a counted vote and an accepted drip. */
module EndToEnd {
  import opened Text
  import opened Wire
  import opened Log
  import opened Ring
  import opened FirstWins
  import opened Tally
  import opened BallotBound
  import opened Blsag
  import opened WasmBoundary
  import opened VotingKeys
  import Faucet
  import RingIndexer
  import IndexerCache
  import UiIndexer

  // ----- A signed vote counts -----

  /** What a voter sends who knows the log `known` and signs over its ring at block `h`. */
  ghost function SignedVote<P>(s: Suite<P>, p: Proposal, known: set<Remark>, h: nat, choice: Choice,
                               sk: string, alpha: nat, rs: seq<nat>): Option<Vote>
    requires |rs| == |CanonicalRing(known, p, h)| && s.group.order > 0
  {
    match SignJs(s, sk, CanonicalRing(known, p, h), VoteMessageHex(p.id, choice, h), alpha, rs)
    case None => None
    case Some(sig) => Some(Vote(p.id, choice, h, sig))
  }

  lemma SignedVoteVerifies<P(!new)>(s: Suite<P>, p: Proposal, known: set<Remark>, h: nat, choice: Choice,
                                    sk: string, alpha: nat, rs: seq<nat>, vote: Vote)
    requires LawfulSuite(s) && GoodSigner(s, sk) && HonestChoices(s.group.order, CanonicalRing(known, p, h), rs)
    requires SignedVote(s, p, known, h, choice, sk, alpha, rs) == Some(vote)
    ensures vote == Vote(p.id, choice, h, vote.sig) && WellFormedSig(vote.sig) && |CanonicalRing(known, p, h)| >= 2
    ensures VerifyJs(s, vote.sig, CanonicalRing(known, p, h), VoteMessageHex(p.id, choice, h)) == Valid
  {
    SignedVerifies(s, sk, CanonicalRing(known, p, h), VoteMessageHex(p.id, choice, h), alpha, rs);
  }

  /** A vote that verifies over the ring known at `h` is judged a ballot wherever that ring is the same. */
  lemma VerifiedVoteIsValid<P>(s: Suite<P>, j: JsonCodec, p: Proposal, endBlock: Option<nat>, known: set<Remark>,
                               vote: Vote, log: set<Remark>, r: Remark)
    requires Faithful(j) && vote.ringBlock <= MAX_SAFE_INTEGER && vote.proposalId == p.id && WellFormedSig(vote.sig)
    requires |CanonicalRing(known, p, vote.ringBlock)| >= 2
    requires VerifyJs(s, vote.sig, CanonicalRing(known, p, vote.ringBlock),
                      VoteMessageHex(p.id, vote.choice, vote.ringBlock)) == Valid
    requires AgreeThrough(known, log, vote.ringBlock)
    requires r.text == EncodeVote(j, vote) && OutsideWindow(VotingStart(log, p), endBlock, r.blockNumber) == None
    ensures Judge(log, Auditing(s, p, endBlock, j.parse), r) == Ballot(AcceptedVote(vote, r.blockNumber))
  {
    SnapshotStable(known, log, p, vote.ringBlock, vote.ringBlock);
    VoteRoundTrip(j, vote);
    ValidBallotIff(log, Auditing(s, p, endBlock, j.parse), r, AcceptedVote(vote, r.blockNumber));
  }

  /** A vote signed with the ring at block `h`, built from a log complete through `h`, is a valid ballot of
      every log that agrees through `h`, as soon as it lands inside the window. */
  lemma SignedVoteIsValid<P(!new)>(s: Suite<P>, j: JsonCodec, p: Proposal, endBlock: Option<nat>,
                                   known: set<Remark>, h: nat, choice: Choice, sk: string, alpha: nat, rs: seq<nat>,
                                   vote: Vote, log: set<Remark>, r: Remark)
    requires LawfulSuite(s) && Faithful(j) && GoodSigner(s, sk) && h <= MAX_SAFE_INTEGER
    requires HonestChoices(s.group.order, CanonicalRing(known, p, h), rs)
    requires SignedVote(s, p, known, h, choice, sk, alpha, rs) == Some(vote)
    requires AgreeThrough(known, log, h)
    requires r.text == EncodeVote(j, vote) && OutsideWindow(VotingStart(log, p), endBlock, r.blockNumber) == None
    ensures Judge(log, Auditing(s, p, endBlock, j.parse), r) == Ballot(AcceptedVote(vote, r.blockNumber))
  {
    SignedVoteVerifies(s, p, known, h, choice, sk, alpha, rs, vote);
    VerifiedVoteIsValid(s, j, p, endBlock, known, vote, log, r);
  }

  /** No earlier valid ballot of the log in block order has the key image. */
  ghost predicate FirstOfItsImage(log: set<Remark>, o: TallyOpts, sorted: seq<Remark>, i: nat, image: string) {
    forall j: nat :: j < i ==> !CastAt(log, o, sorted, j, image)
  }

  /** A valid ballot in a log: its key image is counted, and it is itself counted unless an earlier valid
      ballot has the same key image. */
  lemma ValidBallotCounts(remarks: seq<Remark>, o: TallyOpts, r: Remark, v: AcceptedVote)
    requires r in remarks && Judge(Seen(remarks), o, r) == Ballot(v)
    ensures KeyImageOf(v) in KeysOf(TallyOf(remarks, o).votes, KeyImageOf)
    ensures forall i: nat :: i < |remarks| && SortByBlock(remarks)[i] == r &&
                             FirstOfItsImage(Seen(remarks), o, SortByBlock(remarks), i, KeyImageOf(v))
                             ==> v in TallyOf(remarks, o).votes
  {
    BallotCounted(remarks, o, r);
    var log, sorted := Seen(remarks), SortByBlock(remarks);
    forall i: nat | i < |remarks| && sorted[i] == r && FirstOfItsImage(log, o, sorted, i, KeyImageOf(v))
      ensures v in TallyOf(remarks, o).votes
    {
      assert CountsAt(log, o, sorted, i, v);
      CountedIff(log, o, sorted, v);
    }
  }

  /** End to end: sign with the ring at `h`, land inside the window, be counted. The key image is counted in
      any case; the vote itself unless an earlier valid ballot has the same key image. */
  lemma SignedVoteCounts<P(!new)>(s: Suite<P>, j: JsonCodec, p: Proposal, endBlock: Option<nat>,
                                  known: set<Remark>, h: nat, choice: Choice, sk: string, alpha: nat, rs: seq<nat>,
                                  vote: Vote, remarks: seq<Remark>, r: Remark)
    requires LawfulSuite(s) && Faithful(j) && GoodSigner(s, sk) && h <= MAX_SAFE_INTEGER
    requires HonestChoices(s.group.order, CanonicalRing(known, p, h), rs)
    requires SignedVote(s, p, known, h, choice, sk, alpha, rs) == Some(vote)
    requires AgreeThrough(known, Seen(remarks), h) && r in remarks && r.text == EncodeVote(j, vote)
    requires OutsideWindow(VotingStart(Seen(remarks), p), endBlock, r.blockNumber) == None
    ensures var o := Auditing(s, p, endBlock, j.parse);
            && vote.sig.keyImage in KeysOf(TallyOf(remarks, o).votes, KeyImageOf)
            && (forall i: nat :: i < |remarks| && SortByBlock(remarks)[i] == r &&
                                 FirstOfItsImage(Seen(remarks), o, SortByBlock(remarks), i, vote.sig.keyImage)
                                 ==> AcceptedVote(vote, r.blockNumber) in TallyOf(remarks, o).votes)
  {
    SignedVoteIsValid(s, j, p, endBlock, known, h, choice, sk, alpha, rs, vote, Seen(remarks), r);
    ValidBallotCounts(remarks, Auditing(s, p, endBlock, j.parse), r, AcceptedVote(vote, r.blockNumber));
  }

  /** One secret key, one counted vote, however many rings, choices and ring blocks it signs for. */
  lemma OneKeyOneVote<P(!new)>(s: Suite<P>, remarks: seq<Remark>, o: TallyOpts, sk: string,
                               ring1: seq<string>, m1: string, alpha1: nat, rs1: seq<nat>, i: nat,
                               ring2: seq<string>, m2: string, alpha2: nat, rs2: seq<nat>, j: nat)
    requires s.group.order > 0 && |rs1| == |ring1| && |rs2| == |ring2|
    requires i < |TallyOf(remarks, o).votes| && j < |TallyOf(remarks, o).votes|
    requires SignJs(s, sk, ring1, m1, alpha1, rs1) == Some(TallyOf(remarks, o).votes[i].vote.sig)
    requires SignJs(s, sk, ring2, m2, alpha2, rs2) == Some(TallyOf(remarks, o).votes[j].vote.sig)
    ensures i == j
  {
    SameSignerSameImage(s, sk, ring1, m1, alpha1, rs1, ring2, m2, alpha2, rs2);
    var valid := Ballots(Seen(remarks), o, SortByBlock(remarks));
    if i < j { FirstPerDistinct(valid, KeyImageOf, i, j); }
    if j < i { FirstPerDistinct(valid, KeyImageOf, j, i); }
  }

  // ----- A signed drip request passes -----

  /** A verifier that accepts what `verify_js` accepts, whatever it does with the rest: the faucet's catches the
      errors that `verify_js` throws (packages/api/src/faucet/ring-sig-verifier.ts). */
  ghost predicate Accepts<P>(s: Suite<P>, verify: (RingSig, seq<string>, string) -> VerifyOutcome) {
    forall sig, ring, m :: verify(sig, ring, m) == Valid <==> VerifyJs(s, sig, ring, m) == Valid
  }

  /** A drip signed with the ring at `h` passes every check before duplicates and budget, whenever the
      faucet's index is complete through a block no lower than `h`. */
  lemma SignedDripAccepted<P(!new)>(s: Suite<P>, c: Faucet.Config, p: Proposal, known: set<Remark>, h: nat,
                                    gasAddress: string, sk: string, alpha: nat, rs: seq<nat>,
                                    chain: Chain, scannedThrough: int, got: set<nat>, remarks: seq<Remark>)
    requires LawfulSuite(s) && GoodSigner(s, sk) && c.proposalId == p.id
    requires Accepts(s, c.verify)
    requires HonestChoices(s.group.order, CanonicalRing(known, p, h), rs)
    requires SignJs(s, sk, CanonicalRing(known, p, h), DripMessageHex(p.id, gasAddress, h), alpha, rs).Some?
    requires NumberedChain(chain) && RingIndexer.Holds(chain, got, remarks) && got == BlockRange(c.startBlock, scannedThrough)
    requires AgreeThrough(known, Seen(Scan(chain, c.startBlock, scannedThrough)), h)
    requires c.isAddress(gasAddress) && c.startBlock <= h <= scannedThrough
    ensures var sig := SignJs(s, sk, CanonicalRing(known, p, h), DripMessageHex(p.id, gasAddress, h), alpha, rs).value;
            Faucet.Acceptable(c, Faucet.ViewOf(scannedThrough, remarks, p, h), Faucet.DripRequest(p.id, gasAddress, h, sig))
  {
    var ring := CanonicalRing(known, p, h);
    SignedVerifies(s, sk, ring, DripMessageHex(p.id, gasAddress, h), alpha, rs);
    SnapshotStable(known, Seen(Scan(chain, c.startBlock, scannedThrough)), p, h, h);
    RingIndexer.RingAtAgrees(chain, c.startBlock, scannedThrough, got, remarks, p, h, scannedThrough);
  }

  /** The faucet's own verifier is one that accepts what `verify_js` accepts. */
  lemma CatchingAccepts<P>(s: Suite<P>, p: Proposal, endBlock: Option<nat>, parse: string -> Option<Json>)
    ensures Accepts(s, Catching(Auditing(s, p, endBlock, parse)).verify)
    ensures forall sig, ring, m :: Catching(Auditing(s, p, endBlock, parse)).verify(sig, ring, m) != Threw
  {}

  // ----- Browser and auditor -----

  /** The auditor's verifier (packages/cli/src/ring-sig.ts) and the faucet's turn a throw into `false`. */
  function Catching(o: TallyOpts): TallyOpts {
    o.(verify := (sig, ring, m) => if o.verify(sig, ring, m) == Valid then Valid else Invalid)
  }

  /** The reason an auditor reports where a browser reports `e`. */
  function AsCaught(e: InvalidEntry): InvalidEntry {
    if e.reason == SigStructuralError then e.(reason := SigVerifyFailed) else e
  }

  predicate SameButCaught(browser: Verdict, auditor: Verdict) {
    if browser.Rejected? then auditor == Rejected(AsCaught(browser.entry)) else auditor == browser
  }

  lemma VerdictCaught(log: set<Remark>, o: TallyOpts, r: Remark)
    ensures SameButCaught(Judge(log, o, r), Judge(log, Catching(o), r))
  {
    var v := ParseVote(o.parse, r.text);
    if ParseClearVote(r.text).None? && v.Some? {
      VoteCaught(log, o, r, v.value);
    }
  }

  lemma VoteCaught(log: set<Remark>, o: TallyOpts, r: Remark, v: Vote)
    ensures SameButCaught(JudgeVote(log, o, r, v), JudgeVote(log, Catching(o), r, v))
  {}

  lemma {:induction false} VerdictsCaught(browser: seq<Verdict>, auditor: seq<Verdict>)
    requires |browser| == |auditor| && forall i :: 0 <= i < |browser| ==> SameButCaught(browser[i], auditor[i])
    ensures Collect(auditor, PickBallot) == Collect(browser, PickBallot)
    ensures Collect(auditor, PickClear) == Collect(browser, PickClear)
    ensures ReasonsCaught(Collect(browser, PickRejection), Collect(auditor, PickRejection))
  {
    if browser != [] {
      var n := |browser| - 1;
      VerdictsCaught(browser[..n], auditor[..n]);
      assert SameButCaught(browser[n], auditor[n]);
    }
  }

  ghost predicate ReasonsCaught(browser: seq<InvalidEntry>, auditor: seq<InvalidEntry>) {
    |auditor| == |browser| && forall i :: 0 <= i < |browser| ==> auditor[i] == AsCaught(browser[i])
  }

  /** The browser's index is not in block order and its verifier throws where the auditor's does not. A whole
      index still gives the auditor's votes, clear votes, start block and counters; reasons differ only where
      the verifier threw. */
  lemma BrowserTallyIsAuditors(chain: Chain, start: nat, s: IndexerCache.Snapshot, o: TallyOpts)
    requires UiIndexer.Whole(chain, start, s)
    ensures var browser, auditor := TallyOf(s.remarks, o), TallyOf(Scan(chain, start, s.scannedThrough), Catching(o));
            && browser.tally == auditor.tally
            && browser.votes == auditor.votes && browser.clearVotes == auditor.clearVotes
            && browser.votingStart == auditor.votingStart
            && ReasonsCaught(browser.invalidReasons, auditor.invalidReasons)
  {
    TallyOrderFree(s.remarks, Scan(chain, start, s.scannedThrough), o);
    CaughtTally(Scan(chain, start, s.scannedThrough), o);
  }

  /** On one log. */
  lemma CaughtTally(remarks: seq<Remark>, o: TallyOpts)
    ensures var browser, auditor := TallyOf(remarks, o), TallyOf(remarks, Catching(o));
            && browser.tally == auditor.tally
            && browser.votes == auditor.votes && browser.clearVotes == auditor.clearVotes
            && browser.votingStart == auditor.votingStart
            && ReasonsCaught(browser.invalidReasons, auditor.invalidReasons)
  {
    var log, sorted := Seen(remarks), SortByBlock(remarks);
    var browser, auditor := Verdicts(log, o, sorted), Verdicts(log, Catching(o), sorted);
    forall i | 0 <= i < |sorted| ensures SameButCaught(browser[i], auditor[i]) {
      VerdictCaught(log, o, sorted[i]);
    }
    VerdictsCaught(browser, auditor);
  }
}
