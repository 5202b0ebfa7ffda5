/** Counting the votes of a log (`tallyRemarks` in packages/shared/src/index.ts). */
module Tally {
  import opened Text
  import opened Wire
  import opened Log
  import opened Ring
  import opened FirstWins
  import opened Announced

  /** What the verifier passed in does: return true, return false, or throw. */
  datatype VerifyOutcome = Valid | Invalid | Threw

  datatype TallyOpts = TallyOpts(
    proposal: Proposal,
    endBlock: Option<nat>,
    parse: string -> Option<Json>,
    verify: (RingSig, seq<string>, string) -> VerifyOutcome)

  datatype AcceptedVote = AcceptedVote(vote: Vote, blockNumber: nat)
  datatype AcceptedClear = AcceptedClear(proposalId: string, choice: Choice, blockNumber: nat, realAddress: string)

  datatype Reason =
    | NoStartRemark
    | PreStartVote
    | PostEndVote
    | RingTooSmall
    | SigVerifyFailed
    | SigStructuralError
    | ClearVoteNotAllowed
    | ClearVoteNotAnnounced

  datatype InvalidEntry = InvalidEntry(blockNumber: nat, ringBlock: Option<nat>, reason: Reason)

  datatype Counters = Counters(yes: nat, no: nat, abstain: nat, invalid: nat, totalVoted: nat)

  datatype TallyResult = TallyResult(
    tally: Counters,
    votes: seq<AcceptedVote>,
    clearVotes: seq<AcceptedClear>,
    votingStart: Option<nat>,
    invalidReasons: seq<InvalidEntry>)

  // ----- What one remark is worth, before duplicates are dropped -----

  datatype Verdict =
    | Irrelevant
    | Rejected(entry: InvalidEntry)
    | Ballot(accepted: AcceptedVote)
    | ClearBallot(clear: AcceptedClear)

  /** Why a block is outside `[start, end)`, if it is. */
  function OutsideWindow(start: Option<nat>, endBlock: Option<nat>, block: nat): Option<Reason> {
    if start.None? then Some(NoStartRemark)
    else if block < start.value then Some(PreStartVote)
    else if endBlock.Some? && block >= endBlock.value then Some(PostEndVote)
    else None
  }

  ghost function JudgeClear(log: set<Remark>, o: TallyOpts, r: Remark, c: ClearVote): Verdict {
    var start := VotingStart(log, o.proposal);
    if c.proposalId != o.proposal.id then Irrelevant
    else
      match OutsideWindow(start, o.endBlock, r.blockNumber)
      case Some(reason) => Rejected(InvalidEntry(r.blockNumber, None, reason))
      case None =>
        if o.proposal.allowed.Some? && r.signer !in o.proposal.allowed.value then
          Rejected(InvalidEntry(r.blockNumber, None, ClearVoteNotAllowed))
        else if r.signer !in AnnouncedSigners(log, o.proposal, start) then
          Rejected(InvalidEntry(r.blockNumber, None, ClearVoteNotAnnounced))
        else
          ClearBallot(AcceptedClear(c.proposalId, c.choice, r.blockNumber, r.signer))
  }

  ghost function JudgeVote(log: set<Remark>, o: TallyOpts, r: Remark, v: Vote): Verdict {
    var start := VotingStart(log, o.proposal);
    if v.proposalId != o.proposal.id then Irrelevant
    else
      match OutsideWindow(start, o.endBlock, r.blockNumber)
      case Some(reason) => Rejected(InvalidEntry(r.blockNumber, Some(v.ringBlock), reason))
      case None =>
        var ring := CanonicalRing(log, o.proposal, v.ringBlock);
        if |ring| < 2 then
          Rejected(InvalidEntry(r.blockNumber, Some(v.ringBlock), RingTooSmall))
        else
          match o.verify(v.sig, ring, VoteMessageHex(v.proposalId, v.choice, v.ringBlock))
          case Valid => Ballot(AcceptedVote(v, r.blockNumber))
          case Invalid => Rejected(InvalidEntry(r.blockNumber, Some(v.ringBlock), SigVerifyFailed))
          case Threw => Rejected(InvalidEntry(r.blockNumber, Some(v.ringBlock), SigStructuralError))
  }

  ghost function Judge(log: set<Remark>, o: TallyOpts, r: Remark): Verdict {
    match ParseClearVote(r.text)
    case Some(c) => JudgeClear(log, o, r, c)
    case None =>
      match ParseVote(o.parse, r.text)
      case Some(v) => JudgeVote(log, o, r, v)
      case None => Irrelevant
  }

  // ----- The declarative tally -----

  ghost function Verdicts(log: set<Remark>, o: TallyOpts, rs: seq<Remark>): (vs: seq<Verdict>)
    ensures |vs| == |rs|
    ensures forall i :: 0 <= i < |rs| ==> vs[i] == Judge(log, o, rs[i])
  {
    seq(|rs|, i requires 0 <= i < |rs| => Judge(log, o, rs[i]))
  }

  function PickBallot(v: Verdict): Option<AcceptedVote> { if v.Ballot? then Some(v.accepted) else None }
  function PickClear(v: Verdict): Option<AcceptedClear> { if v.ClearBallot? then Some(v.clear) else None }
  function PickRejection(v: Verdict): Option<InvalidEntry> { if v.Rejected? then Some(v.entry) else None }

  /** The valid ballots among `rs`, duplicates included; likewise clear votes and rejections. */
  ghost function Ballots(log: set<Remark>, o: TallyOpts, rs: seq<Remark>): seq<AcceptedVote> {
    Collect(Verdicts(log, o, rs), PickBallot)
  }

  ghost function ClearBallots(log: set<Remark>, o: TallyOpts, rs: seq<Remark>): seq<AcceptedClear> {
    Collect(Verdicts(log, o, rs), PickClear)
  }

  ghost function Rejections(log: set<Remark>, o: TallyOpts, rs: seq<Remark>): seq<InvalidEntry> {
    Collect(Verdicts(log, o, rs), PickRejection)
  }

  function KeyImageOf(v: AcceptedVote): string { v.vote.sig.keyImage }
  function VoterOf(c: AcceptedClear): string { c.realAddress }
  function VoteChoice(v: AcceptedVote): Choice { v.vote.choice }
  function ClearChoice(c: AcceptedClear): Choice { c.choice }

  function CountChoice<T>(xs: seq<T>, choice: T -> Choice, c: Choice): nat {
    if xs == [] then 0
    else CountChoice(xs[..|xs| - 1], choice, c) + (if choice(xs[|xs| - 1]) == c then 1 else 0)
  }

  function CountersOf(votes: seq<AcceptedVote>, clears: seq<AcceptedClear>, invalid: seq<InvalidEntry>): Counters {
    Counters(
      CountChoice(votes, VoteChoice, Yes) + CountChoice(clears, ClearChoice, Yes),
      CountChoice(votes, VoteChoice, No) + CountChoice(clears, ClearChoice, No),
      CountChoice(votes, VoteChoice, Abstain) + CountChoice(clears, ClearChoice, Abstain),
      |invalid|,
      |votes| + |clears|)
  }

  function Assemble(votes: seq<AcceptedVote>, clears: seq<AcceptedClear>, start: Option<nat>,
                    invalid: seq<InvalidEntry>): TallyResult {
    TallyResult(CountersOf(votes, clears, invalid), votes, clears, start, invalid)
  }

  /** The tally of the remarks `rs`, judged against the whole log: first ballot of each key image,
      first clear vote of each signer, everything else that concerns the proposal rejected. */
  ghost function TallyIn(log: set<Remark>, o: TallyOpts, rs: seq<Remark>): TallyResult {
    Assemble(
      FirstPer(Ballots(log, o, rs), KeyImageOf),
      FirstPer(ClearBallots(log, o, rs), VoterOf),
      VotingStart(log, o.proposal),
      Rejections(log, o, rs))
  }

  ghost function TallyOf(remarks: seq<Remark>, o: TallyOpts): TallyResult {
    TallyIn(Seen(remarks), o, SortByBlock(remarks))
  }

  // ----- The counting loop -----

  method ClearVoteVerdict(ghost log: set<Remark>, announced: set<string>, start: Option<nat>, o: TallyOpts,
                          r: Remark, clear: ClearVote)
    returns (v: Verdict)
    requires start == VotingStart(log, o.proposal)
    requires announced == if start.None? then {} else AnnouncedSigners(log, o.proposal, start)
    ensures v == JudgeClear(log, o, r, clear)
  {
    if clear.proposalId != o.proposal.id { return Irrelevant; }
    if start.None? { return Rejected(InvalidEntry(r.blockNumber, None, NoStartRemark)); }
    if r.blockNumber < start.value { return Rejected(InvalidEntry(r.blockNumber, None, PreStartVote)); }
    if o.endBlock.Some? && r.blockNumber >= o.endBlock.value {
      return Rejected(InvalidEntry(r.blockNumber, None, PostEndVote));
    }
    if o.proposal.allowed.Some? && r.signer !in o.proposal.allowed.value {
      return Rejected(InvalidEntry(r.blockNumber, None, ClearVoteNotAllowed));
    }
    if r.signer !in announced {
      return Rejected(InvalidEntry(r.blockNumber, None, ClearVoteNotAnnounced));
    }
    return ClearBallot(AcceptedClear(clear.proposalId, clear.choice, r.blockNumber, r.signer));
  }

  method VoteVerdict(remarks: seq<Remark>, start: Option<nat>, o: TallyOpts, r: Remark, payload: Vote)
    returns (v: Verdict)
    requires start == VotingStart(Seen(remarks), o.proposal)
    ensures v == JudgeVote(Seen(remarks), o, r, payload)
  {
    var rb := Some(payload.ringBlock);
    if payload.proposalId != o.proposal.id { return Irrelevant; }
    if start.None? { return Rejected(InvalidEntry(r.blockNumber, rb, NoStartRemark)); }
    if r.blockNumber < start.value { return Rejected(InvalidEntry(r.blockNumber, rb, PreStartVote)); }
    if o.endBlock.Some? && r.blockNumber >= o.endBlock.value {
      return Rejected(InvalidEntry(r.blockNumber, rb, PostEndVote));
    }
    var ring := ComputeRingAt(remarks, o.proposal, payload.ringBlock, start);
    if |ring| < 2 { return Rejected(InvalidEntry(r.blockNumber, rb, RingTooSmall)); }
    var outcome := o.verify(payload.sig, ring, VoteMessageHex(payload.proposalId, payload.choice, payload.ringBlock));
    if outcome.Threw? { return Rejected(InvalidEntry(r.blockNumber, rb, SigStructuralError)); }
    if outcome.Invalid? { return Rejected(InvalidEntry(r.blockNumber, rb, SigVerifyFailed)); }
    return Ballot(AcceptedVote(payload, r.blockNumber));
  }

  method VerdictOn(remarks: seq<Remark>, announced: set<string>, start: Option<nat>, o: TallyOpts, r: Remark)
    returns (v: Verdict)
    requires start == VotingStart(Seen(remarks), o.proposal)
    requires announced == if start.None? then {} else AnnouncedSigners(Seen(remarks), o.proposal, start)
    ensures v == Judge(Seen(remarks), o, r)
  {
    v := Irrelevant;
    var clear := ParseClearVote(r.text);
    if clear.Some? {
      v := ClearVoteVerdict(Seen(remarks), announced, start, o, r, clear.value);
    } else {
      var payload := ParseVote(o.parse, r.text);
      if payload.Some? {
        v := VoteVerdict(remarks, start, o, r, payload.value);
      }
    }
  }

  function Bump(t: Counters, c: Choice): Counters {
    match c
    case Yes => t.(yes := t.yes + 1, totalVoted := t.totalVoted + 1)
    case No => t.(no := t.no + 1, totalVoted := t.totalVoted + 1)
    case Abstain => t.(abstain := t.abstain + 1, totalVoted := t.totalVoted + 1)
  }

  lemma CountAppend<T>(xs: seq<T>, x: T, choice: T -> Choice, c: Choice)
    ensures CountChoice(xs + [x], choice, c) == CountChoice(xs, choice, c) + (if choice(x) == c then 1 else 0)
  {
    assert (xs + [x])[..|xs|] == xs;
  }

  lemma BumpVote(votes: seq<AcceptedVote>, clears: seq<AcceptedClear>, invalid: seq<InvalidEntry>, v: AcceptedVote)
    ensures CountersOf(votes + [v], clears, invalid) == Bump(CountersOf(votes, clears, invalid), VoteChoice(v))
  {
    CountAppend(votes, v, VoteChoice, Yes);
    CountAppend(votes, v, VoteChoice, No);
    CountAppend(votes, v, VoteChoice, Abstain);
  }

  lemma BumpClear(votes: seq<AcceptedVote>, clears: seq<AcceptedClear>, invalid: seq<InvalidEntry>, c: AcceptedClear)
    ensures CountersOf(votes, clears + [c], invalid) == Bump(CountersOf(votes, clears, invalid), ClearChoice(c))
  {
    CountAppend(clears, c, ClearChoice, Yes);
    CountAppend(clears, c, ClearChoice, No);
    CountAppend(clears, c, ClearChoice, Abstain);
  }

  lemma VerdictStep(log: set<Remark>, o: TallyOpts, rs: seq<Remark>, r: Remark)
    ensures var v := Judge(log, o, r);
            var bs, cs, es := Ballots(log, o, rs), ClearBallots(log, o, rs), Rejections(log, o, rs);
            && Ballots(log, o, rs + [r]) == (if v.Ballot? then bs + [v.accepted] else bs)
            && ClearBallots(log, o, rs + [r]) == (if v.ClearBallot? then cs + [v.clear] else cs)
            && Rejections(log, o, rs + [r]) == (if v.Rejected? then es + [v.entry] else es)
  {
    var vs := Verdicts(log, o, rs);
    var v := Judge(log, o, r);
    assert Verdicts(log, o, rs + [r]) == vs + [v];
    CollectOne(vs, v, PickBallot);
    CollectOne(vs, v, PickClear);
    CollectOne(vs, v, PickRejection);
  }

  /** The effect of one verdict on the running tally. */
  ghost function Record(was: TallyResult, verdict: Verdict): TallyResult {
    match verdict
    case Irrelevant => was
    case Rejected(e) =>
      was.(invalidReasons := was.invalidReasons + [e], tally := was.tally.(invalid := was.tally.invalid + 1))
    case Ballot(v) =>
      if KeyImageOf(v) in KeysOf(was.votes, KeyImageOf) then was
      else was.(votes := was.votes + [v], tally := Bump(was.tally, VoteChoice(v)))
    case ClearBallot(c) =>
      if VoterOf(c) in KeysOf(was.clearVotes, VoterOf) then was
      else was.(clearVotes := was.clearVotes + [c], tally := Bump(was.tally, ClearChoice(c)))
  }

  lemma RecordBallot(bs: seq<AcceptedVote>, clears: seq<AcceptedClear>, start: Option<nat>,
                     invalid: seq<InvalidEntry>, v: AcceptedVote)
    ensures Assemble(FirstPer(bs + [v], KeyImageOf), clears, start, invalid) ==
            Record(Assemble(FirstPer(bs, KeyImageOf), clears, start, invalid), Ballot(v))
  {
    var kept := FirstPer(bs, KeyImageOf);
    FirstPerStep(bs, v, KeyImageOf);
    FirstPerKeys(bs, KeyImageOf);
    if KeyImageOf(v) in KeysOf(bs, KeyImageOf) {
      assert FirstPer(bs + [v], KeyImageOf) == kept;
    } else {
      assert FirstPer(bs + [v], KeyImageOf) == kept + [v];
      BumpVote(kept, clears, invalid, v);
    }
  }

  lemma RecordClear(votes: seq<AcceptedVote>, cs: seq<AcceptedClear>, start: Option<nat>,
                    invalid: seq<InvalidEntry>, c: AcceptedClear)
    ensures Assemble(votes, FirstPer(cs + [c], VoterOf), start, invalid) ==
            Record(Assemble(votes, FirstPer(cs, VoterOf), start, invalid), ClearBallot(c))
  {
    var kept := FirstPer(cs, VoterOf);
    FirstPerStep(cs, c, VoterOf);
    FirstPerKeys(cs, VoterOf);
    if VoterOf(c) in KeysOf(cs, VoterOf) {
      assert FirstPer(cs + [c], VoterOf) == kept;
    } else {
      assert FirstPer(cs + [c], VoterOf) == kept + [c];
      BumpClear(votes, kept, invalid, c);
    }
  }

  /** One turn of the loop, at the level of the declarative tally. */
  lemma TallyStep(log: set<Remark>, o: TallyOpts, rs: seq<Remark>, r: Remark)
    ensures TallyIn(log, o, rs + [r]) == Record(TallyIn(log, o, rs), Judge(log, o, r))
  {
    var verdict := Judge(log, o, r);
    var bs, cs, es := Ballots(log, o, rs), ClearBallots(log, o, rs), Rejections(log, o, rs);
    var start := VotingStart(log, o.proposal);
    VerdictStep(log, o, rs, r);
    StepLists(bs, cs, es, start, verdict,
              Ballots(log, o, rs + [r]), ClearBallots(log, o, rs + [r]), Rejections(log, o, rs + [r]));
  }

  lemma RecordRejection(votes: seq<AcceptedVote>, clears: seq<AcceptedClear>, start: Option<nat>,
                        es: seq<InvalidEntry>, e: InvalidEntry)
    ensures Assemble(votes, clears, start, es + [e]) == Record(Assemble(votes, clears, start, es), Rejected(e))
  {}

  lemma StepLists(bs: seq<AcceptedVote>, cs: seq<AcceptedClear>, es: seq<InvalidEntry>, start: Option<nat>, verdict: Verdict,
                  bs': seq<AcceptedVote>, cs': seq<AcceptedClear>, es': seq<InvalidEntry>)
    requires bs' == if verdict.Ballot? then bs + [verdict.accepted] else bs
    requires cs' == if verdict.ClearBallot? then cs + [verdict.clear] else cs
    requires es' == if verdict.Rejected? then es + [verdict.entry] else es
    ensures Assemble(FirstPer(bs', KeyImageOf), FirstPer(cs', VoterOf), start, es')
            == Record(Assemble(FirstPer(bs, KeyImageOf), FirstPer(cs, VoterOf), start, es), verdict)
  {
    match verdict {
      case Ballot(v) => RecordBallot(bs, FirstPer(cs, VoterOf), start, es, v);
      case ClearBallot(c) => RecordClear(FirstPer(bs, KeyImageOf), cs, start, es, c);
      case Rejected(e) => RecordRejection(FirstPer(bs, KeyImageOf), FirstPer(cs, VoterOf), start, es, e);
      case Irrelevant =>
    }
  }

  /** The loop's mutable state: the running result and the two sets that detect duplicates. */
  datatype Running = Running(result: TallyResult, seenKeyImage: set<string>, seenClearVoter: set<string>) {
    ghost predicate Consistent() {
      && seenKeyImage == KeysOf(result.votes, KeyImageOf)
      && seenClearVoter == KeysOf(result.clearVotes, VoterOf)
    }
  }

  method RecordVerdict(was: Running, verdict: Verdict) returns (now: Running)
    requires was.Consistent()
    ensures now.Consistent() && now.result == Record(was.result, verdict)
  {
    var tally, seenKeyImage, seenClearVoter := was.result.tally, was.seenKeyImage, was.seenClearVoter;
    var accepted, acceptedClear := was.result.votes, was.result.clearVotes;
    var invalidReasons := was.result.invalidReasons;
    match verdict {
      case Irrelevant =>
      case Rejected(entry) =>
        tally := tally.(invalid := tally.invalid + 1);
        invalidReasons := invalidReasons + [entry];
      case ClearBallot(c) =>
        if c.realAddress !in seenClearVoter {
          KeysAppend(acceptedClear, c, VoterOf);
          seenClearVoter := seenClearVoter + {c.realAddress};
          tally := Bump(tally, c.choice);
          acceptedClear := acceptedClear + [c];
        }
      case Ballot(v) =>
        if v.vote.sig.keyImage !in seenKeyImage {
          KeysAppend(accepted, v, KeyImageOf);
          seenKeyImage := seenKeyImage + {v.vote.sig.keyImage};
          tally := Bump(tally, v.vote.choice);
          accepted := accepted + [v];
        }
    }
    now := Running(TallyResult(tally, accepted, acceptedClear, was.result.votingStart, invalidReasons),
                   seenKeyImage, seenClearVoter);
  }

  lemma TallyOfNothing(log: set<Remark>, o: TallyOpts)
    ensures TallyIn(log, o, []) == TallyResult(Counters(0, 0, 0, 0, 0), [], [], VotingStart(log, o.proposal), [])
  {}

  method TallyRemarks(remarks: seq<Remark>, o: TallyOpts) returns (result: TallyResult)
    ensures result == TallyOf(remarks, o)
  {
    var start := FindVotingStartBlock(remarks, o.proposal);
    var announced := CollectAnnouncedSigners(remarks, o.proposal, start);
    var sorted := SortByBlock(remarks);
    var run := Running(TallyResult(Counters(0, 0, 0, 0, 0), [], [], start, []), {}, {});
    TallyOfNothing(Seen(remarks), o);
    assert sorted[..0] == [];
    for i := 0 to |sorted|
      invariant run.result == TallyIn(Seen(remarks), o, sorted[..i])
      invariant run.Consistent()
    {
      assert sorted[..i + 1] == sorted[..i] + [sorted[i]];
      TallyStep(Seen(remarks), o, sorted[..i], sorted[i]);
      var verdict := VerdictOn(remarks, announced, start, o, sorted[i]);
      run := RecordVerdict(run, verdict);
    }
    assert sorted[..|sorted|] == sorted;
    result := run.result;
  }

  // ----- When a remark counts -----

  lemma BallotsAppend(log: set<Remark>, o: TallyOpts, xs: seq<Remark>, ys: seq<Remark>)
    ensures Ballots(log, o, xs + ys) == Ballots(log, o, xs) + Ballots(log, o, ys)
    ensures ClearBallots(log, o, xs + ys) == ClearBallots(log, o, xs) + ClearBallots(log, o, ys)
    ensures Rejections(log, o, xs + ys) == Rejections(log, o, xs) + Rejections(log, o, ys)
  {
    var vs, ws := Verdicts(log, o, xs), Verdicts(log, o, ys);
    VerdictsAppend(log, o, xs, ys);
    CollectAppend(vs, ws, PickBallot);
    CollectAppend(vs, ws, PickClear);
    CollectAppend(vs, ws, PickRejection);
  }

  lemma VerdictsAppend(log: set<Remark>, o: TallyOpts, xs: seq<Remark>, ys: seq<Remark>)
    ensures Verdicts(log, o, xs + ys) == Verdicts(log, o, xs) + Verdicts(log, o, ys)
  {
    var all, parts := Verdicts(log, o, xs + ys), Verdicts(log, o, xs) + Verdicts(log, o, ys);
    forall i | 0 <= i < |all| ensures all[i] == parts[i] {
      assert all[i] == Judge(log, o, (xs + ys)[i]);
    }
  }

  /** A valid ballot with this key image stands at place `j`. */
  ghost predicate CastAt(log: set<Remark>, o: TallyOpts, rs: seq<Remark>, j: nat, image: string) {
    && j < |rs| && Judge(log, o, rs[j]).Ballot?
    && Judge(log, o, rs[j]).accepted.vote.sig.keyImage == image
  }

  /** The ballot at place `i` of the log in block order counts: it is valid, and no earlier valid
      ballot has its key image. */
  ghost predicate CountsAt(log: set<Remark>, o: TallyOpts, sorted: seq<Remark>, i: nat, v: AcceptedVote) {
    && i < |sorted|
    && Judge(log, o, sorted[i]) == Ballot(v)
    && forall j: nat :: j < i ==> !CastAt(log, o, sorted, j, v.vote.sig.keyImage)
  }

  lemma BallotKeys(log: set<Remark>, o: TallyOpts, rs: seq<Remark>, image: string)
    ensures image in KeysOf(Ballots(log, o, rs), KeyImageOf) <==>
            exists j: nat :: CastAt(log, o, rs, j, image)
  {
    var vs := Verdicts(log, o, rs);
    PickedKeys(vs, PickBallot, KeyImageOf, image);
    forall j: nat ensures CastAt(log, o, rs, j, image) <==> PickedAt(vs, PickBallot, KeyImageOf, j, image) {}
  }

  /** A vote is in the tally exactly when it counts somewhere. */
  lemma CountedIff(log: set<Remark>, o: TallyOpts, sorted: seq<Remark>, v: AcceptedVote)
    ensures v in TallyIn(log, o, sorted).votes <==> exists i: nat :: CountsAt(log, o, sorted, i, v)
  {
    FirstPickedIff(Verdicts(log, o, sorted), PickBallot, KeyImageOf, v);
    forall i: nat ensures CountsAt(log, o, sorted, i, v) <==> FirstPicked(Verdicts(log, o, sorted), PickBallot, KeyImageOf, i, v) {
      CountsIsFirst(log, o, sorted, i, v);
    }
  }

  lemma CastIsPicked(log: set<Remark>, o: TallyOpts, rs: seq<Remark>, j: nat, image: string)
    ensures CastAt(log, o, rs, j, image) <==> PickedAt(Verdicts(log, o, rs), PickBallot, KeyImageOf, j, image)
  {}

  lemma CountsIsFirst(log: set<Remark>, o: TallyOpts, sorted: seq<Remark>, i: nat, v: AcceptedVote)
    ensures CountsAt(log, o, sorted, i, v) <==> FirstPicked(Verdicts(log, o, sorted), PickBallot, KeyImageOf, i, v)
  {
    forall j: nat
      ensures CastAt(log, o, sorted, j, v.vote.sig.keyImage) <==>
              PickedAt(Verdicts(log, o, sorted), PickBallot, KeyImageOf, j, KeyImageOf(v))
    {
      CastIsPicked(log, o, sorted, j, KeyImageOf(v));
    }
  }

  /** A valid clear vote of this signer stands at place `j`. */
  ghost predicate ClearCastAt(log: set<Remark>, o: TallyOpts, rs: seq<Remark>, j: nat, voter: string) {
    && j < |rs| && Judge(log, o, rs[j]).ClearBallot?
    && Judge(log, o, rs[j]).clear.realAddress == voter
  }

  /** The clear vote at place `i` of the log in block order counts: it is valid, and no earlier valid clear
      vote has its signer. */
  ghost predicate ClearCountsAt(log: set<Remark>, o: TallyOpts, sorted: seq<Remark>, i: nat, c: AcceptedClear) {
    && i < |sorted|
    && Judge(log, o, sorted[i]) == ClearBallot(c)
    && forall j: nat :: j < i ==> !ClearCastAt(log, o, sorted, j, c.realAddress)
  }

  /** A clear vote is in the tally exactly when it counts somewhere. */
  lemma ClearCountedIff(log: set<Remark>, o: TallyOpts, sorted: seq<Remark>, c: AcceptedClear)
    ensures c in TallyIn(log, o, sorted).clearVotes <==> exists i: nat :: ClearCountsAt(log, o, sorted, i, c)
  {
    FirstPickedIff(Verdicts(log, o, sorted), PickClear, VoterOf, c);
    forall i: nat ensures ClearCountsAt(log, o, sorted, i, c) <==> FirstPicked(Verdicts(log, o, sorted), PickClear, VoterOf, i, c) {
      ClearCountsIsFirst(log, o, sorted, i, c);
    }
  }

  lemma ClearCastIsPicked(log: set<Remark>, o: TallyOpts, rs: seq<Remark>, j: nat, voter: string)
    ensures ClearCastAt(log, o, rs, j, voter) <==> PickedAt(Verdicts(log, o, rs), PickClear, VoterOf, j, voter)
  {}

  lemma ClearCountsIsFirst(log: set<Remark>, o: TallyOpts, sorted: seq<Remark>, i: nat, c: AcceptedClear)
    ensures ClearCountsAt(log, o, sorted, i, c) <==> FirstPicked(Verdicts(log, o, sorted), PickClear, VoterOf, i, c)
  {
    forall j: nat
      ensures ClearCastAt(log, o, sorted, j, c.realAddress) <==>
              PickedAt(Verdicts(log, o, sorted), PickClear, VoterOf, j, VoterOf(c))
    {
      ClearCastIsPicked(log, o, sorted, j, VoterOf(c));
    }
  }

  /** What makes an anonymous vote valid. */
  lemma ValidBallotIff(log: set<Remark>, o: TallyOpts, r: Remark, v: AcceptedVote)
    ensures Judge(log, o, r) == Ballot(v) <==>
            && ParseVote(o.parse, r.text) == Some(v.vote)
            && v.blockNumber == r.blockNumber
            && v.vote.proposalId == o.proposal.id
            && VotingStart(log, o.proposal).Some?
            && VotingStart(log, o.proposal).value <= r.blockNumber
            && (o.endBlock.Some? ==> r.blockNumber < o.endBlock.value)
            && |CanonicalRing(log, o.proposal, v.vote.ringBlock)| >= 2
            && o.verify(v.vote.sig, CanonicalRing(log, o.proposal, v.vote.ringBlock),
                        VoteMessageHex(v.vote.proposalId, v.vote.choice, v.vote.ringBlock)) == Valid
  {
    KindsDisjoint(o.parse, r.text);
  }

  /** What makes a clear vote valid. */
  lemma ValidClearIff(log: set<Remark>, o: TallyOpts, r: Remark, c: AcceptedClear)
    ensures Judge(log, o, r) == ClearBallot(c) <==>
            && ParseClearVote(r.text) == Some(ClearVote(c.proposalId, c.choice))
            && c.blockNumber == r.blockNumber && c.realAddress == r.signer
            && c.proposalId == o.proposal.id
            && VotingStart(log, o.proposal).Some?
            && VotingStart(log, o.proposal).value <= r.blockNumber
            && (o.endBlock.Some? ==> r.blockNumber < o.endBlock.value)
            && (o.proposal.allowed.Some? ==> r.signer in o.proposal.allowed.value)
            && (exists a :: a in log && Eligible(a, o.proposal, VotingStart(log, o.proposal)) && a.signer == r.signer)
  {}

  // ----- When a remark is rejected, and why -----

  /** The window is open at `block`. */
  ghost predicate OpenAt(start: Option<nat>, endBlock: Option<nat>, block: nat) {
    && start.Some? && start.value <= block
    && (endBlock.Some? ==> block < endBlock.value)
  }

  /** The reasons that a closed window gives. */
  ghost predicate ClosedFor(reason: Reason, start: Option<nat>, endBlock: Option<nat>, block: nat) {
    match reason
    case NoStartRemark => start == None
    case PreStartVote => start.Some? && block < start.value
    case PostEndVote => start.Some? && start.value <= block && endBlock.Some? && endBlock.value <= block
    case _ => false
  }

  /** Exactly which vote remarks are rejected, and with which reason. */
  lemma VoteRejectedIff(log: set<Remark>, o: TallyOpts, r: Remark, v: Vote, e: InvalidEntry)
    requires ParseVote(o.parse, r.text) == Some(v)
    ensures Judge(log, o, r) == Rejected(e) <==>
            && v.proposalId == o.proposal.id && e.blockNumber == r.blockNumber && e.ringBlock == Some(v.ringBlock)
            && var start, ring := VotingStart(log, o.proposal), CanonicalRing(log, o.proposal, v.ringBlock);
               var outcome := o.verify(v.sig, ring, VoteMessageHex(v.proposalId, v.choice, v.ringBlock));
               var open := OpenAt(start, o.endBlock, r.blockNumber);
               || ClosedFor(e.reason, start, o.endBlock, r.blockNumber)
               || (e.reason == RingTooSmall && open && |ring| < 2)
               || (e.reason == SigVerifyFailed && open && |ring| >= 2 && outcome == Invalid)
               || (e.reason == SigStructuralError && open && |ring| >= 2 && outcome == Threw)
  {
    KindsDisjoint(o.parse, r.text);
  }

  /** Exactly which clear votes are rejected, and with which reason. */
  lemma ClearRejectedIff(log: set<Remark>, o: TallyOpts, r: Remark, c: ClearVote, e: InvalidEntry)
    requires ParseClearVote(r.text) == Some(c)
    ensures Judge(log, o, r) == Rejected(e) <==>
            && c.proposalId == o.proposal.id && e.blockNumber == r.blockNumber && e.ringBlock == None
            && var start := VotingStart(log, o.proposal);
               var mayVote := o.proposal.allowed.Some? ==> r.signer in o.proposal.allowed.value;
               var announced := exists a :: a in log && Eligible(a, o.proposal, start) && a.signer == r.signer;
               var open := OpenAt(start, o.endBlock, r.blockNumber);
               || ClosedFor(e.reason, start, o.endBlock, r.blockNumber)
               || (e.reason == ClearVoteNotAllowed && open && !mayVote)
               || (e.reason == ClearVoteNotAnnounced && open && mayVote && !announced)
  {}

  /** A remark does not concern the tally exactly when it is neither kind of vote on the proposal. */
  lemma IrrelevantIff(log: set<Remark>, o: TallyOpts, r: Remark)
    ensures Judge(log, o, r) == Irrelevant <==>
            && (forall v :: ParseVote(o.parse, r.text) == Some(v) ==> v.proposalId != o.proposal.id)
            && (forall c :: ParseClearVote(r.text) == Some(c) ==> c.proposalId != o.proposal.id)
  {
    KindsDisjoint(o.parse, r.text);
  }

  /** The list of rejections: one entry for each rejected remark, in stable block order. */
  lemma RejectionsListed(remarks: seq<Remark>, o: TallyOpts) returns (places: seq<nat>)
    ensures var log, sorted, entries := Seen(remarks), SortByBlock(remarks), TallyOf(remarks, o).invalidReasons;
            && |places| == |entries|
            && (forall i, j :: 0 <= i < j < |places| ==> places[i] < places[j])
            && (forall i :: 0 <= i < |places| ==>
                  places[i] < |sorted| && Judge(log, o, sorted[places[i]]) == Rejected(entries[i]))
            && (forall j: nat :: j < |sorted| && Judge(log, o, sorted[j]).Rejected? ==> j in places)
  {
    places := CollectPlaces(Verdicts(Seen(remarks), o, SortByBlock(remarks)), PickRejection);
  }

  // ----- The counters -----

  /** The places of a list with the given choice. */
  ghost function Places<T>(xs: seq<T>, choice: T -> Choice, c: Choice): set<nat> {
    set i: nat | i < |xs| && choice(xs[i]) == c
  }

  lemma PlacesGrow<T>(xs: seq<T>, x: T, choice: T -> Choice, c: Choice)
    ensures Places(xs + [x], choice, c) == Places(xs, choice, c) + (if choice(x) == c then {|xs|} else {})
  {
    var all := xs + [x];
    assert all[|xs|] == x && forall i :: 0 <= i < |xs| ==> all[i] == xs[i];
  }

  lemma {:induction false} CountIs<T>(xs: seq<T>, choice: T -> Choice, c: Choice)
    ensures CountChoice(xs, choice, c) == |Places(xs, choice, c)|
  {
    if xs != [] {
      var n := |xs| - 1;
      CountIs(xs[..n], choice, c);
      PlacesGrow(xs[..n], xs[n], choice, c);
      assert xs == xs[..n] + [xs[n]];
    }
  }

  /** Each counter is the number of counted votes and counted clear votes for its own choice. */
  lemma CountersAre(remarks: seq<Remark>, o: TallyOpts)
    ensures var res := TallyOf(remarks, o);
            var votes, clears := res.votes, res.clearVotes;
            && res.tally.yes == |set i | 0 <= i < |votes| && votes[i].vote.choice == Yes| +
                                |set i | 0 <= i < |clears| && clears[i].choice == Yes|
            && res.tally.no == |set i | 0 <= i < |votes| && votes[i].vote.choice == No| +
                               |set i | 0 <= i < |clears| && clears[i].choice == No|
            && res.tally.abstain == |set i | 0 <= i < |votes| && votes[i].vote.choice == Abstain| +
                                    |set i | 0 <= i < |clears| && clears[i].choice == Abstain|
            && res.tally.invalid == |res.invalidReasons|
            && res.tally.totalVoted == |votes| + |clears|
            && res.votingStart == VotingStart(Seen(remarks), o.proposal)
  {
    var res := TallyOf(remarks, o);
    CountsFor(res, Yes);
    CountsFor(res, No);
    CountsFor(res, Abstain);
  }

  lemma CountsFor(res: TallyResult, c: Choice)
    ensures CountChoice(res.votes, VoteChoice, c) == |set i | 0 <= i < |res.votes| && res.votes[i].vote.choice == c|
    ensures CountChoice(res.clearVotes, ClearChoice, c) ==
            |set i | 0 <= i < |res.clearVotes| && res.clearVotes[i].choice == c|
  {
    CountIs(res.votes, VoteChoice, c);
    CountIs(res.clearVotes, ClearChoice, c);
    assert Places(res.votes, VoteChoice, c) == set i | 0 <= i < |res.votes| && res.votes[i].vote.choice == c;
    assert Places(res.clearVotes, ClearChoice, c) == set i | 0 <= i < |res.clearVotes| && res.clearVotes[i].choice == c;
  }

  // ----- Conservation -----

  /** How many remarks concern the proposal. */
  function Relevant(vs: seq<Verdict>): nat {
    if vs == [] then 0
    else Relevant(vs[..|vs| - 1]) + (if vs[|vs| - 1].Irrelevant? then 0 else 1)
  }

  lemma {:induction false} ChoicesAddUp<T>(xs: seq<T>, choice: T -> Choice)
    ensures CountChoice(xs, choice, Yes) + CountChoice(xs, choice, No) + CountChoice(xs, choice, Abstain) == |xs|
  {
    if xs != [] {
      ChoicesAddUp(xs[..|xs| - 1], choice);
    }
  }

  lemma {:induction false} RelevantSplits(vs: seq<Verdict>)
    ensures Relevant(vs) == |Collect(vs, PickBallot)| + |Collect(vs, PickClear)| + |Collect(vs, PickRejection)|
  {
    if vs != [] {
      RelevantSplits(vs[..|vs| - 1]);
    }
  }

  /** Nothing is lost: every remark about the proposal is counted, rejected with a reason, or dropped
      as a duplicate; and the counters add up to the lists. */
  lemma TallyConserves(remarks: seq<Remark>, o: TallyOpts)
    ensures var log, sorted, res := Seen(remarks), SortByBlock(remarks), TallyOf(remarks, o);
            var dropped := (|Ballots(log, o, sorted)| - |res.votes|) + (|ClearBallots(log, o, sorted)| - |res.clearVotes|);
            && dropped >= 0
            && Relevant(Verdicts(log, o, sorted)) == res.tally.totalVoted + res.tally.invalid + dropped
            && res.tally.yes + res.tally.no + res.tally.abstain == res.tally.totalVoted
            && res.tally.totalVoted == |res.votes| + |res.clearVotes|
            && res.tally.invalid == |res.invalidReasons|
            && |res.votes| == |KeysOf(Ballots(log, o, sorted), KeyImageOf)|
            && |res.clearVotes| == |KeysOf(ClearBallots(log, o, sorted), VoterOf)|
  {
    var log, sorted, res := Seen(remarks), SortByBlock(remarks), TallyOf(remarks, o);
    RelevantSplits(Verdicts(log, o, sorted));
    ChoicesAddUp(res.votes, VoteChoice);
    ChoicesAddUp(res.clearVotes, ClearChoice);
    FirstPerKeys(Ballots(log, o, sorted), KeyImageOf);
    FirstPerKeys(ClearBallots(log, o, sorted), VoterOf);
  }

  /** The result depends on the order of remarks inside a block, and on no other order. */
  lemma TallyOrderFree(xs: seq<Remark>, ys: seq<Remark>, o: TallyOpts)
    requires SameBlocks(xs, ys)
    ensures TallyOf(xs, o) == TallyOf(ys, o)
  {
    SameBlocksSameSet(xs, ys);
    SortSameBlocks(xs, ys);
  }
}
