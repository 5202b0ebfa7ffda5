/** What a longer log can and cannot do to a tally (packages/shared/src/index.ts). */
module Finality {
  import opened Text
  import opened Wire
  import opened Log
  import opened Ring
  import opened FirstWins
  import opened Announced
  import opened Tally

  ghost predicate AllLater(log: set<Remark>, later: set<Remark>) {
    forall r, e :: r in log && e in later ==> r.blockNumber < e.blockNumber
  }

  /** Once the start remark is in the log, later blocks admit nobody to the clear vote. */
  lemma AnnouncedFinal(log: set<Remark>, later: set<Remark>, p: Proposal)
    requires AllLater(log, later) && VotingStart(log, p).Some?
    ensures AnnouncedSigners(log + later, p, VotingStart(log, p)) == AnnouncedSigners(log, p, VotingStart(log, p))
  {
    var s := VotingStart(log, p);
    VotingStartIs(log, p, s);
    var opening :| opening in log && OpensVoting(opening, p) && opening.blockNumber == s.value;
    forall e | e in later ensures !Eligible(e, p, s) {
      assert opening.blockNumber < e.blockNumber;
    }
  }

  /** With the start remark known, every remark keeps its verdict, whatever ring block it names. */
  lemma VerdictFinal(log: set<Remark>, later: set<Remark>, o: TallyOpts, r: Remark)
    requires AllLater(log, later) && VotingStart(log, o.proposal).Some?
    ensures Judge(log + later, o, r) == Judge(log, o, r)
  {
    FrozenRingIsFinal(log, later, o.proposal, 0);
    AnnouncedFinal(log, later, o.proposal);
    var v := ParseVote(o.parse, r.text);
    if v.Some? {
      FrozenRingIsFinal(log, later, o.proposal, v.value.ringBlock);
    }
  }

  /** The one way a verdict may move: from "no start remark yet" to "before the start". */
  predicate SameOrLatelyStarted(was: InvalidEntry, now: InvalidEntry) {
    now == was || (was.reason == NoStartRemark && now == was.(reason := PreStartVote))
  }

  lemma VerdictBeforeStart(log: set<Remark>, later: set<Remark>, o: TallyOpts, r: Remark)
    requires AllLater(log, later) && VotingStart(log, o.proposal).None? && r in log
    ensures var was, now := Judge(log, o, r), Judge(log + later, o, r);
            || (was.Irrelevant? && now.Irrelevant?)
            || (was.Rejected? && now.Rejected? && was.entry.reason == NoStartRemark &&
                SameOrLatelyStarted(was.entry, now.entry))
  {
    var p := o.proposal;
    VotingStartIs(log, p, None);
    var t := VotingStart(log + later, p);
    VotingStartIs(log + later, p, t);
    if t.Some? {
      var opening :| opening in log + later && OpensVoting(opening, p) && opening.blockNumber == t.value;
      assert r.blockNumber < opening.blockNumber;
    }
  }

  /** No rejected remark is ever accepted later, and no accepted one is lost. */
  lemma VerdictsOnlyMature(log: set<Remark>, later: set<Remark>, o: TallyOpts, r: Remark)
    requires AllLater(log, later) && r in log
    ensures Judge(log, o, r).Rejected? <==> Judge(log + later, o, r).Rejected?
    ensures Judge(log, o, r).Rejected? ==>
              SameOrLatelyStarted(Judge(log, o, r).entry, Judge(log + later, o, r).entry)
    ensures !Judge(log, o, r).Rejected? ==> Judge(log + later, o, r) == Judge(log, o, r)
  {
    if VotingStart(log, o.proposal).Some? {
      VerdictFinal(log, later, o, r);
    } else {
      VerdictBeforeStart(log, later, o, r);
    }
  }

  ghost predicate Matured(was: seq<InvalidEntry>, now: seq<InvalidEntry>) {
    && |was| == |now|
    && forall i :: 0 <= i < |was| ==> SameOrLatelyStarted(was[i], now[i])
  }

  lemma ListsMature(log: set<Remark>, later: set<Remark>, o: TallyOpts, rs: seq<Remark>)
    requires AllLater(log, later)
    requires forall r :: r in rs ==> r in log
    ensures Ballots(log + later, o, rs) == Ballots(log, o, rs)
    ensures ClearBallots(log + later, o, rs) == ClearBallots(log, o, rs)
    ensures Matured(Rejections(log, o, rs), Rejections(log + later, o, rs))
  {
    var was, now := Verdicts(log, o, rs), Verdicts(log + later, o, rs);
    forall i | 0 <= i < |rs| ensures VerdictMatured(was[i], now[i]) {
      VerdictsOnlyMature(log, later, o, rs[i]);
    }
    VerdictListsMature(was, now);
  }

  predicate VerdictMatured(was: Verdict, now: Verdict) {
    if was.Rejected? then now.Rejected? && SameOrLatelyStarted(was.entry, now.entry) else now == was
  }

  lemma {:induction false} VerdictListsMature(was: seq<Verdict>, now: seq<Verdict>)
    requires |was| == |now| && forall i :: 0 <= i < |was| ==> VerdictMatured(was[i], now[i])
    ensures Collect(was, PickBallot) == Collect(now, PickBallot) && Collect(was, PickClear) == Collect(now, PickClear)
    ensures Matured(Collect(was, PickRejection), Collect(now, PickRejection))
  {
    if was != [] {
      var n := |was| - 1;
      VerdictListsMature(was[..n], now[..n]);
      assert VerdictMatured(was[n], now[n]);
    }
  }

  /** Appending blocks never undoes a count: the accepted votes and clear votes of a log are prefixes of
      those of any extension by later blocks, and so are its rejections, up to the late start. */
  lemma AppendOnlyFinality(remarks: seq<Remark>, later: seq<Remark>, o: TallyOpts)
    requires StrictlyLater(remarks, later)
    ensures var was, now := TallyOf(remarks, o), TallyOf(remarks + later, o);
            && was.votes <= now.votes
            && was.clearVotes <= now.clearVotes
            && |was.invalidReasons| <= |now.invalidReasons|
            && Matured(was.invalidReasons, now.invalidReasons[..|was.invalidReasons|])
            && (was.votingStart.Some? ==> now.votingStart == was.votingStart)
  {
    var log, ext := Seen(remarks), Seen(later);
    var all := Seen(remarks + later);
    assert all == log + ext;
    var xs, ys := SortByBlock(remarks), SortByBlock(later);
    SortExtension(remarks, later);
    SortIsStable(remarks);
    assert forall r :: r in xs ==> r in Seen(xs);
    BallotsAppend(all, o, xs, ys);
    ListsMature(log, ext, o, xs);
    FirstPerPrefix(Ballots(all, o, xs), Ballots(all, o, ys), KeyImageOf);
    FirstPerPrefix(ClearBallots(all, o, xs), ClearBallots(all, o, ys), VoterOf);
    var e := Rejections(all, o, xs);
    assert (e + Rejections(all, o, ys))[..|e|] == e;
    if VotingStart(log, o.proposal).Some? {
      FrozenRingIsFinal(log, ext, o.proposal, 0);
    }
  }

  // ----- The deadline -----

  lemma NoBallotAfterEnd(log: set<Remark>, o: TallyOpts, r: Remark)
    requires o.endBlock.Some? && r.blockNumber >= o.endBlock.value
    ensures !Judge(log, o, r).Ballot? && !Judge(log, o, r).ClearBallot?
  {}

  /** At or after the end block nothing is a ballot. */
  lemma {:induction false} NoBallotsAfterEnd(log: set<Remark>, o: TallyOpts, rs: seq<Remark>)
    requires o.endBlock.Some? && forall r :: r in rs ==> r.blockNumber >= o.endBlock.value
    ensures Ballots(log, o, rs) == [] && ClearBallots(log, o, rs) == []
  {
    if rs != [] {
      var n := |rs| - 1;
      NoBallotsAfterEnd(log, o, rs[..n]);
      NoBallotAfterEnd(log, o, rs[n]);
      VerdictStep(log, o, rs[..n], rs[n]);
      assert rs == rs[..n] + [rs[n]];
    }
  }

  /** Everything of a result but its start block and its rejections. */
  ghost predicate SameCount(was: TallyResult, now: TallyResult) {
    && now.votes == was.votes && now.clearVotes == was.clearVotes
    && now.tally == was.tally.(invalid := now.tally.invalid)
  }

  lemma DeadlineLists(remarks: seq<Remark>, later: seq<Remark>, o: TallyOpts)
    requires StrictlyLater(remarks, later)
    requires o.endBlock.Some? && forall r :: r in later ==> r.blockNumber >= o.endBlock.value
    ensures Ballots(Seen(remarks + later), o, SortByBlock(remarks + later)) ==
            Ballots(Seen(remarks), o, SortByBlock(remarks))
    ensures ClearBallots(Seen(remarks + later), o, SortByBlock(remarks + later)) ==
            ClearBallots(Seen(remarks), o, SortByBlock(remarks))
  {
    var log, ext := Seen(remarks), Seen(later);
    assert Seen(remarks + later) == log + ext;
    var xs, ys := SortByBlock(remarks), SortByBlock(later);
    SortExtension(remarks, later);
    SortIsStable(remarks);
    SortIsStable(later);
    assert forall r :: r in xs ==> r in Seen(xs);
    assert forall r :: r in ys ==> r in Seen(ys);
    BallotsAppend(log + ext, o, xs, ys);
    ListsMature(log, ext, o, xs);
    NoBallotsAfterEnd(log + ext, o, ys);
  }

  lemma SameListsSameCount(votes: seq<AcceptedVote>, clears: seq<AcceptedClear>, start: Option<nat>, start': Option<nat>,
                           invalid: seq<InvalidEntry>, invalid': seq<InvalidEntry>)
    ensures SameCount(Assemble(votes, clears, start, invalid), Assemble(votes, clears, start', invalid'))
  {}

  lemma DeadlineExtension(remarks: seq<Remark>, later: seq<Remark>, o: TallyOpts)
    requires StrictlyLater(remarks, later)
    requires o.endBlock.Some? && forall r :: r in later ==> r.blockNumber >= o.endBlock.value
    ensures SameCount(TallyOf(remarks, o), TallyOf(remarks + later, o))
  {
    DeadlineLists(remarks, later, o);
    var was, now := TallyOf(remarks, o), TallyOf(remarks + later, o);
    SameListsSameCount(was.votes, was.clearVotes, was.votingStart, now.votingStart, was.invalidReasons, now.invalidReasons);
  }

  /** The count is final at the deadline: two logs that hold the same remarks in every block before the end block
      have the same votes, clear votes and totals, whatever else they hold, even announces and start remarks. */
  lemma DeadlineFinal(xs: seq<Remark>, ys: seq<Remark>, o: TallyOpts)
    requires o.endBlock.Some?
    requires forall b: nat :: b < o.endBlock.value ==> AtBlock(xs, b) == AtBlock(ys, b)
    ensures SameCount(TallyOf(xs, o), TallyOf(ys, o))
  {
    CountedBeforeEnd(xs, o);
    CountedBeforeEnd(ys, o);
    forall b: nat ensures AtBlock(Below(xs, o.endBlock.value), b) == AtBlock(Below(ys, o.endBlock.value), b) {
      BelowBlocks(xs, o.endBlock.value, b);
      BelowBlocks(ys, o.endBlock.value, b);
    }
    TallyOrderFree(Below(xs, o.endBlock.value), Below(ys, o.endBlock.value), o);
  }

  lemma CountedBeforeEnd(remarks: seq<Remark>, o: TallyOpts)
    requires o.endBlock.Some?
    ensures SameCount(TallyOf(Below(remarks, o.endBlock.value), o), TallyOf(remarks, o))
  {
    var before, after := Below(remarks, o.endBlock.value), AtOrAbove(remarks, o.endBlock.value);
    SplitAtBlock(remarks, o.endBlock.value);
    TallyOrderFree(before + after, remarks, o);
    AtOrAboveMembers(remarks, o.endBlock.value);
    DeadlineExtension(before, after, o);
  }
}
