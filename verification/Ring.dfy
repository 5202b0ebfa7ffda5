/** The canonical ring: who is in it, in which order, and when it stops changing
    (packages/shared/src/index.ts). */
module Ring {
  import opened Text
  import opened Wire
  import opened Log

  datatype Proposal = Proposal(id: string, coordinator: string, allowed: Option<set<string>>)

  // ----- The block that opened voting -----

  predicate OpensVoting(r: Remark, p: Proposal) {
    r.signer == p.coordinator && ParseStart(r.text) == Some(p.id)
  }

  /** Exactly which remarks open the voting. */
  lemma OpensVotingIff(r: Remark, p: Proposal)
    ensures OpensVoting(r, p) <==>
            r.signer == p.coordinator && r.text == "anon-vote-v2:start:" + p.id && p.id != "" && ':' !in p.id
  {
    StartTexts(r.text, p.id);
  }

  function StartBlocks(log: set<Remark>, p: Proposal): set<nat> {
    set r | r in log && OpensVoting(r, p) :: r.blockNumber
  }

  ghost predicate IsLeast(s: set<nat>, m: nat) { m in s && forall x :: x in s ==> m <= x }

  lemma {:induction false} LeastExists(s: set<nat>) returns (m: nat)
    requires s != {}
    ensures IsLeast(s, m)
  {
    m :| m in s;
    if s != {m} {
      var l := LeastExists(s - {m});
      assert forall y :: y in s ==> y == m || y in s - {m};
      if l < m { m := l; }
    }
  }

  ghost function Least(s: set<nat>): (m: nat)
    requires s != {}
    ensures m in s && forall x :: x in s ==> m <= x
  {
    assert exists m :: IsLeast(s, m) by { var m := LeastExists(s); }
    var m :| IsLeast(s, m);
    m
  }

  /** The earliest start remark of the coordinator, if there is one. */
  ghost function VotingStart(log: set<Remark>, p: Proposal): Option<nat> {
    if StartBlocks(log, p) == {} then None else Some(Least(StartBlocks(log, p)))
  }

  lemma VotingStartIs(log: set<Remark>, p: Proposal, start: Option<nat>)
    ensures start == VotingStart(log, p) <==>
            match start
            case None => forall r :: r in log ==> !OpensVoting(r, p)
            case Some(b) =>
              && (exists r :: r in log && OpensVoting(r, p) && r.blockNumber == b)
              && (forall r :: r in log && OpensVoting(r, p) ==> b <= r.blockNumber)
  {
    forall r | r in log && OpensVoting(r, p) ensures r.blockNumber in StartBlocks(log, p) {}
    if start.Some? && StartBlocks(log, p) != {} {
      var m := Least(StartBlocks(log, p));
      var r :| r in log && OpensVoting(r, p) && r.blockNumber == m;
    }
  }

  method FindVotingStartBlock(remarks: seq<Remark>, p: Proposal) returns (earliest: Option<nat>)
    ensures earliest == VotingStart(Seen(remarks), p)
  {
    earliest := None;
    for i := 0 to |remarks|
      invariant earliest == VotingStart(Seen(remarks[..i]), p)
    {
      var r := remarks[i];
      ghost var before := earliest;
      VotingStartIs(Seen(remarks[..i]), p, before);
      assert remarks[..i + 1] == remarks[..i] + [r];
      assert Seen(remarks[..i + 1]) == Seen(remarks[..i]) + {r};
      if r.signer == p.coordinator {
        var parsed := ParseStart(r.text);
        if parsed.Some? && parsed.value == p.id {
          if earliest.None? || r.blockNumber < earliest.value {
            earliest := Some(r.blockNumber);
          }
        }
      }
      VotingStartIs(Seen(remarks[..i + 1]), p, earliest);
    }
    assert remarks[..|remarks|] == remarks;
  }

  // ----- Eligible announces and the latest one of each voter -----

  predicate Eligible(r: Remark, p: Proposal, start: Option<nat>) {
    && ParseAnnounce(r.text).Some?
    && ParseAnnounce(r.text).value.proposalId == p.id
    && (p.allowed.Some? ==> r.signer in p.allowed.value)
    && (start.Some? ==> r.blockNumber < start.value)
  }

  datatype Rank = Rank(blockNumber: nat, vkPub: string)

  function RankOf(r: Remark): Rank
    requires ParseAnnounce(r.text).Some?
  {
    Rank(r.blockNumber, ParseAnnounce(r.text).value.vkPub)
  }

  /** Later block first; within one block the larger key. */
  predicate Outranks(a: Rank, b: Rank) {
    a.blockNumber > b.blockNumber || (a.blockNumber == b.blockNumber && Less(b.vkPub, a.vkPub))
  }

  lemma RankTotal(a: Rank, b: Rank)
    ensures a == b || Outranks(a, b) || Outranks(b, a)
    ensures !(Outranks(a, b) && Outranks(b, a)) && !Outranks(a, a)
  {
    LessTotal(a.vkPub, b.vkPub);
  }

  lemma RankTransitive(a: Rank, b: Rank, c: Rank)
    requires Outranks(a, b) && !Outranks(c, b)
    ensures Outranks(a, c)
  {
    LessTotal(b.vkPub, c.vkPub);
    if a.blockNumber == b.blockNumber == c.blockNumber && b.vkPub != c.vkPub {
      LessTransitive(c.vkPub, b.vkPub, a.vkPub);
    }
  }

  /** The announce that counts for its signer: nothing eligible of the same signer outranks it. */
  predicate Winner(log: set<Remark>, p: Proposal, start: Option<nat>, r: Remark) {
    && r in log && Eligible(r, p, start)
    && forall q :: q in log && q.signer == r.signer && Eligible(q, p, start) ==> !Outranks(RankOf(q), RankOf(r))
  }

  // ----- The same, spelled out -----

  /** The text announces `key` for the proposal, in any letter case. */
  ghost predicate Announces(r: Remark, p: Proposal, key: string) {
    exists hex :: && r.text == "anon-vote-v2:announce:" + p.id + ":" + hex && p.id != "" && ':' !in p.id
                  && IsHex32(hex) && key == ToLower(hex)
  }

  /** The signer may announce, and does so before the start. */
  ghost predicate OnTime(r: Remark, p: Proposal, start: Option<nat>) {
    (p.allowed.Some? ==> r.signer in p.allowed.value) && (start.Some? ==> r.blockNumber < start.value)
  }

  lemma EligibleIff(r: Remark, p: Proposal, start: Option<nat>, key: string)
    ensures Eligible(r, p, start) && RankOf(r).vkPub == key <==> Announces(r, p, key) && OnTime(r, p, start)
  {
    AnnounceTexts(r.text, Announce(p.id, key));
  }

  /** `q` announcing `l` does not come after `r` announcing `k`: later blocks come later, and in one block the
      keys in dictionary order. */
  ghost predicate NotAfter(q: Remark, l: string, r: Remark, k: string) {
    q.blockNumber < r.blockNumber || (q.blockNumber == r.blockNumber && (l == k || LexBefore(l, k)))
  }

  /** `k` is the last key that some voter announced on time. */
  ghost predicate LastKeyOf(log: set<Remark>, p: Proposal, start: Option<nat>, r: Remark, k: string) {
    && r in log && Announces(r, p, k) && OnTime(r, p, start)
    && forall q, l :: q in log && q.signer == r.signer && Announces(q, p, l) && OnTime(q, p, start) ==> NotAfter(q, l, r, k)
  }

  lemma NotAfterIff(q: Remark, l: string, r: Remark, k: string)
    ensures NotAfter(q, l, r, k) <==> !Outranks(Rank(q.blockNumber, l), Rank(r.blockNumber, k))
  {
    LessIff(l, k);
    LessIff(k, l);
    LessTotal(l, k);
  }

  lemma WinnerIff(log: set<Remark>, p: Proposal, start: Option<nat>, r: Remark, k: string)
    ensures Winner(log, p, start, r) && RankOf(r).vkPub == k <==> LastKeyOf(log, p, start, r, k)
  {
    EligibleIff(r, p, start, k);
    if Winner(log, p, start, r) && RankOf(r).vkPub == k {
      forall q, l | q in log && q.signer == r.signer && Announces(q, p, l) && OnTime(q, p, start)
        ensures NotAfter(q, l, r, k)
      {
        EligibleIff(q, p, start, l);
        NotAfterIff(q, l, r, k);
      }
    }
    if LastKeyOf(log, p, start, r, k) {
      forall q | q in log && q.signer == r.signer && Eligible(q, p, start) ensures !Outranks(RankOf(q), RankOf(r)) {
        EligibleIff(q, p, start, RankOf(q).vkPub);
        NotAfterIff(q, RankOf(q).vkPub, r, k);
      }
    }
  }

  /** The keys in the ring, whatever order the log is read in. */
  ghost function RingKeys(log: set<Remark>, p: Proposal, start: Option<nat>): set<string> {
    set r | r in log && Winner(log, p, start, r) :: RankOf(r).vkPub
  }

  lemma WinnersAgree(log: set<Remark>, p: Proposal, start: Option<nat>, r: Remark, q: Remark)
    requires Winner(log, p, start, r) && Winner(log, p, start, q) && r.signer == q.signer
    ensures RankOf(r) == RankOf(q)
  {
    RankTotal(RankOf(r), RankOf(q));
  }

  // ----- Strictly ascending key lists -----

  ghost predicate StrictlyAscending(ks: seq<string>) {
    forall i, j :: 0 <= i < j < |ks| ==> Less(ks[i], ks[j])
  }

  function KeySet(ks: seq<string>): set<string> { set k | k in ks }

  lemma {:induction false} AscendingUnique(xs: seq<string>, ys: seq<string>)
    requires StrictlyAscending(xs) && StrictlyAscending(ys) && KeySet(xs) == KeySet(ys)
    ensures xs == ys
  {
    assert xs != [] ==> xs[0] in KeySet(xs) && xs[0] in ys;
    assert ys != [] ==> ys[0] in KeySet(ys) && ys[0] in xs;
    if xs != [] && ys != [] {
      LessTotal(xs[0], ys[0]);
      assert xs[0] == ys[0];
      forall k ensures k in KeySet(xs[1..]) <==> k in KeySet(ys[1..]) {
        assert k in KeySet(xs) <==> k in KeySet(ys);
        LessTotal(k, k);
        assert xs == [xs[0]] + xs[1..] && ys == [ys[0]] + ys[1..];
      }
      AscendingUnique(xs[1..], ys[1..]);
      assert xs == [xs[0]] + xs[1..] && ys == [ys[0]] + ys[1..];
    }
  }

  function InsertKey(k: string, ks: seq<string>): (out: seq<string>)
    ensures KeySet(out) == KeySet(ks) + {k}
    ensures StrictlyAscending(ks) && k !in ks ==> StrictlyAscending(out)
  {
    if ks == [] || Less(k, ks[0]) then
      assert forall j :: 0 < j < |ks| && StrictlyAscending(ks) && Less(k, ks[0]) ==> Less(k, ks[j]) by {
        forall j | 0 < j < |ks| && StrictlyAscending(ks) && Less(k, ks[0]) ensures Less(k, ks[j]) {
          LessTransitive(k, ks[0], ks[j]);
        }
      }
      [k] + ks
    else
      var rest := InsertKey(k, ks[1..]);
      assert ks == [ks[0]] + ks[1..];
      assert KeySet([ks[0]] + rest) == {ks[0]} + KeySet(rest);
      assert StrictlyAscending(ks) && k !in ks ==> StrictlyAscending([ks[0]] + rest) by {
        LessTotal(k, ks[0]);
        forall j | 0 <= j < |rest| && StrictlyAscending(ks) && k !in ks ensures Less(ks[0], rest[j]) {
          assert rest[j] in KeySet(rest);
        }
      }
      [ks[0]] + rest
  }

  /** `ring.sort()` on keys that are all different. */
  function SortKeys(ks: seq<string>): (out: seq<string>)
    ensures KeySet(out) == KeySet(ks)
    ensures (forall i, j :: 0 <= i < j < |ks| ==> ks[i] != ks[j]) ==> StrictlyAscending(out)
  {
    if ks == [] then []
    else
      var rest := SortKeys(ks[1..]);
      assert ks == [ks[0]] + ks[1..];
      assert ks[0] in rest ==> ks[0] in KeySet(ks[1..]) by {
        if ks[0] in rest { assert ks[0] in KeySet(rest); }
      }
      InsertKey(ks[0], rest)
  }

  lemma {:induction false} AscendingExists(s: set<string>)
    ensures exists ks :: StrictlyAscending(ks) && KeySet(ks) == s
  {
    if s == {} {
      assert StrictlyAscending([]) && KeySet([]) == s;
    } else {
      var k :| k in s;
      AscendingExists(s - {k});
      var ks :| StrictlyAscending(ks) && KeySet(ks) == s - {k};
      assert forall x :: x in ks <==> x in KeySet(ks);
      var out := InsertKey(k, ks);
      assert StrictlyAscending(out) && KeySet(out) == s;
    }
  }

  /** A set of keys as the one strictly ascending list of them. */
  ghost function Ascending(s: set<string>): (ks: seq<string>)
    ensures StrictlyAscending(ks) && KeySet(ks) == s
  {
    AscendingExists(s);
    var ks :| StrictlyAscending(ks) && KeySet(ks) == s;
    ks
  }

  lemma {:induction false} AscendingLength(ks: seq<string>)
    requires StrictlyAscending(ks)
    ensures |ks| == |KeySet(ks)|
  {
    if ks != [] {
      AscendingLength(ks[1..]);
      assert ks == [ks[0]] + ks[1..];
      assert ks[0] !in ks[1..] by { LessTotal(ks[0], ks[0]); }
      assert KeySet(ks) == {ks[0]} + KeySet(ks[1..]);
    }
  }

  // ----- Ring reconstruction -----

  ghost predicate InDictionaryOrder(ks: seq<string>) {
    forall i, j :: 0 <= i < j < |ks| ==> LexBefore(ks[i], ks[j])
  }

  /** The ring, spelled out: in dictionary order, the last key that each voter announced on time. */
  ghost predicate IsRingOf(log: set<Remark>, p: Proposal, start: Option<nat>, ring: seq<string>) {
    && InDictionaryOrder(ring)
    && forall k :: k in ring <==> exists r :: LastKeyOf(log, p, start, r, k)
  }

  lemma RingSpelledOut(log: set<Remark>, p: Proposal, start: Option<nat>)
    ensures IsRingOf(log, p, start, Ascending(RingKeys(log, p, start)))
  {
    var ring := Ascending(RingKeys(log, p, start));
    forall i, j | 0 <= i < j < |ring| ensures LexBefore(ring[i], ring[j]) {
      LessIff(ring[i], ring[j]);
    }
    forall k ensures k in ring <==> exists r :: LastKeyOf(log, p, start, r, k) {
      assert k in ring <==> k in KeySet(ring);
      forall r ensures Winner(log, p, start, r) && RankOf(r).vkPub == k <==> LastKeyOf(log, p, start, r, k) {
        WinnerIff(log, p, start, r, k);
      }
    }
  }

  /** `latest` holds, for each signer with an eligible announce, the best rank among them. */
  ghost predicate LatestPerVoter(log: set<Remark>, p: Proposal, start: Option<nat>, latest: map<string, Rank>) {
    && (forall r :: r in log && Eligible(r, p, start) ==>
          r.signer in latest && !Outranks(RankOf(r), latest[r.signer]))
    && (forall s :: s in latest ==>
          exists r :: r in log && Eligible(r, p, start) && r.signer == s && RankOf(r) == latest[s])
  }

  /** `r` takes its signer's place in `latest`. */
  predicate Replaces(p: Proposal, start: Option<nat>, latest: map<string, Rank>, r: Remark) {
    Eligible(r, p, start) && (r.signer !in latest || Outranks(RankOf(r), latest[r.signer]))
  }

  lemma LatestKept(log: set<Remark>, p: Proposal, start: Option<nat>, latest: map<string, Rank>, r: Remark)
    requires LatestPerVoter(log, p, start, latest) && !Replaces(p, start, latest, r)
    ensures LatestPerVoter(log + {r}, p, start, latest)
  {
    forall s | s in latest
      ensures exists q :: q in log + {r} && Eligible(q, p, start) && q.signer == s && RankOf(q) == latest[s]
    {
      var q :| q in log && Eligible(q, p, start) && q.signer == s && RankOf(q) == latest[s];
      assert q in log + {r};
    }
  }

  lemma NoneOutranksNew(log: set<Remark>, p: Proposal, start: Option<nat>, latest: map<string, Rank>, r: Remark, q: Remark)
    requires LatestPerVoter(log, p, start, latest) && Replaces(p, start, latest, r)
    requires q in log + {r} && Eligible(q, p, start) && q.signer == r.signer
    ensures !Outranks(RankOf(q), RankOf(r))
  {
    RankTotal(RankOf(q), RankOf(r));
    if q != r && Outranks(RankOf(q), RankOf(r)) {
      RankTransitive(RankOf(r), latest[r.signer], RankOf(q));
    }
  }

  lemma LatestReplaced(log: set<Remark>, p: Proposal, start: Option<nat>, latest: map<string, Rank>, r: Remark)
    requires LatestPerVoter(log, p, start, latest) && Replaces(p, start, latest, r)
    ensures LatestPerVoter(log + {r}, p, start, latest[r.signer := RankOf(r)])
  {
    var updated := latest[r.signer := RankOf(r)];
    forall q | q in log + {r} && Eligible(q, p, start)
      ensures q.signer in updated && !Outranks(RankOf(q), updated[q.signer])
    {
      if q.signer == r.signer {
        NoneOutranksNew(log, p, start, latest, r, q);
      }
    }
    forall s | s in updated
      ensures exists q :: q in log + {r} && Eligible(q, p, start) && q.signer == s && RankOf(q) == updated[s]
    {
      if s == r.signer {
        assert r in log + {r};
      } else {
        var q :| q in log && Eligible(q, p, start) && q.signer == s && RankOf(q) == latest[s];
        assert q in log + {r};
      }
    }
  }

  lemma LatestKeys(log: set<Remark>, p: Proposal, start: Option<nat>, latest: map<string, Rank>)
    requires LatestPerVoter(log, p, start, latest)
    ensures RingKeys(log, p, start) == set s | s in latest :: latest[s].vkPub
  {
    forall s | s in latest
      ensures exists r :: Winner(log, p, start, r) && r.signer == s && RankOf(r) == latest[s]
    {
      var r :| r in log && Eligible(r, p, start) && r.signer == s && RankOf(r) == latest[s];
      assert Winner(log, p, start, r);
    }
    forall r | r in log && Winner(log, p, start, r) ensures latest[r.signer] == RankOf(r) {
      var q :| Winner(log, p, start, q) && q.signer == r.signer && RankOf(q) == latest[r.signer];
      WinnersAgree(log, p, start, q, r);
    }
  }

  /** The first loop: the latest eligible announce of each voter. */
  method LatestAnnounces(remarks: seq<Remark>, p: Proposal, start: Option<nat>) returns (latest: map<string, Rank>)
    ensures LatestPerVoter(Seen(remarks), p, start, latest)
  {
    latest := map[];
    for i := 0 to |remarks|
      invariant LatestPerVoter(Seen(remarks[..i]), p, start, latest)
    {
      var r := remarks[i];
      assert Seen(remarks[..i + 1]) == Seen(remarks[..i]) + {r};
      if Replaces(p, start, latest, r) {
        LatestReplaced(Seen(remarks[..i]), p, start, latest, r);
      } else {
        LatestKept(Seen(remarks[..i]), p, start, latest, r);
      }
      var parsed := ParseAnnounce(r.text);
      if parsed.None? { continue; }
      if parsed.value.proposalId != p.id { continue; }
      if p.allowed.Some? && r.signer !in p.allowed.value { continue; }
      if start.Some? && r.blockNumber >= start.value { continue; }
      if r.signer !in latest
         || r.blockNumber > latest[r.signer].blockNumber
         || (r.blockNumber == latest[r.signer].blockNumber && Less(latest[r.signer].vkPub, parsed.value.vkPub))
      {
        latest := latest[r.signer := Rank(r.blockNumber, parsed.value.vkPub)];
      }
    }
    assert remarks[..|remarks|] == remarks;
  }

  /** The second loop: each key once, sorted. */
  method DistinctKeys(latest: map<string, Rank>) returns (ring: seq<string>)
    ensures StrictlyAscending(ring)
    ensures KeySet(ring) == set s | s in latest :: latest[s].vkPub
  {
    var seenPub: set<string> := {};
    ring := [];
    var left := latest.Keys;
    while left != {}
      invariant left <= latest.Keys
      invariant seenPub == (set s | s in latest && s !in left :: latest[s].vkPub)
      invariant KeySet(ring) == seenPub
      invariant forall i, j :: 0 <= i < j < |ring| ==> ring[i] != ring[j]
      decreases left
    {
      var s :| s in left;
      var vkPub := latest[s].vkPub;
      assert forall k :: k in ring <==> k in KeySet(ring);
      if vkPub !in seenPub {
        assert KeySet(ring + [vkPub]) == KeySet(ring) + {vkPub};
        seenPub := seenPub + {vkPub};
        ring := ring + [vkPub];
      }
      left := left - {s};
    }
    ring := SortKeys(ring);
  }

  method ReconstructRing(remarks: seq<Remark>, p: Proposal, start: Option<nat>) returns (ring: seq<string>)
    ensures ring == Ascending(RingKeys(Seen(remarks), p, start))
    ensures IsRingOf(Seen(remarks), p, start, ring)
  {
    var latest := LatestAnnounces(remarks, p, start);
    ring := DistinctKeys(latest);
    RingSpelledOut(Seen(remarks), p, start);
    LatestKeys(Seen(remarks), p, start, latest);
    AscendingUnique(ring, Ascending(RingKeys(Seen(remarks), p, start)));
  }

  // ----- The ring as of a block -----

  function UpTo(rs: seq<Remark>, b: nat): (out: seq<Remark>)
    ensures forall r :: r in out <==> r in rs && r.blockNumber <= b
  {
    if rs == [] then []
    else
      assert rs == [rs[0]] + rs[1..];
      (if rs[0].blockNumber <= b then [rs[0]] else []) + UpTo(rs[1..], b)
  }

  function Window(log: set<Remark>, b: nat): set<Remark> { set r | r in log && r.blockNumber <= b }

  ghost function RingAt(log: set<Remark>, p: Proposal, b: nat, start: Option<nat>): seq<string> {
    Ascending(RingKeys(Window(log, b), p, start))
  }

  method ComputeRingAt(remarks: seq<Remark>, p: Proposal, atBlock: nat, start: Option<nat>) returns (ring: seq<string>)
    ensures ring == RingAt(Seen(remarks), p, atBlock, start)
    ensures IsRingOf((set r | r in remarks && r.blockNumber <= atBlock), p, start, ring)
  {
    var inWindow := UpTo(remarks, atBlock);
    ring := ReconstructRing(inWindow, p, start);
    assert Seen(inWindow) == Window(Seen(remarks), atBlock);
    assert Seen(inWindow) == set r | r in remarks && r.blockNumber <= atBlock;
  }

  /** The ring every observer derives from a log: signer, faucet, auditor. */
  ghost function CanonicalRing(log: set<Remark>, p: Proposal, b: nat): seq<string> {
    RingAt(log, p, b, VotingStart(log, p))
  }

  lemma CanonicalRingIs(log: set<Remark>, p: Proposal, b: nat)
    ensures IsRingOf((set r | r in log && r.blockNumber <= b), p, VotingStart(log, p), CanonicalRing(log, p, b))
  {
    RingSpelledOut(Window(log, b), p, VotingStart(log, p));
    assert Window(log, b) == set r | r in log && r.blockNumber <= b;
  }

  ghost predicate SameEligible(xs: set<Remark>, s: Option<nat>, ys: set<Remark>, t: Option<nat>, p: Proposal) {
    forall r :: r in xs && Eligible(r, p, s) <==> r in ys && Eligible(r, p, t)
  }

  lemma SameEligibleSameKeys(xs: set<Remark>, s: Option<nat>, ys: set<Remark>, t: Option<nat>, p: Proposal)
    requires SameEligible(xs, s, ys, t, p)
    ensures RingKeys(xs, p, s) == RingKeys(ys, p, t)
  {
    forall r: Remark ensures Winner(xs, p, s, r) <==> Winner(ys, p, t, r) {
      assert r in xs && Eligible(r, p, s) <==> r in ys && Eligible(r, p, t);
    }
  }

  /** The two logs hold the same remarks up to block `h`. */
  ghost predicate AgreeThrough(xs: set<Remark>, ys: set<Remark>, h: nat) {
    forall r: Remark :: r.blockNumber <= h ==> (r in xs <==> r in ys)
  }

  lemma StartsAgree(xs: set<Remark>, ys: set<Remark>, p: Proposal, h: nat)
    requires AgreeThrough(xs, ys, h)
    ensures var s, t := VotingStart(xs, p), VotingStart(ys, p);
            s == t || ((s.None? || s.value > h) && (t.None? || t.value > h))
  {
    var s, t := VotingStart(xs, p), VotingStart(ys, p);
    VotingStartIs(xs, p, s);
    VotingStartIs(ys, p, t);
    if s.Some? && s.value <= h {
      var r :| r in xs && OpensVoting(r, p) && r.blockNumber == s.value;
      assert r in ys;
    }
    if t.Some? && t.value <= h {
      var r :| r in ys && OpensVoting(r, p) && r.blockNumber == t.value;
      assert r in xs;
    }
  }

  /** A snapshot is final: logs that agree through `h` give the same ring at every block up to `h`,
      whether or not the start remark is in them. */
  lemma SnapshotStable(xs: set<Remark>, ys: set<Remark>, p: Proposal, h: nat, b: nat)
    requires AgreeThrough(xs, ys, h) && b <= h
    ensures CanonicalRing(xs, p, b) == CanonicalRing(ys, p, b)
  {
    StartsAgree(xs, ys, p, h);
    SameEligibleSameKeys(Window(xs, b), VotingStart(xs, p), Window(ys, b), VotingStart(ys, p), p);
  }

  /** Once voting has opened, later rings are all the ring at the block before the start. */
  lemma RingFreezes(log: set<Remark>, p: Proposal, b: nat)
    requires VotingStart(log, p).Some? && b + 1 >= VotingStart(log, p).value
    ensures CanonicalRing(log, p, b) == Ascending(RingKeys(log, p, VotingStart(log, p)))
  {
    var s := VotingStart(log, p);
    SameEligibleSameKeys(Window(log, b), s, log, s, p);
  }

  /** And no later remark can change them, even at ring blocks nobody has scanned yet. */
  lemma FrozenRingIsFinal(log: set<Remark>, later: set<Remark>, p: Proposal, b: nat)
    requires forall r, e :: r in log && e in later ==> r.blockNumber < e.blockNumber
    requires VotingStart(log, p).Some?
    ensures VotingStart(log + later, p) == VotingStart(log, p)
    ensures CanonicalRing(log + later, p, b) == CanonicalRing(log, p, b)
  {
    var s := VotingStart(log, p);
    VotingStartIs(log, p, s);
    var opening :| opening in log && OpensVoting(opening, p) && opening.blockNumber == s.value;
    assert opening in log + later;
    forall e | e in later ensures s.value < e.blockNumber {
      assert opening.blockNumber < e.blockNumber;
    }
    VotingStartIs(log + later, p, s);
    SameEligibleSameKeys(Window(log + later, b), s, Window(log, b), s, p);
  }
}
