/** Which keys can vote with which rings, for the signature scheme itself (packages/shared/src/index.ts and
    packages/ring-sig/vendored/blsag/src/lib.rs). */
module VotingKeys {
  import opened Text
  import opened Wire
  import opened Log
  import opened Ring
  import opened Tally
  import opened DoubleVote
  import opened Group
  import opened Blsag
  import opened BlsagCompleteness
  import opened WasmBoundary

  /** A tally that verifies with this suite. */
  function Auditing<P>(s: Suite<P>, p: Proposal, endBlock: Option<nat>, parse: string -> Option<Json>): TallyOpts {
    TallyOpts(p, endBlock, parse, (sig, ring, m) => VerifyJs(s, sig, ring, m))
  }

  // ----- Keys with secrets -----

  function PointOf<P>(s: Suite<P>, x: nat): P { s.group.mul(x, s.group.base) }

  /** The key and the key image of a secret, as they are written. */
  function HexKey<P>(s: Suite<P>, x: nat): string { HexEncode(s.compress(PointOf(s, x))) }
  function HexImage<P>(s: Suite<P>, x: nat): string { HexEncode(s.compress(ImageOf(s, x))) }

  predicate IsSecretOf<P>(s: Suite<P>, k: string, x: nat) { x < s.group.order && HexKey(s, x) == k }

  lemma HexInjective(a: seq<Byte>, b: seq<Byte>)
    requires HexEncode(a) == HexEncode(b)
    ensures a == b
  {
    HexRoundTrip(a);
    HexRoundTrip(b);
  }

  lemma SamePoint<P(!new)>(g: Group<P>, x: nat, y: nat)
    requires Lawful(g) && x < g.order && y < g.order && g.mul(x, g.base) == g.mul(y, g.base)
    ensures x == y
  {
    var ny: int := 0 - y;
    assert MulSum(g, x, ny, g.base) && MulSum(g, y, ny, g.base);
    assert x + ny == x - y && y + ny == 0;
    MulZeroScalar(g, g.base);
    NoTorsion(g, x - y, g.base);
    if x > y { ModIs(g.order, 0, x - y); }
    if y > x { ModIs(g.order, -1, x - y + g.order); }
  }

  /** A key has at most one secret. */
  lemma SecretUnique<P(!new)>(s: Suite<P>, k: string, x: nat, y: nat)
    requires LawfulSuite(s) && IsSecretOf(s, k, x) && IsSecretOf(s, k, y)
    ensures x == y
  {
    HexInjective(s.compress(PointOf(s, x)), s.compress(PointOf(s, y)));
    assert s.decompress(s.compress(PointOf(s, x))) == Some(PointOf(s, x));
    assert s.decompress(s.compress(PointOf(s, y))) == Some(PointOf(s, y));
    SamePoint(s.group, x, y);
  }

  /** The image that belongs to a key; empty for keys without a secret. */
  ghost function ImageFor<P>(s: Suite<P>, k: string): string {
    if exists x: nat :: IsSecretOf(s, k, x) then
      var x: nat :| IsSecretOf(s, k, x);
      HexImage(s, x)
    else ""
  }

  ghost function Images<P>(s: Suite<P>): string -> string { k => ImageFor(s, k) }

  lemma ImageForSecret<P(!new)>(s: Suite<P>, x: nat)
    requires LawfulSuite(s) && x < s.group.order
    ensures ImageFor(s, HexKey(s, x)) == HexImage(s, x)
  {
    var k := HexKey(s, x);
    assert IsSecretOf(s, k, x);
    var y: nat :| IsSecretOf(s, k, y) && ImageFor(s, k) == HexImage(s, y);
    SecretUnique(s, k, x, y);
  }

  // ----- Usable rings -----

  /** Every member encodes a point other than the identity. */
  ghost predicate AllPoints<P>(s: Suite<P>, ring: seq<string>) { forall i :: 0 <= i < |ring| ==> EncodesPoint(s, ring[i]) }

  ghost predicate Usable<P>(s: Suite<P>, ring: seq<string>) { |ring| >= 2 && AllPoints(s, ring) }

  /** Secret `x` can sign with its key: the key does not hash to the identity. */
  predicate Signs<P(==)>(s: Suite<P>, x: nat) { s.hashToPoint(PointOf(s, x)) != s.group.zero }

  /** `k` can sign over `ring`: the ring is usable, and `k` has a secret that can sign. */
  ghost predicate AbleWith<P>(s: Suite<P>, k: string, ring: seq<string>) {
    Usable(s, ring) && exists x: nat :: IsSecretOf(s, k, x) && Signs(s, x)
  }

  ghost function AbleFor<P>(s: Suite<P>): Able { (k, ring) => AbleWith(s, k, ring) }

  /** A signature that verifies shows its ring to be usable and its key image to be an image. */
  lemma ValidNeedsUsable<P(!new)>(s: Suite<P>, sig: RingSig, ring: seq<string>, messageHex: string)
    requires VerifyJs(s, sig, ring, messageHex) == Valid
    ensures Usable(s, ring) && EncodesPoint(s, sig.keyImage)
  {
    ThrowsIff(s, sig, ring, messageHex);
  }

  function NoRandom(n: nat): (rs: seq<nat>)
    ensures |rs| == n && forall i :: 0 <= i < n ==> rs[i] == 0
  {
    seq(n, i => 0)
  }

  lemma SecretText<P(!new)>(s: Suite<P>, x: nat)
    requires LawfulSuite(s) && x < s.group.order
    ensures DecodeHex32(HexEncode(ScalarBytes(x))) == Some(ScalarBytes(x)) && LeDecode(ScalarBytes(x)) == x
  {
    Hex32RoundTrip(ScalarBytes(x));
    ScalarRoundTrip(s, x);
  }

  lemma KeyText<P(!new)>(s: Suite<P>, x: nat)
    requires EncodingsCanonical(s)
    ensures DecodeHex32(HexKey(s, x)) == Some(s.compress(PointOf(s, x)))
  {
    Hex32RoundTrip(s.compress(PointOf(s, x)));
  }

  lemma KeyDecodes<P(!new)>(s: Suite<P>, x: nat, ring: seq<string>)
    requires EncodingsCanonical(s) && HexKey(s, x) in ring && Usable(s, ring)
    ensures DecodeAll(ring).Some? && s.compress(PointOf(s, x)) in DecodeAll(ring).value
    ensures forall i :: 0 <= i < |ring| ==> GoodMember(s, DecodeAll(ring).value[i])
  {
    KeyText(s, x);
    RingDecodesIff(s, ring);
    var i :| 0 <= i < |ring| && ring[i] == HexKey(s, x);
    assert DecodeAll(ring).value[i] == s.compress(PointOf(s, x));
  }

  /** Whoever holds the secret of a key in a usable ring can sign over it: on the inner side of the boundary. */
  lemma HolderSignsInside<P(!new)>(s: Suite<P>, x: nat, ring: seq<string>, message: seq<Byte>)
    requires LawfulSuite(s) && x < s.group.order && HexKey(s, x) in ring && Usable(s, ring)
    ensures LeDecode(ScalarBytes(x)) == x && DecodeAll(ring).Some?
    ensures var signed := SignSpec(s, ScalarBytes(x), DecodeAll(ring).value, message, 0, NoRandom(|ring|));
            signed.Ok? && signed.value.keyImage == AsBytes32(s.compress(ImageOf(s, x)))
  {
    SecretText(s, x);
    KeyDecodes(s, x, ring);
    SignSucceedsIff(s, ScalarBytes(x), DecodeAll(ring).value, message, 0, NoRandom(|ring|));
    SignedImage(s, ScalarBytes(x), DecodeAll(ring).value, message, 0, NoRandom(|ring|));
  }

  lemma SignsThrough<P>(s: Suite<P>, key: Bytes32, ring: seq<string>, messageHex: string, rs: seq<nat>)
    requires |rs| == |ring| && s.group.order > 0 && DecodeAll(ring).Some? && HexDecode(Trim(messageHex)).Some?
    requires SignSpec(s, key, DecodeAll(ring).value, HexDecode(Trim(messageHex)).value, 0, rs).Ok?
    ensures SignJs(s, HexEncode(key), ring, messageHex, 0, rs) ==
            Some(ToWire(SignSpec(s, key, DecodeAll(ring).value, HexDecode(Trim(messageHex)).value, 0, rs).value))
  {
    Hex32RoundTrip(key);
  }

  /** And on the outer side. */
  lemma HolderSigns<P(!new)>(s: Suite<P>, x: nat, ring: seq<string>, messageHex: string)
    requires LawfulSuite(s) && x < s.group.order && HexKey(s, x) in ring && Usable(s, ring)
    requires AllHex(Trim(messageHex)) && |Trim(messageHex)| % 2 == 0
    ensures SignJs(s, HexEncode(ScalarBytes(x)), ring, messageHex, 0, NoRandom(|ring|)).Some?
    ensures SignJs(s, HexEncode(ScalarBytes(x)), ring, messageHex, 0, NoRandom(|ring|)).value.keyImage == HexImage(s, x)
  {
    HolderSignsInside(s, x, ring, HexDecode(Trim(messageHex)).value);
    SignsThrough(s, ScalarBytes(x), ring, messageHex, NoRandom(|ring|));
  }

  lemma MessageIsHex(text: string)
    ensures AllHex(Trim(MessageHex(text))) && |Trim(MessageHex(text))| % 2 == 0
  {
    TrimHex(MessageHex(text));
  }

  lemma HolderVerifies<P(!new)>(s: Suite<P>, x: nat, ring: seq<string>, text: string) returns (sig: RingSig)
    requires LawfulSuite(s) && x < s.group.order && Signs(s, x) && HexKey(s, x) in ring && Usable(s, ring)
    ensures WellFormedSig(sig) && sig.keyImage == HexImage(s, x) && VerifyJs(s, sig, ring, MessageHex(text)) == Valid
  {
    MessageIsHex(text);
    HolderSigns(s, x, ring, MessageHex(text));
    SecretText(s, x);
    sig := SignJs(s, HexEncode(ScalarBytes(x)), ring, MessageHex(text), 0, NoRandom(|ring|)).value;
    SignedVerifies(s, HexEncode(ScalarBytes(x)), ring, MessageHex(text), 0, NoRandom(|ring|));
  }

  /** The scheme's own verifier: able keys can sign. */
  lemma SchemeCanSign<P(!new)>(s: Suite<P>, p: Proposal, endBlock: Option<nat>, parse: string -> Option<Json>)
    requires LawfulSuite(s)
    ensures CanSign(Auditing(s, p, endBlock, parse), Images(s), AbleFor(s))
  {
    var o, image, able := Auditing(s, p, endBlock, parse), Images(s), AbleFor(s);
    forall ring: seq<string>, k, text | k in ring && able(k, ring) ensures CanSignFor(o, image, ring, k, text) {
      var x: nat :| IsSecretOf(s, k, x) && Signs(s, x);
      var sig := HolderVerifies(s, x, ring, text);
      ImageForSecret(s, x);
      assert WellFormedSig(sig) && sig.keyImage == image(k) && o.verify(sig, ring, MessageHex(text)) == Valid;
    }
  }

  /** A key image that verifies belongs to a secret whose key does not hash to the identity. */
  lemma ImageShowsSecret<P(!new)>(s: Suite<P>, k: string, keyImage: string) returns (x: nat)
    requires LawfulSuite(s) && ImageFor(s, k) == keyImage && EncodesPoint(s, keyImage)
    ensures IsSecretOf(s, k, x) && Signs(s, x)
  {
    assert exists x: nat :: IsSecretOf(s, k, x);
    x :| IsSecretOf(s, k, x);
    ImageForSecret(s, x);
    Hex32RoundTrip(s.compress(ImageOf(s, x)));
    CompressedIdentityIff(s, ImageOf(s, x));
    MulIdentity(s.group, x);
  }

  /** And no other key's image verifies. */
  lemma SchemeOnlyAble<P(!new)>(s: Suite<P>, p: Proposal, endBlock: Option<nat>, parse: string -> Option<Json>)
    requires LawfulSuite(s)
    ensures OnlyAble(Auditing(s, p, endBlock, parse), Images(s), AbleFor(s))
  {
    var o, image, able := Auditing(s, p, endBlock, parse), Images(s), AbleFor(s);
    forall sig, ring, msg, k | o.verify(sig, ring, msg) == Valid && k in ring && image(k) == sig.keyImage
      ensures able(k, ring)
    {
      ValidNeedsUsable(s, sig, ring, msg);
      var x := ImageShowsSecret(s, k, sig.keyImage);
    }
  }

  // ----- When one voter counts twice -----

  /** The exact condition for two counted anonymous votes of one voter, and for a clear vote beside an
      anonymous one, for the scheme's own verifier. */
  lemma CountedTwiceIff<P(!new)>(s: Suite<P>, j: JsonCodec, p: Proposal, endBlock: Option<nat>, remarks: seq<Remark>,
                                 block: nat, voter: string)
    requires LawfulSuite(s)
    requires var o := Auditing(s, p, endBlock, j.parse);
             CanSend(Seen(remarks), o, j, block) && NoStrayImages(Seen(remarks), o, Images(s))
    ensures var o := Auditing(s, p, endBlock, j.parse);
            TwoVotableKeys(Seen(remarks), p, Images(s), AbleFor(s)) <==>
            exists added :: OnlyBallots(o, added) && DoubleBallot(remarks + added, o, Images(s))
    ensures var o := Auditing(s, p, endBlock, j.parse);
            (exists r :: AnnounceOf(Seen(remarks), p, voter, r) && Votable(Seen(remarks), p, AbleFor(s), RankOf(r).vkPub))
            <==>
            exists added, r :: OnlyBallots(o, added) && ClearAndAnonymous(remarks + added, o, Images(s), voter, r)
  {
    var o := Auditing(s, p, endBlock, j.parse);
    SchemeCanSign(s, p, endBlock, j.parse);
    SchemeOnlyAble(s, p, endBlock, j.parse);
    DoubleBallotIff(remarks, o, Images(s), AbleFor(s), j, block);
    ClearAndAnonymousIff(remarks, o, Images(s), AbleFor(s), j, block, voter);
  }

  // ----- When a ring can be voted with at all -----

  /** `r` is a valid ballot over the ring at block `b`. */
  ghost predicate ValidOver(log: set<Remark>, o: TallyOpts, b: nat, r: Remark) {
    Judge(log, o, r).Ballot? && Judge(log, o, r).accepted.vote.ringBlock == b
  }

  /** A ring with a member that is no point is dead: no remark whatever is a valid ballot over it. */
  lemma DeadRing<P(!new)>(s: Suite<P>, p: Proposal, endBlock: Option<nat>, parse: string -> Option<Json>,
                          log: set<Remark>, b: nat, r: Remark)
    requires !Usable(s, CanonicalRing(log, p, b))
    ensures !ValidOver(log, Auditing(s, p, endBlock, parse), b, r)
  {
    var o := Auditing(s, p, endBlock, parse);
    if ValidOver(log, o, b, r) {
      var v := Judge(log, o, r).accepted;
      ValidBallotIff(log, o, r, v);
      ValidNeedsUsable(s, v.vote.sig, CanonicalRing(log, p, b), VoteMessageHex(v.vote.proposalId, v.vote.choice, b));
    }
  }

  /** The holder of a key in the ring at block `b` can cast a valid vote over it exactly when every member
      encodes a point. One allowlisted voter who announces anything else shuts out all the others. */
  lemma SomeVoteValidIff<P(!new)>(s: Suite<P>, j: JsonCodec, p: Proposal, endBlock: Option<nat>, log: set<Remark>,
                                  b: nat, x: nat, block: nat)
    requires LawfulSuite(s) && Faithful(j) && b <= MAX_SAFE_INTEGER
    requires OutsideWindow(VotingStart(log, p), endBlock, block) == None
    requires x < s.group.order && Signs(s, x)
    requires HexKey(s, x) in CanonicalRing(log, p, b) && |CanonicalRing(log, p, b)| >= 2
    ensures AllPoints(s, CanonicalRing(log, p, b)) <==>
            exists r: Remark :: r.blockNumber == block && ValidOver(log, Auditing(s, p, endBlock, j.parse), b, r) &&
                        KeyImageOf(Judge(log, Auditing(s, p, endBlock, j.parse), r).accepted) == HexImage(s, x)
  {
    var o, ring := Auditing(s, p, endBlock, j.parse), CanonicalRing(log, p, b);
    if AllPoints(s, ring) {
      var sig := HolderVerifies(s, x, ring, VoteText(p.id, Yes, b));
      var vote := Vote(p.id, Yes, b, sig);
      VoteRoundTrip(j, vote);
      var r := Remark(block, "", EncodeVote(j, vote));
      ValidBallotIff(log, o, r, AcceptedVote(vote, block));
      assert r.blockNumber == block && ValidOver(log, o, b, r);
    }
    forall r | ValidOver(log, o, b, r) ensures AllPoints(s, ring) {
      if !Usable(s, ring) { DeadRing(s, p, endBlock, j.parse, log, b, r); }
    }
  }

  /** And once voting has opened over such a ring, this is for good: in every extension by later blocks no vote
      over a ring block from the start on is valid. */
  lemma DeadForGood<P(!new)>(s: Suite<P>, p: Proposal, endBlock: Option<nat>, parse: string -> Option<Json>,
                             log: set<Remark>, later: set<Remark>, b: nat, r: Remark)
    requires VotingStart(log, p).Some? && VotingStart(log, p).value <= b + 1
    requires forall x, e :: x in log && e in later ==> x.blockNumber < e.blockNumber
    requires !Usable(s, CanonicalRing(log, p, VotingStart(log, p).value))
    ensures !ValidOver(log + later, Auditing(s, p, endBlock, parse), b, r)
  {
    FrozenRingIsFinal(log, later, p, b);
    RingFreezes(log, p, b);
    RingFreezes(log, p, VotingStart(log, p).value);
    DeadRing(s, p, endBlock, parse, log + later, b, r);
  }
}
