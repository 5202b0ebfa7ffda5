/** What `sign` puts into a signature and what `verify` asks of one, as equations over the group and the one
    hash function (packages/ring-sig/vendored/blsag/src/lib.rs). */
module BlsagEquations {
  import opened Text
  import opened Group
  import opened Blsag
  import opened BlsagCompleteness
  import opened BlsagSoundness

  // ----- The hashes -----

  /** A tag, the members one after the other, the key image. */
  ghost predicate BindingLayout(tag: seq<Byte>, input: seq<Byte>, ring: seq<Bytes32>, keyImage: Bytes32) {
    && |input| == |tag| + 32 * |ring| + 32 && input[..|tag|] == tag
    && (forall i :: 0 <= i < |ring| ==> input[|tag| + 32 * i..][..32] == ring[i])
    && input[|tag| + 32 * |ring|..] == keyImage
  }

  /** Every byte that is hashed for a ring binding. */
  lemma BindingBytes<P(!new)>(s: Suite<P>, ring: seq<Bytes32>, keyImage: Bytes32)
    requires HashesDefined(s)
    ensures exists input :: && s.ringBinding(ring, keyImage) == s.blake(input)
                            && BindingLayout(Utf8("SubtensorBLSAG_ring_binding"), input, ring, keyImage)
  {
    assert RingBindingIs(s, ring, keyImage);
    InputLayout(Utf8(RING_BINDING_TAG), ring, keyImage);
  }

  lemma InputLayout(tag: seq<Byte>, ring: seq<Bytes32>, keyImage: Bytes32)
    ensures BindingLayout(tag, tag + Concat(ring) + keyImage, ring, keyImage)
  {
    var body := Concat(ring);
    ConcatLength(ring);
    ThreeParts(tag, body, keyImage);
    forall i | 0 <= i < |ring| ensures (tag + body + keyImage)[|tag| + 32 * i..][..32] == ring[i] {
      ConcatAt(ring, i);
      SliceMiddle(tag, body, keyImage, 32 * i);
    }
  }

  lemma ThreeParts<T>(a: seq<T>, b: seq<T>, c: seq<T>)
    ensures (a + b + c)[..|a|] == a && (a + b + c)[|a| + |b|..] == c
  {}

  lemma SliceMiddle<T>(a: seq<T>, b: seq<T>, c: seq<T>, at: nat)
    requires at + 32 <= |b|
    ensures (a + b + c)[|a| + at..][..32] == b[at..][..32]
  {}

  lemma {:induction false} ConcatAt(ring: seq<Bytes32>, i: nat)
    requires i < |ring|
    ensures |Concat(ring)| == 32 * |ring| && Concat(ring)[32 * i..][..32] == ring[i]
  {
    ConcatLength(ring);
    var n := |ring| - 1;
    ConcatLength(ring[..n]);
    if i < n {
      ConcatAt(ring[..n], i);
      assert Concat(ring)[32 * i..][..32] == Concat(ring[..n])[32 * i..][..32];
    }
  }

  lemma HashedPoint<P(!new)>(s: Suite<P>, key: P)
    requires HashesDefined(s)
    ensures s.hashToPoint(key) == s.toPoint(s.blake(Utf8("SubtensorBLSAG_hash_to_point") + s.compress(key)))
  {
    assert HashToPointIs(s, key);
  }

  /** The challenge for two commitments. */
  ghost predicate ChallengeOf<P>(s: Suite<P>, binding: seq<Byte>, message: seq<Byte>, l0: P, l1: P, c: nat) {
    c == s.toScalar(s.blake(Utf8("SubtensorBLSAG_challenge") + binding + message + s.compress(l0) + s.compress(l1)))
  }

  /** `next` is the challenge after the member with key `key`, response `r` and challenge `c`. */
  ghost predicate StepEquation<P>(s: Suite<P>, binding: seq<Byte>, message: seq<Byte>, key: P, image: P,
                                  r: nat, c: nat, next: nat) {
    var g := s.group;
    ChallengeOf(s, binding, message,
                g.add(g.mul(r, g.base), g.mul(c, key)),
                g.add(g.mul(r, s.hashToPoint(key)), g.mul(c, image)), next)
  }

  lemma NextIff<P(!new)>(s: Suite<P>, st: Statement<P>, i: nat, r: nat, c: nat, next: nat)
    requires HashesDefined(s) && i < |st.points|
    ensures next == Next(s, st, i, r, c) <==> StepEquation(s, st.binding, st.message, st.points[i], st.image, r, c, next)
  {
    NextHashesInput(s, st, i, r, c);
  }

  lemma NonceChallenge<P(!new)>(s: Suite<P>, binding: seq<Byte>, message: seq<Byte>, l0: P, l1: P)
    requires HashesDefined(s)
    ensures ChallengeOf(s, binding, message, l0, l1, s.challenge(binding, message, l0, l1))
  {
    assert ChallengeIs(s, binding, message, l0, l1);
  }

  // ----- Verification -----

  /** The bytes encode a point, and not all of them are zero. */
  ghost predicate EncodesMember<P>(s: Suite<P>, b: Bytes32) {
    s.decompress(b).Some? && exists i :: 0 <= i < 32 && b[i] != 0
  }

  lemma {:induction false} ZeroBytes(n: nat)
    ensures forall i :: 0 <= i < n ==> LeEncode(0, n)[i] == 0
  {
    if n > 0 { ZeroBytes(n - 1); }
  }

  lemma EncodesMemberIff<P>(s: Suite<P>, b: Bytes32)
    ensures GoodMember(s, b) <==> EncodesMember(s, b)
  {
    ZeroBytes(32);
    if forall i :: 0 <= i < 32 ==> b[i] == 0 { assert b == IDENTITY; }
  }

  /** Which error `verify` answers with, in the order of its checks. */
  lemma VerifyErrors<P(!new)>(s: Suite<P>, sig: Signature, ring: seq<Bytes32>, message: seq<Byte>)
    ensures var r := VerifySpec(s, sig, ring, message);
            var shaped := 2 <= |ring| == |sig.responses|;
            var member := forall i :: 0 <= i < |ring| ==> EncodesMember(s, ring[i]);
            var scalar := LeDecode(sig.challenge) < s.group.order &&
                          forall i :: 0 <= i < |sig.responses| ==> LeDecode(sig.responses[i]) < s.group.order;
            && (r == Err(RingTooSmall) <==> |ring| < 2)
            && (r == Err(ResponseCountMismatch) <==> 2 <= |ring| != |sig.responses|)
            && (r == Err(InvalidKeyImage) <==> shaped && !EncodesMember(s, sig.keyImage))
            && (r == Err(InvalidRingMember) <==> shaped && EncodesMember(s, sig.keyImage) && !member)
            && (r == Err(InvalidScalar) <==> shaped && EncodesMember(s, sig.keyImage) && member && !scalar)
            && r != Err(SignerNotInRing)
  {
    EncodesMemberIff(s, sig.keyImage);
    forall b: Bytes32 ensures GoodMember(s, b) <==> EncodesMember(s, b) {
      EncodesMemberIff(s, b);
    }
  }

  /** `cs` are challenges that lead round the ring and back to the signature's own. */
  ghost predicate ClosesWith<P>(s: Suite<P>, sig: Signature, ring: seq<Bytes32>, message: seq<Byte>, cs: seq<nat>)
    requires |ring| == |sig.responses| && s.decompress(sig.keyImage).Some?
    requires forall i :: 0 <= i < |ring| ==> s.decompress(ring[i]).Some?
  {
    && |cs| == |ring| + 1 && cs[0] == cs[|ring|] == LeDecode(sig.challenge)
    && forall j :: 0 <= j < |ring| ==>
         StepEquation(s, s.ringBinding(ring, sig.keyImage), message, s.decompress(ring[j]).value,
                      s.decompress(sig.keyImage).value, LeDecode(sig.responses[j]), cs[j], cs[j + 1])
  }

  /** A well-formed signature is accepted exactly when its challenge equations close, all of them. */
  lemma AcceptedIff<P(!new)>(s: Suite<P>, sig: Signature, ring: seq<Bytes32>, message: seq<Byte>)
    requires HashesDefined(s) && VerifySpec(s, sig, ring, message).Ok?
    ensures |ring| == |sig.responses| && s.decompress(sig.keyImage).Some?
    ensures forall i :: 0 <= i < |ring| ==> s.decompress(ring[i]).Some?
    ensures VerifySpec(s, sig, ring, message) == Ok(true) <==> exists cs :: ClosesWith(s, sig, ring, message, cs)
  {
    if VerifySpec(s, sig, ring, message) == Ok(true) {
      ChainClosesIt(s, sig, ring, message);
    }
    if cs :| ClosesWith(s, sig, ring, message, cs) {
      OneChain(s, sig, ring, message, cs, |ring|);
    }
  }

  lemma ChainClosesIt<P(!new)>(s: Suite<P>, sig: Signature, ring: seq<Bytes32>, message: seq<Byte>)
    requires HashesDefined(s) && VerifySpec(s, sig, ring, message) == Ok(true)
    ensures |ring| == |sig.responses| && s.decompress(sig.keyImage).Some?
    ensures forall i :: 0 <= i < |ring| ==> s.decompress(ring[i]).Some?
    ensures ClosesWith(s, sig, ring, message,
                       Challenges(s, StatementOf(s, sig.keyImage, ring, message), DecodeScalars(s, sig.responses).value,
                                  LeDecode(sig.challenge)))
  {
    var st, rs, c0 := StatementOf(s, sig.keyImage, ring, message), DecodeScalars(s, sig.responses).value, LeDecode(sig.challenge);
    var cs := Challenges(s, st, rs, c0);
    forall j | 0 <= j < |ring|
      ensures StepEquation(s, s.ringBinding(ring, sig.keyImage), message, s.decompress(ring[j]).value,
                           s.decompress(sig.keyImage).value, LeDecode(sig.responses[j]), cs[j], cs[j + 1])
    {
      ChainStep(s, st, rs, c0, j);
    }
  }

  lemma ChainStep<P(!new)>(s: Suite<P>, st: Statement<P>, rs: seq<nat>, c0: nat, j: nat)
    requires HashesDefined(s) && j < |rs| == |st.points|
    ensures StepEquation(s, st.binding, st.message, st.points[j], st.image, rs[j], Chain(s, st, rs, c0, j), Chain(s, st, rs, c0, j + 1))
  {
    NextIff(s, st, j, rs[j], Chain(s, st, rs, c0, j), Chain(s, st, rs, c0, j + 1));
  }

  lemma {:induction false} OneChain<P(!new)>(s: Suite<P>, sig: Signature, ring: seq<Bytes32>, message: seq<Byte>,
                                             cs: seq<nat>, j: nat)
    requires HashesDefined(s) && VerifySpec(s, sig, ring, message).Ok? && ClosesWith(s, sig, ring, message, cs)
    requires j <= |ring|
    ensures cs[j] == Chain(s, StatementOf(s, sig.keyImage, ring, message), DecodeScalars(s, sig.responses).value,
                           LeDecode(sig.challenge), j)
  {
    if j > 0 {
      OneChain(s, sig, ring, message, cs, j - 1);
      var st, rs := StatementOf(s, sig.keyImage, ring, message), DecodeScalars(s, sig.responses).value;
      NextIff(s, st, j - 1, rs[j - 1], cs[j - 1], cs[j]);
    }
  }

  // ----- Signing -----

  /** The key image of a secret, for canonical secrets only. */
  lemma KeyImageIs<P(!new)>(s: Suite<P>, privateKey: Bytes32)
    requires EncodingsCanonical(s)
    ensures var k := LeDecode(privateKey);
            var image := s.compress(s.group.mul(k, s.hashToPoint(s.group.mul(k, s.group.base))));
            |image| == 32 && GenerateKeyImage(s, privateKey) == if k < s.group.order then Ok(image) else Err(InvalidScalar)
  {}

  /** Which error `sign` answers with, in the order of its checks. */
  lemma SignErrors<P(!new)>(s: Suite<P>, privateKey: Bytes32, ring: seq<Bytes32>, message: seq<Byte>, alpha: nat, rs: seq<nat>)
    requires LawfulSuite(s) && |rs| == |ring|
    ensures var r := SignSpec(s, privateKey, ring, message, alpha, rs);
            var k := LeDecode(privateKey);
            var member := forall i :: 0 <= i < |ring| ==> EncodesMember(s, ring[i]);
            && (r == Err(RingTooSmall) <==> |ring| < 2)
            && (r == Err(InvalidScalar) <==> 2 <= |ring| && k >= s.group.order)
            && (r == Err(InvalidRingMember) <==> 2 <= |ring| && k < s.group.order && !member)
            && (r == Err(SignerNotInRing) <==>
                2 <= |ring| && k < s.group.order && member && s.compress(s.group.mul(k, s.group.base)) !in ring)
            && r != Err(InvalidKeyImage) && r != Err(ResponseCountMismatch)
  {
    forall b: Bytes32 ensures GoodMember(s, b) <==> EncodesMember(s, b) {
      EncodesMemberIff(s, b);
    }
    SignSucceedsIff(s, privateKey, ring, message, alpha, rs);
  }

  /** `i` is the first place of the signer's key. */
  ghost predicate SignerAt<P>(s: Suite<P>, k: nat, ring: seq<Bytes32>, i: nat) {
    var key := s.compress(s.group.mul(k, s.group.base));
    i < |ring| && ring[i] == key && key !in ring[..i]
  }

  /** Every response but the signer's is the one that was drawn. */
  ghost predicate OthersDrawn(sig: Signature, rs: seq<nat>, i: nat) {
    && |sig.responses| == |rs|
    && forall j :: 0 <= j < |rs| && j != i ==> LeDecode(sig.responses[j]) == rs[j]
  }

  /** The challenge that the verifier recomputes for place `i`. */
  ghost function ChallengeFor<P>(s: Suite<P>, sig: Signature, ring: seq<Bytes32>, message: seq<Byte>, i: nat): nat
    requires s.decompress(sig.keyImage).Some? && DecodeRing(s, ring).Some? && DecodeScalars(s, sig.responses).Some?
    requires i <= |ring| == |sig.responses|
  {
    Chain(s, StatementOf(s, sig.keyImage, ring, message), DecodeScalars(s, sig.responses).value, LeDecode(sig.challenge), i)
  }

  /** The response at place `i` is the nonce less the challenge there times the secret. */
  ghost predicate ResponseAnswers<P>(s: Suite<P>, sig: Signature, ring: seq<Bytes32>, message: seq<Byte>,
                                     k: nat, alpha: nat, i: nat)
  {
    && i < |ring| == |sig.responses| && s.group.order > 0
    && s.decompress(sig.keyImage).Some? && DecodeRing(s, ring).Some? && DecodeScalars(s, sig.responses).Some?
    && LeDecode(sig.responses[i]) == (alpha - ChallengeFor(s, sig, ring, message, i) * k) % s.group.order
  }

  /** And the next challenge is the hash of the nonce's two commitments. */
  ghost predicate NonceHashed<P>(s: Suite<P>, sig: Signature, ring: seq<Bytes32>, message: seq<Byte>,
                                 k: nat, alpha: nat, i: nat)
  {
    && i < |ring| == |sig.responses|
    && s.decompress(sig.keyImage).Some? && DecodeRing(s, ring).Some? && DecodeScalars(s, sig.responses).Some?
    && ChallengeOf(s, s.ringBinding(ring, sig.keyImage), message, s.group.mul(alpha, s.group.base),
                   s.group.mul(alpha, s.hashToPoint(s.group.mul(k, s.group.base))),
                   ChallengeFor(s, sig, ring, message, i + 1))
  }

  /** What a signature holds: the image of the secret; at every place but the signer's, the response that was
      drawn; and at the signer's the nonce, answered. */
  lemma SignEquations<P(!new)>(s: Suite<P>, privateKey: Bytes32, ring: seq<Bytes32>, message: seq<Byte>, alpha: nat, rs: seq<nat>)
    returns (i: nat)
    requires LawfulSuite(s) && |rs| == |ring| && forall j :: 0 <= j < |rs| ==> rs[j] < s.group.order
    requires SignSpec(s, privateKey, ring, message, alpha, rs).Ok?
    ensures var sig := SignSpec(s, privateKey, ring, message, alpha, rs).value;
            var k := LeDecode(privateKey);
            && SignerAt(s, k, ring, i) && OthersDrawn(sig, rs, i)
            && ResponseAnswers(s, sig, ring, message, k, alpha, i) && NonceHashed(s, sig, ring, message, k, alpha, i)
            && sig.keyImage == s.compress(s.group.mul(k, s.hashToPoint(s.group.mul(k, s.group.base))))
  {
    var op := SignOpens(s, privateKey, ring, message, alpha, rs);
    i := op.signer;
    OthersAreDrawn(s, op, rs);
    NonceIsAnswered(s, op, rs, ring, message);
    SignatureDecodes(s, op, rs, ring, message);
  }

  /** The opening behind a signature. */
  lemma SignOpens<P(!new)>(s: Suite<P>, privateKey: Bytes32, ring: seq<Bytes32>, message: seq<Byte>, alpha: nat, rs: seq<nat>)
    returns (op: Opening<P>)
    requires LawfulSuite(s) && |rs| == |ring| && SignSpec(s, privateKey, ring, message, alpha, rs).Ok?
    ensures Opened(s, op, rs) && op.k == LeDecode(privateKey) && op.alpha == alpha && op.st.message == message
    ensures DecodeRing(s, ring) == Some(op.st.points) && SignerAt(s, op.k, ring, op.signer)
    ensures op.st.binding == s.ringBinding(ring, AsBytes32(s.compress(op.st.image)))
    ensures SignSpec(s, privateKey, ring, message, alpha, rs).value == SignatureOf(s, op, rs)
  {
    var k, points := LeDecode(privateKey), DecodeRing(s, ring).value;
    op := Open(s, k, ring, points, message, alpha).value;
    OpenOpens(s, k, ring, points, message, alpha, rs);
    SignerIsFirst(s, k, ring, points, op.signer);
  }

  lemma OthersAreDrawn<P(!new)>(s: Suite<P>, op: Opening<P>, rs: seq<nat>)
    requires LawfulSuite(s) && Opened(s, op, rs) && forall j :: 0 <= j < |rs| ==> rs[j] < s.group.order
    ensures OthersDrawn(SignatureOf(s, op, rs), rs, op.signer)
  {
    forall j | 0 <= j < |rs| && j != op.signer ensures LeDecode(SignatureOf(s, op, rs).responses[j]) == rs[j] {
      ScalarRoundTrip(s, rs[j]);
    }
  }

  lemma NonceIsAnswered<P(!new)>(s: Suite<P>, op: Opening<P>, rs: seq<nat>, ring: seq<Bytes32>, message: seq<Byte>)
    requires LawfulSuite(s) && Opened(s, op, rs) && forall j :: 0 <= j < |rs| ==> rs[j] < s.group.order
    requires DecodeRing(s, ring) == Some(op.st.points) && op.st.message == message
    requires op.st.binding == s.ringBinding(ring, AsBytes32(s.compress(op.st.image)))
    ensures ResponseAnswers(s, SignatureOf(s, op, rs), ring, message, op.k, op.alpha, op.signer)
    ensures NonceHashed(s, SignatureOf(s, op, rs), ring, message, op.k, op.alpha, op.signer)
  {
    SignatureDecodes(s, op, rs, ring, message);
    ChainToSigner(s, op, rs);
    ChainPastSigner(s, op, rs);
    FirstIsNonce(s, op, rs);
    var sig, closed, c0 := SignatureOf(s, op, rs), ClosedResponses(s, op, rs), ChallengeAt(s, op, rs, 0);
    AnswersFrom(s, sig, ring, message, op.st, closed, c0, op.signer, ChallengeAt(s, op, rs, op.signer), op.k, op.alpha);
    HashedFrom(s, sig, ring, message, op.st, closed, c0, op.signer, op.first, op.k, op.alpha);
  }

  /** What a signature decodes to. */
  ghost predicate DecodesTo<P>(s: Suite<P>, sig: Signature, ring: seq<Bytes32>, message: seq<Byte>,
                               st: Statement<P>, rs: seq<nat>, c0: nat)
  {
    && s.decompress(sig.keyImage).Some? && DecodeRing(s, ring).Some? && DecodeScalars(s, sig.responses) == Some(rs)
    && |ring| == |sig.responses| == |st.points|
    && StatementOf(s, sig.keyImage, ring, message) == st && LeDecode(sig.challenge) == c0
  }

  lemma AnswersFrom<P>(s: Suite<P>, sig: Signature, ring: seq<Bytes32>, message: seq<Byte>, st: Statement<P>,
                       rs: seq<nat>, c0: nat, i: nat, c: nat, k: nat, alpha: nat)
    requires DecodesTo(s, sig, ring, message, st, rs, c0) && i < |ring| && s.group.order > 0
    requires Chain(s, st, rs, c0, i) == c && rs[i] == Closing(alpha, c, k, s.group.order)
    ensures ResponseAnswers(s, sig, ring, message, k, alpha, i)
  {
    assert ChallengeFor(s, sig, ring, message, i) == c;
  }

  lemma HashedFrom<P>(s: Suite<P>, sig: Signature, ring: seq<Bytes32>, message: seq<Byte>, st: Statement<P>,
                      rs: seq<nat>, c0: nat, i: nat, first: nat, k: nat, alpha: nat)
    requires DecodesTo(s, sig, ring, message, st, rs, c0) && i < |ring|
    requires Chain(s, st, rs, c0, i + 1) == first
    requires ChallengeOf(s, st.binding, st.message, s.group.mul(alpha, s.group.base),
                         s.group.mul(alpha, s.hashToPoint(s.group.mul(k, s.group.base))), first)
    ensures NonceHashed(s, sig, ring, message, k, alpha, i)
  {
    assert ChallengeFor(s, sig, ring, message, i + 1) == first;
  }

  lemma FirstIsNonce<P(!new)>(s: Suite<P>, op: Opening<P>, rs: seq<nat>)
    requires HashesDefined(s) && Opened(s, op, rs)
    ensures ChallengeOf(s, op.st.binding, op.st.message, s.group.mul(op.alpha, s.group.base),
                        s.group.mul(op.alpha, s.hashToPoint(s.group.mul(op.k, s.group.base))), op.first)
  {
    NonceChallenge(s, op.st.binding, op.st.message, s.group.mul(op.alpha, s.group.base),
                   s.group.mul(op.alpha, s.hashToPoint(s.group.mul(op.k, s.group.base))));
  }

  /** Recomputed from the signature, the chain reaches the signer's challenge at the signer. */
  lemma ChainToSigner<P(!new)>(s: Suite<P>, op: Opening<P>, rs: seq<nat>)
    requires Lawful(s.group) && Opened(s, op, rs)
    ensures Chain(s, op.st, ClosedResponses(s, op, rs), ChallengeAt(s, op, rs, 0), op.signer) ==
            ChallengeAt(s, op, rs, op.signer)
  {
    ChainFollowsWalk(s, op, rs, op.signer);
  }

  /** And behind the signer the first challenge of the walk. */
  lemma ChainPastSigner<P(!new)>(s: Suite<P>, op: Opening<P>, rs: seq<nat>)
    requires Lawful(s.group) && Opened(s, op, rs)
    ensures Chain(s, op.st, ClosedResponses(s, op, rs), ChallengeAt(s, op, rs, 0), op.signer + 1) == op.first
  {
    ChainFollowsWalk(s, op, rs, op.signer + 1);
  }

  lemma SignerIsFirst<P(!new)>(s: Suite<P>, k: nat, ring: seq<Bytes32>, points: seq<P>, i: nat)
    requires EncodingsCanonical(s) && DecodeRing(s, ring) == Some(points)
    requires FindSigner(points, s.group.mul(k, s.group.base)) == Some(i)
    ensures i < |ring| && ring[i] == s.compress(s.group.mul(k, s.group.base))
    ensures s.compress(s.group.mul(k, s.group.base)) !in ring[..i]
  {
    var key := s.group.mul(k, s.group.base);
    assert s.decompress(ring[i]) == Some(key) && s.compress(s.decompress(ring[i]).value) == ring[i];
    forall j | 0 <= j < i ensures ring[j] != s.compress(key) {
      assert points[j] in points[..i];
    }
  }

  lemma SignatureDecodes<P(!new)>(s: Suite<P>, op: Opening<P>, rs: seq<nat>, ring: seq<Bytes32>, message: seq<Byte>)
    requires LawfulSuite(s) && Opened(s, op, rs) && forall j :: 0 <= j < |rs| ==> rs[j] < s.group.order
    requires DecodeRing(s, ring) == Some(op.st.points) && op.st.message == message
    requires op.st.binding == s.ringBinding(ring, AsBytes32(s.compress(op.st.image)))
    ensures var sig := SignatureOf(s, op, rs);
            && sig.keyImage == s.compress(op.st.image) && s.decompress(sig.keyImage) == Some(op.st.image)
            && DecodeScalars(s, sig.responses) == Some(ClosedResponses(s, op, rs))
            && DecodesTo(s, sig, ring, message, op.st, ClosedResponses(s, op, rs), ChallengeAt(s, op, rs, 0))
  {
    assert |s.compress(op.st.image)| == 32 && s.decompress(s.compress(op.st.image)) == Some(op.st.image);
    WalkCanonical(s, op, rs, 0);
    ScalarRoundTrip(s, ChallengeAt(s, op, rs, 0));
    ScalarsRoundTrip(s, ClosedResponses(s, op, rs));
  }
}
