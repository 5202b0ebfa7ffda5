/** Every honest signature verifies (packages/ring-sig/vendored/blsag/src/lib.rs). */
module BlsagCompleteness {
  import opened Text
  import opened Group
  import opened Blsag

  /** The closing response turns the signer's commitment back into the nonce's. */
  lemma ClosingCommit<P(!new)>(g: Group<P>, alpha: nat, c: nat, k: nat, q: P)
    requires Lawful(g)
    ensures Commit(g, Closing(alpha, c, k, g.order), q, c, g.mul(k, q)) == g.mul(alpha, q)
  {
    MulMod(g, alpha - c * k, q);
    assert MulMul(g, c, k, q);
    assert MulSum(g, alpha - c * k, c * k, q);
  }

  /** What `Open` establishes. */
  ghost predicate Opened<P(!new)>(s: Suite<P>, op: Opening<P>, rs: seq<nat>) {
    var key := s.group.mul(op.k, s.group.base);
    && |rs| == |op.st.points| && op.signer < |rs|
    && op.start == (if op.signer + 1 < |rs| then op.signer + 1 else 0)
    && op.st.points[op.signer] == key
    && op.st.image == s.group.mul(op.k, s.hashToPoint(key))
    && op.first == s.challenge(op.st.binding, op.st.message,
                               s.group.mul(op.alpha, s.group.base), s.group.mul(op.alpha, s.hashToPoint(key)))
  }

  lemma StepAtSigner<P(!new)>(s: Suite<P>, op: Opening<P>, rs: seq<nat>)
    requires Lawful(s.group) && Opened(s, op, rs)
    ensures Next(s, op.st, op.signer, ClosedResponses(s, op, rs)[op.signer], ChallengeAt(s, op, rs, op.signer)) == op.first
  {
    var c := ChallengeAt(s, op, rs, op.signer);
    ClosingCommit(s.group, op.alpha, c, op.k, s.group.base);
    ClosingCommit(s.group, op.alpha, c, op.k, s.hashToPoint(op.st.points[op.signer]));
  }

  function Wrap(i: nat, n: nat): nat { if i < n then i else 0 }

  /** Away from the signer the walk is one step of the chain. */
  lemma WalkAdvances<P(!new)>(s: Suite<P>, op: Opening<P>, rs: seq<nat>, i: nat)
    requires Opened(s, op, rs) && i < |rs| && i != op.signer
    ensures ChallengeAt(s, op, rs, Wrap(i + 1, |rs|)) == Next(s, op.st, i, rs[i], ChallengeAt(s, op, rs, i))
  {
    var d := Offset(op.start, i, |rs|);
    assert Offset(op.start, Wrap(i + 1, |rs|), |rs|) == d + 1;
    assert Around(op.start, d, |rs|) == i;
  }

  lemma ClosedStep<P(!new)>(s: Suite<P>, op: Opening<P>, rs: seq<nat>, i: nat)
    requires Lawful(s.group) && Opened(s, op, rs) && i < |rs|
    ensures Next(s, op.st, i, ClosedResponses(s, op, rs)[i], ChallengeAt(s, op, rs, i)) ==
            ChallengeAt(s, op, rs, Wrap(i + 1, |rs|))
  {
    if i == op.signer {
      StepAtSigner(s, op, rs);
      assert Offset(op.start, Wrap(i + 1, |rs|), |rs|) == 0;
    } else {
      WalkAdvances(s, op, rs, i);
    }
  }

  /** Recomputing the chain with the closed responses visits the walk's challenges and returns to the first. */
  lemma {:induction false} ChainFollowsWalk<P(!new)>(s: Suite<P>, op: Opening<P>, rs: seq<nat>, j: nat)
    requires Lawful(s.group) && Opened(s, op, rs) && j <= |rs|
    ensures Chain(s, op.st, ClosedResponses(s, op, rs), ChallengeAt(s, op, rs, 0), j) ==
            ChallengeAt(s, op, rs, Wrap(j, |rs|))
  {
    if j > 0 {
      ChainFollowsWalk(s, op, rs, j - 1);
      ClosedStep(s, op, rs, j - 1);
    }
  }

  lemma NextCanonical<P(!new)>(s: Suite<P>, st: Statement<P>, i: nat, r: nat, c: nat)
    requires LawfulSuite(s) && i < |st.points|
    ensures Next(s, st, i, r, c) < s.group.order
  {
    ChallengeCanonical(s, st.binding, st.message,
                       Commit(s.group, r, s.group.base, c, st.points[i]),
                       Commit(s.group, r, s.hashToPoint(st.points[i]), c, st.image));
  }

  lemma ChallengeCanonical<P(!new)>(s: Suite<P>, binding: seq<Byte>, message: seq<Byte>, l0: P, l1: P)
    requires LawfulSuite(s)
    ensures s.challenge(binding, message, l0, l1) < s.group.order
  {
    assert ChallengeIs(s, binding, message, l0, l1);
  }

  lemma FirstCanonical<P(!new)>(s: Suite<P>, op: Opening<P>, rs: seq<nat>)
    requires LawfulSuite(s) && Opened(s, op, rs)
    ensures op.first < s.group.order
  {
    var key := s.group.mul(op.k, s.group.base);
    ChallengeCanonical(s, op.st.binding, op.st.message,
                       s.group.mul(op.alpha, s.group.base), s.group.mul(op.alpha, s.hashToPoint(key)));
  }

  lemma WalkCanonical<P(!new)>(s: Suite<P>, op: Opening<P>, rs: seq<nat>, i: nat)
    requires LawfulSuite(s) && Opened(s, op, rs) && i < |rs|
    ensures ChallengeAt(s, op, rs, i) < s.group.order
  {
    var d := Offset(op.start, i, |rs|);
    if d == 0 {
      FirstCanonical(s, op, rs);
    } else {
      var h := Around(op.start, d - 1, |rs|);
      NextCanonical(s, op.st, h, rs[h], Walk(s, op.st, rs, op.start, op.first, d - 1));
    }
  }

  lemma ScalarRoundTrip<P(!new)>(s: Suite<P>, x: nat)
    requires EncodingsCanonical(s) && x < s.group.order
    ensures LeDecode(ScalarBytes(x)) == x
    ensures DeserializeScalar(s, ScalarBytes(x)) == Some(x)
  {
    LeRoundTrip(x, 32);
  }

  lemma ScalarsRoundTrip<P(!new)>(s: Suite<P>, xs: seq<nat>)
    requires EncodingsCanonical(s) && forall i :: 0 <= i < |xs| ==> xs[i] < s.group.order
    ensures DecodeScalars(s, AllScalarBytes(xs)) == Some(xs)
  {
    forall i | 0 <= i < |xs| ensures LeDecode(AllScalarBytes(xs)[i]) == xs[i] {
      ScalarRoundTrip(s, xs[i]);
    }
    assert DecodeScalars(s, AllScalarBytes(xs)).value == xs;
  }

  /** The image of a key that is in a ring is the identity only if the key hashes to it: the order is prime. */
  lemma ImageIsIdentityIff<P(!new)>(g: Group<P>, k: nat, hp: P)
    requires Lawful(g) && g.mul(k, g.base) != g.zero
    ensures g.mul(k, hp) == g.zero <==> hp == g.zero
  {
    MulIdentity(g, k);
    if g.mul(k, hp) == g.zero && hp != g.zero {
      NoTorsion(g, k, hp);
      assert k == g.order * (k / g.order);
      MulMultiple(g, k / g.order, g.base);
    }
  }

  lemma CompressedIdentityIff<P(!new)>(s: Suite<P>, p: P)
    requires EncodingsCanonical(s)
    ensures s.compress(p) == IDENTITY <==> p == s.group.zero
  {
    if s.compress(p) == IDENTITY {
      assert s.decompress(s.compress(p)) == s.decompress(s.compress(s.group.zero));
    }
  }

  lemma OpenOpens<P(!new)>(s: Suite<P>, k: nat, ring: seq<Bytes32>, points: seq<P>, message: seq<Byte>, alpha: nat, rs: seq<nat>)
    requires |rs| == |points|
    ensures Open(s, k, ring, points, message, alpha).Some? <==> s.group.mul(k, s.group.base) in points
    ensures Open(s, k, ring, points, message, alpha).Some? ==>
              var op := Open(s, k, ring, points, message, alpha).value;
              Opened(s, op, rs) && op.k == k && op.st.points == points && op.st.message == message && op.st.image == ImageOf(s, k)
  {}

  /** When `sign` succeeds. */
  lemma SignSucceedsIff<P(!new)>(s: Suite<P>, privateKey: Bytes32, ring: seq<Bytes32>, message: seq<Byte>,
                                 alpha: nat, rs: seq<nat>)
    requires LawfulSuite(s) && |rs| == |ring|
    ensures SignSpec(s, privateKey, ring, message, alpha, rs).Ok? <==>
            && |ring| >= 2
            && LeDecode(privateKey) < s.group.order
            && (forall i :: 0 <= i < |ring| ==> GoodMember(s, ring[i]))
            && s.compress(s.group.mul(LeDecode(privateKey), s.group.base)) in ring
  {
    var key := s.group.mul(LeDecode(privateKey), s.group.base);
    if DecodeRing(s, ring).Some? {
      var points := DecodeRing(s, ring).value;
      OpenOpens(s, LeDecode(privateKey), ring, points, message, alpha, rs);
      if key in points {
        var i :| 0 <= i < |points| && points[i] == key;
        assert s.compress(key) == ring[i];
      }
      if s.compress(key) in ring {
        var i :| 0 <= i < |ring| && ring[i] == s.compress(key);
        assert points[i] == key;
      }
    }
  }

  /** The signature that an opening gives. */
  function SignatureOf<P>(s: Suite<P>, op: Opening<P>, rs: seq<nat>): Signature
    requires |rs| == |op.st.points| && 0 < |rs| && op.start < |rs| && op.signer < |rs| && s.group.order > 0
  {
    Signature(ScalarBytes(ChallengeAt(s, op, rs, 0)), AllScalarBytes(ClosedResponses(s, op, rs)),
              AsBytes32(s.compress(op.st.image)))
  }

  lemma ChainCloses<P(!new)>(s: Suite<P>, op: Opening<P>, rs: seq<nat>)
    requires LawfulSuite(s) && Opened(s, op, rs)
    ensures var c0 := ChallengeAt(s, op, rs, 0);
            c0 < s.group.order && Chain(s, op.st, ClosedResponses(s, op, rs), c0, |rs|) == c0
  {
    WalkCanonical(s, op, rs, 0);
    ChainFollowsWalk(s, op, rs, |rs|);
  }

  lemma VerifiesWhenClosed<P>(s: Suite<P>, sig: Signature, ring: seq<Bytes32>, message: seq<Byte>, c0: nat, rs: seq<nat>)
    requires |ring| >= 2 && |sig.responses| == |ring| && GoodMember(s, sig.keyImage) && DecodeRing(s, ring).Some?
    requires DeserializeScalar(s, sig.challenge) == Some(c0) && DecodeScalars(s, sig.responses) == Some(rs)
    requires Chain(s, StatementOf(s, sig.keyImage, ring, message), rs, c0, |ring|) == c0
    ensures VerifySpec(s, sig, ring, message) == Ok(true)
  {}

  lemma ClosedSignatureVerifies<P(!new)>(s: Suite<P>, op: Opening<P>, rs: seq<nat>, ring: seq<Bytes32>, message: seq<Byte>)
    requires LawfulSuite(s) && Opened(s, op, rs) && |ring| >= 2 && op.st.image != s.group.zero
    requires forall i :: 0 <= i < |rs| ==> rs[i] < s.group.order
    requires DecodeRing(s, ring) == Some(op.st.points)
    requires op.st.message == message && op.st.binding == s.ringBinding(ring, AsBytes32(s.compress(op.st.image)))
    ensures VerifySpec(s, SignatureOf(s, op, rs), ring, message) == Ok(true)
  {
    CompressedIdentityIff(s, op.st.image);
    ChainCloses(s, op, rs);
    ScalarRoundTrip(s, ChallengeAt(s, op, rs, 0));
    ScalarsRoundTrip(s, ClosedResponses(s, op, rs));
    var sig := SignatureOf(s, op, rs);
    assert s.decompress(s.compress(op.st.image)) == Some(op.st.image);
    assert StatementOf(s, sig.keyImage, ring, message) == op.st;
    VerifiesWhenClosed(s, sig, ring, message, ChallengeAt(s, op, rs, 0), ClosedResponses(s, op, rs));
  }

  /** Completeness. Whatever the ring, the message and the random choices, an honest signature carries the
      signer's key image and verifies, unless the signer's key hashes to the identity; in that one case
      the verifier rejects the key image. */
  lemma HonestSignatureVerifies<P(!new)>(s: Suite<P>, privateKey: Bytes32, ring: seq<Bytes32>, message: seq<Byte>,
                                         alpha: nat, rs: seq<nat>)
    requires LawfulSuite(s) && |rs| == |ring|
    requires forall i :: 0 <= i < |rs| ==> rs[i] < s.group.order
    requires SignSpec(s, privateKey, ring, message, alpha, rs).Ok?
    ensures var sig := SignSpec(s, privateKey, ring, message, alpha, rs).value;
            && GenerateKeyImage(s, privateKey) == Ok(sig.keyImage)
            && VerifySpec(s, sig, ring, message) ==
               if s.hashToPoint(s.group.mul(LeDecode(privateKey), s.group.base)) == s.group.zero
               then Err(InvalidKeyImage) else Ok(true)
  {
    var k := LeDecode(privateKey);
    var key := s.group.mul(k, s.group.base);
    OpenOpens(s, k, ring, DecodeRing(s, ring).value, message, alpha, rs);
    var op := Open(s, k, ring, DecodeRing(s, ring).value, message, alpha).value;
    assert SignSpec(s, privateKey, ring, message, alpha, rs).value == SignatureOf(s, op, rs);
    MembersNotIdentity(s, ring);
    ImageIsIdentityIff(s.group, k, s.hashToPoint(key));
    CompressedIdentityIff(s, op.st.image);
    if op.st.image != s.group.zero {
      ClosedSignatureVerifies(s, op, rs, ring, message);
    }
  }

  /** Linkability: two honest signatures link exactly when their secrets have the same image; so those of one
      secret always do, whatever the rings, the messages and the random choices. */
  lemma HonestLink<P(!new)>(s: Suite<P>, sk1: Bytes32, ring1: seq<Bytes32>, m1: seq<Byte>, alpha1: nat, rs1: seq<nat>,
                            sk2: Bytes32, ring2: seq<Bytes32>, m2: seq<Byte>, alpha2: nat, rs2: seq<nat>)
    requires LawfulSuite(s) && |rs1| == |ring1| && |rs2| == |ring2|
    requires SignSpec(s, sk1, ring1, m1, alpha1, rs1).Ok? && SignSpec(s, sk2, ring2, m2, alpha2, rs2).Ok?
    ensures Link(SignSpec(s, sk1, ring1, m1, alpha1, rs1).value.keyImage, SignSpec(s, sk2, ring2, m2, alpha2, rs2).value.keyImage)
            <==> ImageOf(s, LeDecode(sk1)) == ImageOf(s, LeDecode(sk2))
  {
    SignedImage(s, sk1, ring1, m1, alpha1, rs1);
    SignedImage(s, sk2, ring2, m2, alpha2, rs2);
    var p, q := ImageOf(s, LeDecode(sk1)), ImageOf(s, LeDecode(sk2));
    assert s.decompress(s.compress(p)) == Some(p) && s.decompress(s.compress(q)) == Some(q);
  }

  lemma SignedImage<P(!new)>(s: Suite<P>, sk: Bytes32, ring: seq<Bytes32>, message: seq<Byte>, alpha: nat, rs: seq<nat>)
    requires |rs| == |ring| && s.group.order > 0 && SignSpec(s, sk, ring, message, alpha, rs).Ok?
    ensures SignSpec(s, sk, ring, message, alpha, rs).value.keyImage == AsBytes32(s.compress(ImageOf(s, LeDecode(sk))))
    ensures GenerateKeyImage(s, sk) == Ok(SignSpec(s, sk, ring, message, alpha, rs).value.keyImage)
  {
    OpenOpens(s, LeDecode(sk), ring, DecodeRing(s, ring).value, message, alpha, rs);
  }

  lemma KeyNotIdentity<P(!new)>(g: Group<P>, k: nat)
    requires Lawful(g) && 0 < k < g.order
    ensures g.mul(k, g.base) != g.zero
  {
    ModIs(g.order, 0, k);
    if g.mul(k, g.base) == g.zero {
      NoTorsion(g, k, g.base);
    }
  }

  lemma KeyIsGoodMember<P(!new)>(s: Suite<P>, k: nat)
    requires LawfulSuite(s) && 0 < k < s.group.order
    ensures |s.compress(s.group.mul(k, s.group.base))| == 32
    ensures GoodMember(s, s.compress(s.group.mul(k, s.group.base)))
  {
    var key := s.group.mul(k, s.group.base);
    KeyNotIdentity(s.group, k);
    CompressedIdentityIff(s, key);
    assert s.decompress(s.compress(key)) == Some(key);
  }

  /** Every secret but zero can sign, already with a ring that repeats its own key. */
  lemma OwnKeyTwiceSigns<P(!new)>(s: Suite<P>, k: nat, message: seq<Byte>, alpha: nat, rs: seq<nat>)
    requires LawfulSuite(s) && 0 < k < s.group.order && |rs| == 2
    ensures var key := AsBytes32(s.compress(s.group.mul(k, s.group.base)));
            SignSpec(s, ScalarBytes(k), [key, key], message, alpha, rs).Ok?
  {
    var key := AsBytes32(s.compress(s.group.mul(k, s.group.base)));
    KeyIsGoodMember(s, k);
    ScalarRoundTrip(s, k);
    var ring := [key, key];
    assert forall i :: 0 <= i < |ring| ==> ring[i] == key;
    assert key == ring[0] && key in ring;
    SignSucceedsIff(s, ScalarBytes(k), ring, message, alpha, rs);
  }
}
