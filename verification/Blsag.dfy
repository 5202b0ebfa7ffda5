/** BLSAG ring signatures (packages/ring-sig/vendored/blsag/src/lib.rs), after section 3.4 of
    "Zero to Monero: Second Edition". */
module Blsag {
  import opened Text
  import opened Group

  type Bytes32 = b: seq<Byte> | |b| == 32 witness seq(32, i => 0)

  /** The all-zero string: the encoding of the identity. */
  const IDENTITY: Bytes32 := LeEncode(0, 32)

  // ----- Scalars as 32 little-endian bytes -----

  function LeDecode(bytes: seq<Byte>): nat {
    if bytes == [] then 0 else bytes[0] + 256 * LeDecode(bytes[1..])
  }

  function LeEncode(x: nat, n: nat): (bytes: seq<Byte>)
    ensures |bytes| == n
  {
    if n == 0 then [] else [x % 256] + LeEncode(x / 256, n - 1)
  }

  function Pow256(n: nat): nat { if n == 0 then 1 else 256 * Pow256(n - 1) }

  lemma {:induction false} LeRoundTrip(x: nat, n: nat)
    requires x < Pow256(n)
    ensures LeDecode(LeEncode(x, n)) == x
  {
    if n > 0 {
      LeRoundTrip(x / 256, n - 1);
    }
  }

  /** Little-endian: a further byte counts for more than all bytes before it. */
  lemma {:induction false} LeDecodeAppend(bytes: seq<Byte>, b: Byte)
    ensures LeDecode(bytes + [b]) == LeDecode(bytes) + Pow256(|bytes|) * b
  {
    if bytes == [] {
      assert LeDecode([b][1..]) == 0;
    } else {
      LeDecodeAppend(bytes[1..], b);
      assert (bytes + [b])[1..] == bytes[1..] + [b];
      FactorByte(Pow256(|bytes| - 1), b);
    }
  }

  lemma FactorByte(p: nat, b: nat)
    ensures 256 * (p * b) == (256 * p) * b
  {}

  /** A canonical encoding is the only one of its value. */
  lemma {:induction false} LeDecodeInjective(a: seq<Byte>, b: seq<Byte>)
    requires |a| == |b| && LeDecode(a) == LeDecode(b)
    ensures a == b
  {
    if a != [] {
      assert a[0] == LeDecode(a) % 256 && b[0] == LeDecode(b) % 256;
      LeDecodeInjective(a[1..], b[1..]);
      assert a == [a[0]] + a[1..] && b == [b[0]] + b[1..];
    }
  }

  // ----- The primitives -----

  /** The group, its 32-byte encoding, the one hash function (Blake2b512), the two ways a digest becomes
      a scalar or a point, and the three hashes built from them. */
  datatype Suite<!P> = Suite(
    group: Group<P>,
    compress: P -> seq<Byte>,
    decompress: seq<Byte> -> Option<P>,
    blake: seq<Byte> -> seq<Byte>,
    toScalar: seq<Byte> -> nat,
    toPoint: seq<Byte> -> P,
    hashToPoint: P -> P,
    ringBinding: (seq<Bytes32>, Bytes32) -> seq<Byte>,
    challenge: (seq<Byte>, seq<Byte>, P, P) -> nat)

  const HASH_TO_POINT_TAG: string := "SubtensorBLSAG_hash_to_point"
  const CHALLENGE_TAG: string := "SubtensorBLSAG_challenge"
  const RING_BINDING_TAG: string := "SubtensorBLSAG_ring_binding"

  function Concat(ring: seq<Bytes32>): seq<Byte> {
    if ring == [] then [] else Concat(ring[..|ring| - 1]) + ring[|ring| - 1]
  }

  function BindingInput(ring: seq<Bytes32>, keyImage: Bytes32): seq<Byte> {
    Utf8(RING_BINDING_TAG) + Concat(ring) + keyImage
  }

  function ChallengeInput<P>(s: Suite<P>, binding: seq<Byte>, message: seq<Byte>, l0: P, l1: P): seq<Byte> {
    Utf8(CHALLENGE_TAG) + binding + message + s.compress(l0) + s.compress(l1)
  }

  function ChallengeHash<P>(s: Suite<P>, input: seq<Byte>): nat { s.toScalar(s.blake(input)) }

  /** How each hash is made: a tag of its own, then fixed-width fields around the message. */
  predicate HashToPointIs<P(==)>(s: Suite<P>, p: P) {
    s.hashToPoint(p) == s.toPoint(s.blake(Utf8(HASH_TO_POINT_TAG) + s.compress(p)))
  }

  predicate RingBindingIs<P>(s: Suite<P>, ring: seq<Bytes32>, keyImage: Bytes32) {
    s.ringBinding(ring, keyImage) == s.blake(BindingInput(ring, keyImage))
  }

  predicate ChallengeIs<P>(s: Suite<P>, binding: seq<Byte>, message: seq<Byte>, l0: P, l1: P) {
    s.challenge(binding, message, l0, l1) == ChallengeHash(s, ChallengeInput(s, binding, message, l0, l1))
  }

  ghost predicate HashesDefined<P(!new)>(s: Suite<P>) {
    && (forall p {:trigger HashToPointIs(s, p)} :: HashToPointIs(s, p))
    && (forall ring, keyImage {:trigger RingBindingIs(s, ring, keyImage)} :: RingBindingIs(s, ring, keyImage))
    && (forall b, m, l0, l1 {:trigger ChallengeIs(s, b, m, l0, l1)} :: ChallengeIs(s, b, m, l0, l1))
  }

  /** The encoding is canonical, the identity is the all-zero string, digests are 64 bytes. */
  ghost predicate EncodingsCanonical<P(!new)>(s: Suite<P>) {
    && s.group.order <= Pow256(32)
    && (forall p {:trigger s.compress(p)} :: |s.compress(p)| == 32 && s.decompress(s.compress(p)) == Some(p))
    && (forall b {:trigger s.decompress(b)} :: s.decompress(b).Some? ==> s.compress(s.decompress(b).value) == b)
    && s.compress(s.group.zero) == IDENTITY
    && (forall b {:trigger s.blake(b)} :: |s.blake(b)| == 64)
    && (forall b {:trigger s.toScalar(b)} :: s.toScalar(b) < s.group.order)
  }

  ghost predicate LawfulSuite<P(!new)>(s: Suite<P>) {
    Lawful(s.group) && EncodingsCanonical(s) && HashesDefined(s)
  }

  datatype BlsagError =
    | RingTooSmall
    | InvalidKeyImage
    | InvalidRingMember
    | InvalidScalar
    | ResponseCountMismatch
    | SignerNotInRing

  datatype Result<+T> = Ok(value: T) | Err(error: BlsagError)

  datatype Signature = Signature(challenge: Bytes32, responses: seq<Bytes32>, keyImage: Bytes32)

  function DeserializeScalar<P>(s: Suite<P>, bytes: Bytes32): Option<nat> {
    if LeDecode(bytes) < s.group.order then Some(LeDecode(bytes)) else None
  }

  lemma ConcatStep(ring: seq<Bytes32>, i: nat)
    requires i < |ring|
    ensures Concat(ring[..i + 1]) == Concat(ring[..i]) + ring[i]
  {
    assert ring[..i + 1][..i] == ring[..i];
  }

  lemma AppendAssociative<T>(a: seq<T>, b: seq<T>, c: seq<T>)
    ensures a + b + c == a + (b + c)
  {}

  /** Feeding the ring members to a hasher that has already absorbed `prefix`. */
  method AbsorbRing(prefix: seq<Byte>, ring: seq<Bytes32>) returns (absorbed: seq<Byte>)
    ensures absorbed == prefix + Concat(ring)
  {
    absorbed := prefix;
    for i := 0 to |ring|
      invariant absorbed == prefix + Concat(ring[..i])
    {
      ConcatStep(ring, i);
      AppendAssociative(prefix, Concat(ring[..i]), ring[i]);
      absorbed := absorbed + ring[i];
    }
    assert ring[..|ring|] == ring;
  }

  method ComputeRingBinding<P(!new)>(s: Suite<P>, ring: seq<Bytes32>, keyImage: Bytes32) returns (digest: seq<Byte>)
    requires HashesDefined(s)
    ensures digest == s.ringBinding(ring, keyImage)
  {
    assert RingBindingIs(s, ring, keyImage);
    var absorbed := AbsorbRing(Utf8(RING_BINDING_TAG), ring);
    digest := s.blake(absorbed + keyImage);
  }

  /** `K_tilde = k * Hp(kG)`. */
  function ImageOf<P>(s: Suite<P>, k: nat): P {
    s.group.mul(k, s.hashToPoint(s.group.mul(k, s.group.base)))
  }

  function AsBytes32(b: seq<Byte>): Bytes32 { if |b| == 32 then b else IDENTITY }

  function GenerateKeyImage<P>(s: Suite<P>, privateKey: Bytes32): Result<Bytes32> {
    match DeserializeScalar(s, privateKey)
    case None => Err(InvalidScalar)
    case Some(k) => Ok(AsBytes32(s.compress(ImageOf(s, k))))
  }

  function Link(keyImage1: Bytes32, keyImage2: Bytes32): bool { keyImage1 == keyImage2 }

  // ----- Ring members -----

  predicate GoodMember<P>(s: Suite<P>, bytes: Bytes32) {
    bytes != IDENTITY && s.decompress(bytes).Some?
  }

  function DecodeRing<P>(s: Suite<P>, ring: seq<Bytes32>): (r: Option<seq<P>>)
    ensures r.Some? <==> forall i :: 0 <= i < |ring| ==> GoodMember(s, ring[i])
    ensures r.Some? ==> |r.value| == |ring| && forall i :: 0 <= i < |ring| ==> Some(r.value[i]) == s.decompress(ring[i])
  {
    if ring == [] then Some([])
    else
      var n := |ring| - 1;
      assert forall i :: 0 <= i < n ==> ring[..n][i] == ring[i];
      match DecodeRing(s, ring[..n])
      case None => None
      case Some(points) => if GoodMember(s, ring[n]) then Some(points + [s.decompress(ring[n]).value]) else None
  }

  lemma MembersNotIdentity<P(!new)>(s: Suite<P>, ring: seq<Bytes32>)
    requires LawfulSuite(s) && DecodeRing(s, ring).Some?
    ensures forall i :: 0 <= i < |ring| ==> DecodeRing(s, ring).value[i] != s.group.zero
  {
    var points := DecodeRing(s, ring).value;
    forall i | 0 <= i < |ring| ensures points[i] != s.group.zero {
      assert GoodMember(s, ring[i]);
      assert s.compress(points[i]) == ring[i];
    }
  }

  function DecodeScalars<P>(s: Suite<P>, xs: seq<Bytes32>): (r: Option<seq<nat>>)
    ensures r.Some? <==> forall i :: 0 <= i < |xs| ==> LeDecode(xs[i]) < s.group.order
    ensures r.Some? ==> |r.value| == |xs| && forall i :: 0 <= i < |xs| ==> r.value[i] == LeDecode(xs[i])
  {
    if xs == [] then Some([])
    else
      var n := |xs| - 1;
      assert forall i :: 0 <= i < n ==> xs[..n][i] == xs[i];
      match DecodeScalars(s, xs[..n])
      case None => None
      case Some(rest) => if LeDecode(xs[n]) < s.group.order then Some(rest + [LeDecode(xs[n])]) else None
  }

  // ----- Verification -----

  /** Everything a challenge chain is computed from, apart from the responses. */
  datatype Statement<!P> = Statement(points: seq<P>, image: P, binding: seq<Byte>, message: seq<Byte>)

  /** `r*Q + c*K`: the commitment with base `Q`. */
  function Commit<P>(g: Group<P>, r: int, q: P, c: int, k: P): P { g.add(g.mul(r, q), g.mul(c, k)) }

  /** The challenge after member `i`, from its response and its challenge. */
  function Next<P>(s: Suite<P>, st: Statement<P>, i: nat, r: nat, c: nat): nat
    requires i < |st.points|
  {
    s.challenge(st.binding, st.message,
                Commit(s.group, r, s.group.base, c, st.points[i]),
                Commit(s.group, r, s.hashToPoint(st.points[i]), c, st.image))
  }

  /** The challenge in front of member `j`, recomputed from `c0`. */
  function Chain<P>(s: Suite<P>, st: Statement<P>, rs: seq<nat>, c0: nat, j: nat): nat
    requires j <= |rs| == |st.points|
  {
    if j == 0 then c0 else Next(s, st, j - 1, rs[j - 1], Chain(s, st, rs, c0, j - 1))
  }

  function VerifySpec<P>(s: Suite<P>, sig: Signature, ring: seq<Bytes32>, message: seq<Byte>): Result<bool> {
    if |ring| < 2 then Err(RingTooSmall)
    else if |sig.responses| != |ring| then Err(ResponseCountMismatch)
    else if sig.keyImage == IDENTITY || s.decompress(sig.keyImage).None? then Err(InvalidKeyImage)
    else if DecodeRing(s, ring).None? then Err(InvalidRingMember)
    else if DeserializeScalar(s, sig.challenge).None? || DecodeScalars(s, sig.responses).None? then Err(InvalidScalar)
    else
      var st := StatementOf(s, sig.keyImage, ring, message);
      var c0 := LeDecode(sig.challenge);
      Ok(Chain(s, st, DecodeScalars(s, sig.responses).value, c0, |ring|) == c0)
  }

  function StatementOf<P>(s: Suite<P>, keyImage: Bytes32, ring: seq<Bytes32>, message: seq<Byte>): Statement<P>
    requires s.decompress(keyImage).Some? && DecodeRing(s, ring).Some?
  {
    Statement(DecodeRing(s, ring).value, s.decompress(keyImage).value, s.ringBinding(ring, keyImage), message)
  }

  /** One step of either walk: both commitments, then their challenge. */
  method StepChallenge<P>(s: Suite<P>, st: Statement<P>, i: nat, r: nat, c: nat) returns (next: nat)
    requires i < |st.points|
    ensures next == Next(s, st, i, r, c)
  {
    var hp := s.hashToPoint(st.points[i]);
    var l0 := Commit(s.group, r, s.group.base, c, st.points[i]);
    var l1 := Commit(s.group, r, hp, c, st.image);
    next := s.challenge(st.binding, st.message, l0, l1);
  }

  /** The loop of `verify`: the chain recomputed from `c0` all the way round. */
  method Recompute<P>(s: Suite<P>, st: Statement<P>, responses: seq<nat>, c0: nat) returns (reconstructed: nat)
    requires |responses| == |st.points|
    ensures reconstructed == Chain(s, st, responses, c0, |responses|)
  {
    reconstructed := c0;
    for j := 0 to |responses|
      invariant reconstructed == Chain(s, st, responses, c0, j)
    {
      reconstructed := StepChallenge(s, st, j, responses[j], reconstructed);
    }
  }

  method Verify<P(!new)>(s: Suite<P>, sig: Signature, ring: seq<Bytes32>, message: seq<Byte>) returns (r: Result<bool>)
    requires HashesDefined(s)
    ensures r == VerifySpec(s, sig, ring, message)
  {
    var n := |ring|;
    if n < 2 { return Err(RingTooSmall); }
    if |sig.responses| != n { return Err(ResponseCountMismatch); }
    if sig.keyImage == IDENTITY { return Err(InvalidKeyImage); }
    var image := s.decompress(sig.keyImage);
    if image.None? { return Err(InvalidKeyImage); }
    var points := DecodeRing(s, ring);
    if points.None? { return Err(InvalidRingMember); }
    var c0 := DeserializeScalar(s, sig.challenge);
    if c0.None? { return Err(InvalidScalar); }
    var responses := DecodeScalars(s, sig.responses);
    if responses.None? { return Err(InvalidScalar); }
    var binding := ComputeRingBinding(s, ring, sig.keyImage);
    var reconstructed := Recompute(s, Statement(points.value, image.value, binding, message), responses.value, c0.value);
    return Ok(reconstructed == c0.value);
  }

  // ----- Signing -----

  /** The index `d` places after `start` on a ring of `n`. */
  function Around(start: nat, d: nat, n: nat): (i: nat)
    requires start < n && d < n
    ensures i < n
  {
    if start + d < n then start + d else start + d - n
  }

  /** How many places `i` is after `start`. */
  function Offset(start: nat, i: nat, n: nat): (d: nat)
    requires start < n && i < n
    ensures d < n && Around(start, d, n) == i
  {
    if i >= start then i - start else i + n - start
  }

  /** `(i + 1) % n`. */
  method Successor(i: nat, n: nat) returns (next: nat)
    requires i < n
    ensures next == if i + 1 < n then i + 1 else 0
  {
    next := (i + 1) % n;
  }

  /** The challenge `d` places after the signer's successor: the signer's commitment hashed, then walked on
      with the random responses. */
  function Walk<P>(s: Suite<P>, st: Statement<P>, rs: seq<nat>, start: nat, first: nat, d: nat): nat
    requires |rs| == |st.points| && start < |rs| && d < |rs|
  {
    if d == 0 then first
    else
      var i := Around(start, d - 1, |rs|);
      Next(s, st, i, rs[i], Walk(s, st, rs, start, first, d - 1))
  }

  function FindSigner<P(==)>(points: seq<P>, key: P): (r: Option<nat>)
    ensures r.Some? ==> r.value < |points| && points[r.value] == key && key !in points[..r.value]
    ensures r.None? <==> key !in points
  {
    if points == [] then None
    else if points[0] == key then Some(0)
    else
      match FindSigner(points[1..], key)
      case None => None
      case Some(i) =>
        assert points[..i + 1] == [points[0]] + points[1..][..i];
        Some(i + 1)
  }

  /** What closes the ring: the signer's position and successor, its secret, and the first challenge. */
  datatype Opening<!P> = Opening(signer: nat, start: nat, k: nat, alpha: nat, st: Statement<P>, first: nat)

  function Open<P(==)>(s: Suite<P>, k: nat, ring: seq<Bytes32>, points: seq<P>, message: seq<Byte>, alpha: nat)
    : Option<Opening<P>>
  {
    match FindSigner(points, s.group.mul(k, s.group.base))
    case None => None
    case Some(signer) =>
      var image := ImageOf(s, k);
      var binding := s.ringBinding(ring, AsBytes32(s.compress(image)));
      var hp := s.hashToPoint(s.group.mul(k, s.group.base));
      var start := if signer + 1 < |points| then signer + 1 else 0;
      Some(Opening(signer, start, k, alpha, Statement(points, image, binding, message),
                   s.challenge(binding, message, s.group.mul(alpha, s.group.base), s.group.mul(alpha, hp))))
  }

  function ChallengeAt<P>(s: Suite<P>, op: Opening<P>, rs: seq<nat>, i: nat): nat
    requires |rs| == |op.st.points| && op.start < |rs| && i < |rs|
  {
    Walk(s, op.st, rs, op.start, op.first, Offset(op.start, i, |rs|))
  }

  /** `alpha - c * k` modulo the order. */
  function Closing(alpha: nat, c: nat, k: nat, order: nat): nat
    requires order > 0
  {
    (alpha - c * k) % order
  }

  function ClosedResponses<P>(s: Suite<P>, op: Opening<P>, rs: seq<nat>): seq<nat>
    requires |rs| == |op.st.points| && op.start < |rs| && op.signer < |rs| && s.group.order > 0
  {
    rs[op.signer := Closing(op.alpha, ChallengeAt(s, op, rs, op.signer), op.k, s.group.order)]
  }

  function ScalarBytes(x: nat): Bytes32 { LeEncode(x, 32) }

  function AllScalarBytes(xs: seq<nat>): (bs: seq<Bytes32>)
    ensures |bs| == |xs| && forall i :: 0 <= i < |xs| ==> bs[i] == ScalarBytes(xs[i])
  {
    seq(|xs|, i requires 0 <= i < |xs| => ScalarBytes(xs[i]))
  }

  /** The signature with nonce `alpha` and random responses `rs`. */
  function SignSpec<P(==)>(s: Suite<P>, privateKey: Bytes32, ring: seq<Bytes32>, message: seq<Byte>,
                           alpha: nat, rs: seq<nat>): Result<Signature>
    requires |rs| == |ring| && s.group.order > 0
  {
    if |ring| < 2 then Err(RingTooSmall)
    else
      match DeserializeScalar(s, privateKey)
      case None => Err(InvalidScalar)
      case Some(k) =>
        match DecodeRing(s, ring)
        case None => Err(InvalidRingMember)
        case Some(points) =>
          match Open(s, k, ring, points, message, alpha)
          case None => Err(SignerNotInRing)
          case Some(op) =>
            Ok(Signature(
                 ScalarBytes(ChallengeAt(s, op, rs, 0)),
                 AllScalarBytes(ClosedResponses(s, op, rs)),
                 AsBytes32(s.compress(op.st.image))))
  }

  /** All the challenges of the walk, in walking order. */
  ghost function Walked<P>(s: Suite<P>, st: Statement<P>, rs: seq<nat>, start: nat, first: nat): (walk: seq<nat>)
    requires |rs| == |st.points| && start < |rs|
    ensures |walk| == |rs| && walk[0] == first
    ensures forall d :: 0 <= d < |rs| ==> walk[d] == Walk(s, st, rs, start, first, d)
    ensures forall d :: 0 < d < |rs| ==>
              walk[d] == Next(s, st, Around(start, d - 1, |rs|), rs[Around(start, d - 1, |rs|)], walk[d - 1])
  {
    seq(|rs|, d requires 0 <= d < |rs| => Walk(s, st, rs, start, first, d))
  }

  /** The walk of `sign`: challenges filled in from the signer's successor round to the signer. */
  method FillChallenges<P>(s: Suite<P>, st: Statement<P>, responses: seq<nat>, secretIndex: nat, first: nat,
                           ghost walk: seq<nat>)
    returns (challenges: array<nat>)
    requires |responses| == |st.points| && secretIndex < |responses|
    requires walk == Walked(s, st, responses, if secretIndex + 1 < |responses| then secretIndex + 1 else 0, first)
    ensures fresh(challenges) && challenges.Length == |responses|
    ensures var start := if secretIndex + 1 < |responses| then secretIndex + 1 else 0;
            forall j :: 0 <= j < |responses| ==> challenges[j] == walk[Offset(start, j, |responses|)]
  {
    var n := |responses|;
    challenges := new nat[n](i => 0);
    var start := Successor(secretIndex, n);
    challenges[start] := first;
    var i := start;
    ghost var d := 0;
    while i != secretIndex
      invariant d < n && i == Around(start, d, n)
      invariant forall j :: 0 <= j < n && Offset(start, j, n) <= d ==> challenges[j] == walk[Offset(start, j, n)]
      decreases n - d
    {
      assert Offset(start, i, n) == d;
      var c := StepChallenge(s, st, i, responses[i], challenges[i]);
      assert c == walk[d + 1];
      i := Successor(i, n);
      challenges[i] := c;
      d := d + 1;
    }
  }

  /** Steps 1 to 3 of signing: find the signer, compute its key image, commit to the nonce. */
  method OpenRing<P(==, !new)>(s: Suite<P>, k: nat, ring: seq<Bytes32>, points: seq<P>, message: seq<Byte>, alpha: nat)
    returns (op: Option<Opening<P>>)
    requires |ring| == |points| && HashesDefined(s)
    ensures op == Open(s, k, ring, points, message, alpha)
  {
    var key := s.group.mul(k, s.group.base);
    var found := FindSigner(points, key);
    if found.None? { return None; }
    var hpSigner := s.hashToPoint(key);
    var image := s.group.mul(k, hpSigner);
    var binding := ComputeRingBinding(s, ring, AsBytes32(s.compress(image)));
    var start := Successor(found.value, |points|);
    var first := s.challenge(binding, message, s.group.mul(alpha, s.group.base), s.group.mul(alpha, hpSigner));
    return Some(Opening(found.value, start, k, alpha, Statement(points, image, binding, message), first));
  }

  method Sign<P(==, !new)>(s: Suite<P>, privateKey: Bytes32, ring: seq<Bytes32>, message: seq<Byte>,
                     alpha: nat, randomResponses: seq<nat>)
    returns (r: Result<Signature>)
    requires |randomResponses| == |ring| && s.group.order > 0 && HashesDefined(s)
    ensures r == SignSpec(s, privateKey, ring, message, alpha, randomResponses)
  {
    var n := |ring|;
    if n < 2 { return Err(RingTooSmall); }
    var scalar := DeserializeScalar(s, privateKey);
    if scalar.None? { return Err(InvalidScalar); }
    var k := scalar.value;
    var points := DecodeRing(s, ring);
    if points.None? { return Err(InvalidRingMember); }
    var found := OpenRing(s, k, ring, points.value, message, alpha);
    if found.None? { return Err(SignerNotInRing); }
    r := CloseRing(s, found.value, randomResponses);
  }

  /** Steps 4 and 5: walk the ring, then overwrite the signer's response. */
  method CloseRing<P>(s: Suite<P>, op: Opening<P>, randomResponses: seq<nat>) returns (r: Result<Signature>)
    requires |randomResponses| == |op.st.points| && op.signer < |randomResponses| && s.group.order > 0
    requires op.start == if op.signer + 1 < |randomResponses| then op.signer + 1 else 0
    ensures r == Ok(Signature(ScalarBytes(ChallengeAt(s, op, randomResponses, 0)),
                              AllScalarBytes(ClosedResponses(s, op, randomResponses)),
                              AsBytes32(s.compress(op.st.image))))
  {
    var n := |randomResponses|;
    ghost var walk := Walked(s, op.st, randomResponses, op.start, op.first);
    var challenges := FillChallenges(s, op.st, randomResponses, op.signer, op.first, walk);
    var responses := new nat[n](i requires 0 <= i < n => randomResponses[i]);
    assert responses[..] == randomResponses;
    responses[op.signer] := Closing(op.alpha, challenges[op.signer], op.k, s.group.order);
    assert responses[..] == ClosedResponses(s, op, randomResponses);
    return Ok(Signature(ScalarBytes(challenges[0]), AllScalarBytes(responses[..]), AsBytes32(s.compress(op.st.image))));
  }
}
