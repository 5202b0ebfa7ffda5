/** What two accepting transcripts give away (packages/ring-sig/vendored/blsag/src/lib.rs). Colliding
    strings exist for every hash into scalars; each result here ends in a secret scalar or in a collision of
    two inputs that the verifier itself hashes on the given transcripts. */
module BlsagSoundness {
  import opened Text
  import opened Group
  import opened Blsag
  import opened BlsagCompleteness

  predicate ChallengeCollision<P>(s: Suite<P>, x: seq<Byte>, y: seq<Byte>) {
    x != y && ChallengeHash(s, x) == ChallengeHash(s, y)
  }

  /** `x` is the secret behind ring member `j`, and the key image is its image. */
  ghost predicate SecretOf<P>(s: Suite<P>, st: Statement<P>, j: nat, x: nat) {
    && j < |st.points|
    && st.points[j] == s.group.mul(x, s.group.base)
    && st.image == s.group.mul(x, s.hashToPoint(st.points[j]))
  }

  /** The scalar is the difference of two responses over the difference of the challenges they answer. */
  predicate Divides(order: nat, x: nat, r: nat, c: nat, r': nat, c': nat)
    requires order > 0
  {
    x < order && c != c' && (x * (c' - c)) % order == (r - r') % order
  }

  /** Either the two chains hash different inputs to one challenge at a step, or a member's secret is out. */
  datatype Fork = Collision(step: nat) | Secret(member: nat, scalar: nat)

  // ----- Group algebra -----

  lemma Shuffle<P(!new)>(g: Group<P>, w: P, x: P, y: P, z: P)
    requires Lawful(g)
    ensures g.add(g.add(w, x), g.add(y, z)) == g.add(g.add(w, y), g.add(x, z))
  {
    assert AddAssoc(g, w, x, g.add(y, z)) && AddAssoc(g, x, y, z) && AddComm(g, x, y);
    assert AddAssoc(g, y, x, z) && AddAssoc(g, w, y, g.add(x, z));
  }

  /** Equal commitments: the difference of the responses answers the difference of the challenges. */
  lemma EqualCommits<P(!new)>(g: Group<P>, r: int, c: int, r': int, c': int, q: P, k: P)
    requires Lawful(g) && Commit(g, r, q, c, k) == Commit(g, r', q, c', k)
    ensures g.mul(r - r', q) == g.mul(c' - c, k)
  {
    var a, b, a', b' := g.mul(r, q), g.mul(c, k), g.mul(r', q), g.mul(c', k);
    var na', nb := g.mul(-r', q), g.mul(-c, k);
    var y := g.add(na', nb);
    assert MulSum(g, r, -r', q) && r + -r' == r - r';
    assert MulSum(g, c', -c, k) && c' + -c == c' - c;
    assert MulSum(g, r', -r', q) && MulSum(g, c, -c, k) && r' + -r' == 0 && c + -c == 0;
    MulZeroScalar(g, q);
    MulZeroScalar(g, k);
    Shuffle(g, a, b, na', nb);
    Shuffle(g, a', b', na', nb);
    assert g.add(a', na') == g.zero && g.add(b, nb) == g.zero;
    ZeroAdd(g, g.add(a, na'));
    ZeroAdd(g, g.add(b', nb));
    assert g.add(g.add(a, b), y) == g.add(g.add(a', b'), y);
  }

  lemma SolveFor<P(!new)>(g: Group<P>, d: int, i: int, e: int, q: P, k: P)
    requires Lawful(g) && (d * i) % g.order == 1 && g.mul(e, q) == g.mul(d, k)
    ensures k == g.mul((i * e) % g.order, q)
  {
    assert MulOne(g, k);
    MulMod(g, d * i, k);
    assert d * i == i * d;
    assert MulMul(g, i, d, k) && MulMul(g, i, e, q);
    MulMod(g, i * e, q);
  }

  /** The quotient of two scalars, times the divisor. */
  lemma Quotient(l: nat, d: int, i: int, e: int)
    requires l > 0 && (d * i) % l == 1
    ensures (((i * e) % l) * d) % l == e % l
  {
    var q, k := (i * e) / l, (d * i) / l;
    assert i * e == l * q + (i * e) % l && d * i == l * k + 1;
    calc {
      ((i * e) % l) * d;
      (i * e - l * q) * d;
      { RegroupQuotient(l, d, i, e, q); }
      (d * i) * e - l * (q * d);
      (l * k + 1) * e - l * (q * d);
      { CollectMultiples(l, k, e, q * d); }
      l * (k * e - q * d) + e;
    }
    AddMultiple(l, k * e - q * d, e);
  }

  lemma RegroupQuotient(l: int, d: int, i: int, e: int, q: int)
    ensures (i * e - l * q) * d == (d * i) * e - l * (q * d)
  {
    assert (i * e) * d == (d * i) * e && (l * q) * d == l * (q * d);
  }

  lemma CollectMultiples(l: int, k: int, e: int, m: int)
    ensures (l * k + 1) * e - l * m == l * (k * e - m) + e
  {
    assert (l * k) * e == l * (k * e) && l * (k * e - m) == l * (k * e) - l * m;
  }

  lemma AddMultiple(l: nat, k: int, e: int)
    requires l > 0
    ensures (l * k + e) % l == e % l
  {
    assert l * k + e == l * (k + e / l) + e % l;
    ModIs(l, k + e / l, e % l);
  }

  lemma DifferentScalars(l: nat, a: nat, b: nat)
    requires a < l && b < l && a != b
    ensures (a - b) % l != 0
  {
    if a > b { ModIs(l, 0, a - b); } else { ModIs(l, -1, a - b + l); }
  }

  // ----- One step of the chain -----

  function StepInput<P>(s: Suite<P>, st: Statement<P>, i: nat, r: nat, c: nat): seq<Byte>
    requires i < |st.points|
  {
    ChallengeInput(s, st.binding, st.message,
                   Commit(s.group, r, s.group.base, c, st.points[i]),
                   Commit(s.group, r, s.hashToPoint(st.points[i]), c, st.image))
  }

  lemma NextHashesInput<P(!new)>(s: Suite<P>, st: Statement<P>, i: nat, r: nat, c: nat)
    requires HashesDefined(s) && i < |st.points|
    ensures Next(s, st, i, r, c) == ChallengeHash(s, StepInput(s, st, i, r, c))
  {
    assert ChallengeIs(s, st.binding, st.message,
                       Commit(s.group, r, s.group.base, c, st.points[i]),
                       Commit(s.group, r, s.hashToPoint(st.points[i]), c, st.image));
  }

  lemma CompressInjective<P(!new)>(s: Suite<P>, p: P, q: P)
    requires EncodingsCanonical(s) && s.compress(p) == s.compress(q)
    ensures p == q
  {
    assert s.decompress(s.compress(p)) == Some(p) && s.decompress(s.compress(q)) == Some(q);
  }

  lemma SplitTail<T>(a: seq<T>, x: seq<T>, y: seq<T>, b: seq<T>, u: seq<T>, v: seq<T>)
    requires |x| == |u| && |y| == |v| && a + x + y == b + u + v
    ensures a == b && x == u && y == v
  {
    var l, r := a + x + y, b + u + v;
    assert |a| == |b|;
    assert l[..|a|] == a && r[..|b|] == b;
    assert l[|a|..|a| + |x|] == x && r[|b|..|b| + |u|] == u;
    assert l[|a| + |x|..] == y && r[|b| + |u|..] == v;
  }

  /** The last 64 bytes of the hash input are the two commitments. */
  lemma InputFixesCommits<P(!new)>(s: Suite<P>, st: Statement<P>, i: nat, r: nat, c: nat, r': nat, c': nat)
    requires EncodingsCanonical(s) && i < |st.points|
    requires StepInput(s, st, i, r, c) == StepInput(s, st, i, r', c')
    ensures Commit(s.group, r, s.group.base, c, st.points[i]) == Commit(s.group, r', s.group.base, c', st.points[i])
    ensures Commit(s.group, r, s.hashToPoint(st.points[i]), c, st.image) ==
            Commit(s.group, r', s.hashToPoint(st.points[i]), c', st.image)
  {
    var l0, m0 := Commit(s.group, r, s.group.base, c, st.points[i]), Commit(s.group, r', s.group.base, c', st.points[i]);
    var hp := s.hashToPoint(st.points[i]);
    var l1, m1 := Commit(s.group, r, hp, c, st.image), Commit(s.group, r', hp, c', st.image);
    var head := Utf8(CHALLENGE_TAG) + st.binding + st.message;
    SplitTail(head, s.compress(l0), s.compress(l1), head, s.compress(m0), s.compress(m1));
    CompressInjective(s, l0, m0);
    CompressInjective(s, l1, m1);
  }

  lemma SameChallengeSameResponse<P(!new)>(g: Group<P>, r: nat, r': nat, c: nat, k: P)
    requires Lawful(g) && r < g.order && r' < g.order
    requires Commit(g, r, g.base, c, k) == Commit(g, r', g.base, c, k)
    ensures r == r'
  {
    EqualCommits(g, r, c, r', c, g.base, k);
    MulZeroScalar(g, k);
    NoTorsion(g, r - r', g.base);
    if r != r' { DifferentScalars(g.order, r, r'); }
  }

  lemma SameResponseSameChallenge<P(!new)>(g: Group<P>, r: nat, c: nat, c': nat, k: P)
    requires Lawful(g) && c < g.order && c' < g.order && k != g.zero
    requires Commit(g, r, g.base, c, k) == Commit(g, r, g.base, c', k)
    ensures c == c'
  {
    EqualCommits(g, r, c, r, c', g.base, k);
    MulZeroScalar(g, g.base);
    NoTorsion(g, c' - c, k);
    if c != c' { DifferentScalars(g.order, c', c); }
  }

  /** Two answers to two challenges on one pair of commitments give the member's secret. */
  lemma ExtractSecret<P(!new)>(s: Suite<P>, st: Statement<P>, i: nat, r: nat, c: nat, r': nat, c': nat) returns (x: nat)
    requires Lawful(s.group) && i < |st.points| && c < s.group.order && c' < s.group.order && c != c'
    requires Commit(s.group, r, s.group.base, c, st.points[i]) == Commit(s.group, r', s.group.base, c', st.points[i])
    requires Commit(s.group, r, s.hashToPoint(st.points[i]), c, st.image) ==
             Commit(s.group, r', s.hashToPoint(st.points[i]), c', st.image)
    ensures SecretOf(s, st, i, x) && Divides(s.group.order, x, r, c, r', c')
  {
    var g, hp := s.group, s.hashToPoint(st.points[i]);
    EqualCommits(g, r, c, r', c', g.base, st.points[i]);
    EqualCommits(g, r, c, r', c', hp, st.image);
    DifferentScalars(g.order, c', c);
    var inv := Inverse(c' - c, g.order);
    SolveFor(g, c' - c, inv, r - r', g.base, st.points[i]);
    SolveFor(g, c' - c, inv, r - r', hp, st.image);
    Quotient(g.order, c' - c, inv, r - r');
    x := (inv * (r - r')) % g.order;
  }

  /** A fork at member `i`, in terms of the two ways in. */
  ghost predicate StepExplains<P>(s: Suite<P>, st: Statement<P>, i: nat, r: nat, c: nat, r': nat, c': nat, f: Fork) {
    && i < |st.points| && s.group.order > 0
    && match f
       case Collision(j) =>
         j == i && ChallengeCollision(s, StepInput(s, st, i, r, c), StepInput(s, st, i, r', c'))
       case Secret(j, x) =>
         && j == i && StepInput(s, st, i, r, c) == StepInput(s, st, i, r', c')
         && Divides(s.group.order, x, r, c, r', c') && SecretOf(s, st, i, x)
  }

  /** Equal challenges out of one member: equal ways in, a collision of the two hash inputs, or the member's
      secret. */
  lemma StepBack<P(!new)>(s: Suite<P>, st: Statement<P>, i: nat, r: nat, c: nat, r': nat, c': nat)
    returns (f: Option<Fork>)
    requires LawfulSuite(s) && i < |st.points|
    requires r < s.group.order && c < s.group.order && r' < s.group.order && c' < s.group.order
    requires Next(s, st, i, r, c) == Next(s, st, i, r', c')
    ensures f.None? ==> r == r' && c == c'
    ensures f.Some? ==> StepExplains(s, st, i, r, c, r', c', f.value)
  {
    NextHashesInput(s, st, i, r, c);
    NextHashesInput(s, st, i, r', c');
    if StepInput(s, st, i, r, c) != StepInput(s, st, i, r', c') {
      f := Some(Collision(i));
    } else {
      InputFixesCommits(s, st, i, r, c, r', c');
      f := SameCommitsBack(s, st, i, r, c, r', c');
    }
  }

  lemma SameCommitsBack<P(!new)>(s: Suite<P>, st: Statement<P>, i: nat, r: nat, c: nat, r': nat, c': nat)
    returns (f: Option<Fork>)
    requires Lawful(s.group) && i < |st.points|
    requires r < s.group.order && c < s.group.order && r' < s.group.order && c' < s.group.order
    requires Commit(s.group, r, s.group.base, c, st.points[i]) == Commit(s.group, r', s.group.base, c', st.points[i])
    requires Commit(s.group, r, s.hashToPoint(st.points[i]), c, st.image) ==
             Commit(s.group, r', s.hashToPoint(st.points[i]), c', st.image)
    ensures f.None? ==> r == r' && c == c'
    ensures f.Some? ==> f.value.Secret? && f.value.member == i && SecretOf(s, st, i, f.value.scalar)
    ensures f.Some? ==> Divides(s.group.order, f.value.scalar, r, c, r', c')
  {
    if c != c' {
      var x := ExtractSecret(s, st, i, r, c, r', c');
      f := Some(Secret(i, x));
    } else {
      SameChallengeSameResponse(s.group, r, r', c, st.points[i]);
      f := None;
    }
  }

  ghost predicate Canonical(order: nat, xs: seq<nat>) { forall i :: 0 <= i < |xs| ==> xs[i] < order }

  lemma ChainCanonical<P(!new)>(s: Suite<P>, st: Statement<P>, rs: seq<nat>, c0: nat, j: nat)
    requires LawfulSuite(s) && j <= |rs| == |st.points| && c0 < s.group.order
    ensures Chain(s, st, rs, c0, j) < s.group.order
  {
    if j > 0 {
      NextCanonical(s, st, j - 1, rs[j - 1], Chain(s, st, rs, c0, j - 1));
    }
  }

  // ----- Two transcripts -----

  /** The hash input of step `j` of the chain. */
  function ChainInput<P>(s: Suite<P>, st: Statement<P>, rs: seq<nat>, c0: nat, j: nat): seq<Byte>
    requires j < |rs| == |st.points|
  {
    StepInput(s, st, j, rs[j], Chain(s, st, rs, c0, j))
  }

  /** At step `i` the two chains hash different inputs to one challenge. */
  ghost predicate StepsCollide<P>(s: Suite<P>, st: Statement<P>, rs: seq<nat>, rs': seq<nat>, c0: nat, i: nat) {
    && i < |rs| == |rs'| == |st.points|
    && ChallengeCollision(s, ChainInput(s, st, rs, c0, i), ChainInput(s, st, rs', c0, i))
  }

  /** At step `j` the two chains hash the same commitments for different challenges, and `x`, computed from the
      two challenges and the two responses, is the member's secret. */
  ghost predicate StepsExtract<P>(s: Suite<P>, st: Statement<P>, rs: seq<nat>, rs': seq<nat>, c0: nat, j: nat, x: nat) {
    && j < |rs| == |rs'| == |st.points| && s.group.order > 0
    && ChainInput(s, st, rs, c0, j) == ChainInput(s, st, rs', c0, j)
    && Divides(s.group.order, x, rs[j], Chain(s, st, rs, c0, j), rs'[j], Chain(s, st, rs', c0, j))
    && SecretOf(s, st, j, x)
  }

  ghost predicate ForkExplains<P>(s: Suite<P>, st: Statement<P>, rs: seq<nat>, rs': seq<nat>, c0: nat, f: Fork) {
    match f
    case Collision(i) => StepsCollide(s, st, rs, rs', c0, i)
    case Secret(j, x) => StepsExtract(s, st, rs, rs', c0, j, x)
  }

  lemma StepForksChains<P>(s: Suite<P>, st: Statement<P>, rs: seq<nat>, rs': seq<nat>, c0: nat, i: nat, f: Fork)
    requires i < |rs| == |rs'| == |st.points|
    requires StepExplains(s, st, i, rs[i], Chain(s, st, rs, c0, i), rs'[i], Chain(s, st, rs', c0, i), f)
    ensures ForkExplains(s, st, rs, rs', c0, f)
  {}

  /** One step back from where two chains meet: a fork, or equal responses and chains that met before. */
  lemma MeetBefore<P(!new)>(s: Suite<P>, st: Statement<P>, rs: seq<nat>, rs': seq<nat>, c0: nat, i: nat)
    returns (f: Option<Fork>)
    requires LawfulSuite(s) && i < |rs| == |rs'| == |st.points| && c0 < s.group.order
    requires rs[i] < s.group.order && rs'[i] < s.group.order
    requires Chain(s, st, rs, c0, i + 1) == Chain(s, st, rs', c0, i + 1)
    ensures f.None? ==> rs[i] == rs'[i] && Chain(s, st, rs, c0, i) == Chain(s, st, rs', c0, i)
    ensures f.Some? ==> ForkExplains(s, st, rs, rs', c0, f.value)
  {
    ChainCanonical(s, st, rs, c0, i);
    ChainCanonical(s, st, rs', c0, i);
    f := StepBack(s, st, i, rs[i], Chain(s, st, rs, c0, i), rs'[i], Chain(s, st, rs', c0, i));
    if f.Some? { StepForksChains(s, st, rs, rs', c0, i, f.value); }
  }

  /** Chains that meet at `j` after different responses part somewhere on the way. */
  lemma {:induction false} LastParting<P>(s: Suite<P>, st: Statement<P>, rs: seq<nat>, rs': seq<nat>, c0: nat, j: nat, d: nat)
    returns (i: nat)
    requires d < j <= |rs| == |rs'| == |st.points| && rs[d] != rs'[d]
    requires Chain(s, st, rs, c0, j) == Chain(s, st, rs', c0, j)
    ensures d <= i < j && Chain(s, st, rs, c0, i + 1) == Chain(s, st, rs', c0, i + 1)
    ensures rs[i] != rs'[i] || Chain(s, st, rs, c0, i) != Chain(s, st, rs', c0, i)
    decreases j
  {
    if rs[j - 1] != rs'[j - 1] || Chain(s, st, rs, c0, j - 1) != Chain(s, st, rs', c0, j - 1) {
      i := j - 1;
    } else {
      i := LastParting(s, st, rs, rs', c0, j - 1, d);
    }
  }

  /** Walking back from where they meet, the step after which they stay together explains it. */
  lemma WalkBack<P(!new)>(s: Suite<P>, st: Statement<P>, rs: seq<nat>, rs': seq<nat>, c0: nat, j: nat, d: nat)
    returns (f: Fork)
    requires LawfulSuite(s) && d < j <= |rs| == |rs'| == |st.points| && c0 < s.group.order
    requires Canonical(s.group.order, rs) && Canonical(s.group.order, rs')
    requires Chain(s, st, rs, c0, j) == Chain(s, st, rs', c0, j)
    requires rs[d] != rs'[d]
    ensures ForkExplains(s, st, rs, rs', c0, f)
  {
    var i := LastParting(s, st, rs, rs', c0, j, d);
    var fork := MeetBefore(s, st, rs, rs', c0, i);
    f := fork.value;
  }

  /** Special soundness: two accepted signatures over the same statement with the same challenge and key
      image but different responses collide at a step of their own challenge chains, or answer two challenges for one
      pair of commitments there, and the quotient of the differences is a ring member's secret key with the
      signature's key image as its image. */
  lemma TwoSignaturesExtract<P(!new)>(s: Suite<P>, ring: seq<Bytes32>, message: seq<Byte>, a: Signature, b: Signature)
    returns (f: Fork)
    requires LawfulSuite(s)
    requires VerifySpec(s, a, ring, message) == Ok(true) && VerifySpec(s, b, ring, message) == Ok(true)
    requires a.challenge == b.challenge && a.keyImage == b.keyImage && a.responses != b.responses
    ensures s.decompress(a.keyImage).Some? && DecodeRing(s, ring).Some?
    ensures DecodeScalars(s, a.responses).Some? && DecodeScalars(s, b.responses).Some?
    ensures ForkExplains(s, StatementOf(s, a.keyImage, ring, message), DecodeScalars(s, a.responses).value,
                         DecodeScalars(s, b.responses).value, LeDecode(a.challenge), f)
  {
    Accepted(s, a, ring, message);
    Accepted(s, b, ring, message);
    var st := StatementOf(s, a.keyImage, ring, message);
    var rs, rs' := DecodeScalars(s, a.responses).value, DecodeScalars(s, b.responses).value;
    var d := DifferentResponses(s, a.responses, b.responses);
    f := WalkBack(s, st, rs, rs', LeDecode(a.challenge), |ring|, d);
  }

  lemma DifferentResponses<P>(s: Suite<P>, xs: seq<Bytes32>, ys: seq<Bytes32>) returns (d: nat)
    requires |xs| == |ys| && xs != ys && DecodeScalars(s, xs).Some? && DecodeScalars(s, ys).Some?
    ensures d < |xs| && DecodeScalars(s, xs).value[d] != DecodeScalars(s, ys).value[d]
  {
    d :| 0 <= d < |xs| && xs[d] != ys[d];
    if LeDecode(xs[d]) == LeDecode(ys[d]) {
      LeDecodeInjective(xs[d], ys[d]);
    }
  }

  // ----- Exactly one response changed -----

  lemma {:induction false} SamePrefixSameChain<P>(s: Suite<P>, st: Statement<P>, rs: seq<nat>, rs': seq<nat>, c0: nat, j: nat)
    requires j <= |rs| == |rs'| == |st.points|
    requires forall i :: 0 <= i < j ==> rs[i] == rs'[i]
    ensures Chain(s, st, rs, c0, j) == Chain(s, st, rs', c0, j)
  {
    if j > 0 {
      SamePrefixSameChain(s, st, rs, rs', c0, j - 1);
    }
  }

  /** With one of response and challenge changed, the hash input changes: ring members are not the identity. */
  lemma InputChanges<P(!new)>(s: Suite<P>, st: Statement<P>, i: nat, r: nat, c: nat, r': nat, c': nat)
    requires LawfulSuite(s) && i < |st.points| && st.points[i] != s.group.zero
    requires r < s.group.order && c < s.group.order && r' < s.group.order && c' < s.group.order
    requires (r != r' && c == c') || (r == r' && c != c')
    ensures StepInput(s, st, i, r, c) != StepInput(s, st, i, r', c')
  {
    if StepInput(s, st, i, r, c) == StepInput(s, st, i, r', c') {
      InputFixesCommits(s, st, i, r, c, r', c');
      if c == c' {
        SameChallengeSameResponse(s.group, r, r', c, st.points[i]);
      } else {
        SameResponseSameChallenge(s.group, r, c, c', st.points[i]);
      }
    }
  }

  lemma ChainHashesInput<P(!new)>(s: Suite<P>, st: Statement<P>, rs: seq<nat>, c0: nat, j: nat)
    requires HashesDefined(s) && j < |rs| == |st.points|
    ensures Chain(s, st, rs, c0, j + 1) == ChallengeHash(s, ChainInput(s, st, rs, c0, j))
  {
    NextHashesInput(s, st, j, rs[j], Chain(s, st, rs, c0, j));
  }

  ghost predicate TwoChains<P(!new)>(s: Suite<P>, st: Statement<P>, rs: seq<nat>, rs': seq<nat>, c0: nat) {
    && |rs| == |rs'| == |st.points| && c0 < s.group.order
    && Canonical(s.group.order, rs) && Canonical(s.group.order, rs')
    && (forall i :: 0 <= i < |st.points| ==> st.points[i] != s.group.zero)
  }

  lemma ApartStaysApart<P(!new)>(s: Suite<P>, st: Statement<P>, rs: seq<nat>, rs': seq<nat>, c0: nat, j: nat)
    requires LawfulSuite(s) && TwoChains(s, st, rs, rs', c0) && j < |rs| && rs[j] == rs'[j]
    requires Chain(s, st, rs, c0, j) != Chain(s, st, rs', c0, j)
    ensures ChainInput(s, st, rs, c0, j) != ChainInput(s, st, rs', c0, j)
  {
    ChainCanonical(s, st, rs, c0, j);
    ChainCanonical(s, st, rs', c0, j);
    InputChanges(s, st, j, rs[j], Chain(s, st, rs, c0, j), rs'[j], Chain(s, st, rs', c0, j));
  }

  /** The hash inputs of a whole chain, and its challenges. */
  ghost function Inputs<P(!new)>(s: Suite<P>, st: Statement<P>, rs: seq<nat>, c0: nat): (xs: seq<seq<Byte>>)
    requires |rs| == |st.points|
    ensures |xs| == |rs| && forall j :: 0 <= j < |rs| ==> xs[j] == ChainInput(s, st, rs, c0, j)
  {
    seq(|rs|, j requires 0 <= j < |rs| => ChainInput(s, st, rs, c0, j))
  }

  ghost function Challenges<P(!new)>(s: Suite<P>, st: Statement<P>, rs: seq<nat>, c0: nat): (cs: seq<nat>)
    requires |rs| == |st.points|
    ensures |cs| == |rs| + 1 && forall j :: 0 <= j <= |rs| ==> cs[j] == Chain(s, st, rs, c0, j)
  {
    seq(|rs| + 1, j requires 0 <= j <= |rs| => Chain(s, st, rs, c0, j))
  }

  /** Every challenge but the first is the hash of an input. */
  ghost predicate Hashed<P>(s: Suite<P>, xs: seq<seq<Byte>>, cs: seq<nat>) {
    |cs| == |xs| + 1 && forall j :: 0 <= j < |xs| ==> cs[j + 1] == ChallengeHash(s, xs[j])
  }

  lemma ChainIsHashed<P(!new)>(s: Suite<P>, st: Statement<P>, rs: seq<nat>, c0: nat)
    requires LawfulSuite(s) && |rs| == |st.points|
    ensures Hashed(s, Inputs(s, st, rs, c0), Challenges(s, st, rs, c0))
  {
    var xs, cs := Inputs(s, st, rs, c0), Challenges(s, st, rs, c0);
    forall j | 0 <= j < |xs| ensures cs[j + 1] == ChallengeHash(s, xs[j]) {
      ChainHashesInput(s, st, rs, c0, j);
    }
  }

  /** Two chains with different inputs at `j`, whose inputs stay different while their challenges do,
      and which end in the same challenge: from `j` on, some step collides. */
  lemma {:induction false} Rejoin<P>(s: Suite<P>, xs: seq<seq<Byte>>, cs: seq<nat>, ys: seq<seq<Byte>>, ds: seq<nat>, j: nat)
    returns (k: nat)
    requires Hashed(s, xs, cs) && Hashed(s, ys, ds) && |xs| == |ys| && j < |xs|
    requires xs[j] != ys[j] && forall i :: j < i < |xs| && cs[i] != ds[i] ==> xs[i] != ys[i]
    requires cs[|xs|] == ds[|xs|]
    ensures j <= k < |xs| && ChallengeCollision(s, xs[k], ys[k])
    decreases |xs| - j
  {
    if cs[j + 1] == ds[j + 1] {
      k := j;
    } else {
      k := Rejoin(s, xs, cs, ys, ds, j + 1);
    }
  }

  lemma OneChanged<P(!new)>(s: Suite<P>, st: Statement<P>, rs: seq<nat>, rs': seq<nat>, c0: nat, i: nat)
    returns (k: nat)
    requires LawfulSuite(s) && TwoChains(s, st, rs, rs', c0) && i < |rs|
    requires rs[i] != rs'[i] && forall j :: 0 <= j < |rs| && j != i ==> rs[j] == rs'[j]
    requires Chain(s, st, rs, c0, |rs|) == Chain(s, st, rs', c0, |rs|)
    ensures i <= k && StepsCollide(s, st, rs, rs', c0, k)
  {
    var xs, cs := Inputs(s, st, rs, c0), Challenges(s, st, rs, c0);
    var ys, ds := Inputs(s, st, rs', c0), Challenges(s, st, rs', c0);
    ChainIsHashed(s, st, rs, c0);
    ChainIsHashed(s, st, rs', c0);
    ChangedApart(s, st, rs, rs', c0, i);
    forall j | i < j < |rs| && cs[j] != ds[j] ensures xs[j] != ys[j] {
      ApartStaysApart(s, st, rs, rs', c0, j);
    }
    k := Rejoin(s, xs, cs, ys, ds, i);
  }

  lemma ChangedApart<P(!new)>(s: Suite<P>, st: Statement<P>, rs: seq<nat>, rs': seq<nat>, c0: nat, i: nat)
    requires LawfulSuite(s) && TwoChains(s, st, rs, rs', c0) && i < |rs|
    requires rs[i] != rs'[i] && forall j :: 0 <= j < i ==> rs[j] == rs'[j]
    ensures ChainInput(s, st, rs, c0, i) != ChainInput(s, st, rs', c0, i)
  {
    SamePrefixSameChain(s, st, rs, rs', c0, i);
    ChainCanonical(s, st, rs, c0, i);
    InputChanges(s, st, i, rs[i], Chain(s, st, rs, c0, i), rs'[i], Chain(s, st, rs', c0, i));
  }

  /** What acceptance means. */
  lemma Accepted<P(!new)>(s: Suite<P>, sig: Signature, ring: seq<Bytes32>, message: seq<Byte>)
    requires VerifySpec(s, sig, ring, message) == Ok(true)
    ensures s.decompress(sig.keyImage).Some? && DecodeRing(s, ring).Some? && DecodeScalars(s, sig.responses).Some?
    ensures |sig.responses| == |ring| >= 2
    ensures var st, rs := StatementOf(s, sig.keyImage, ring, message), DecodeScalars(s, sig.responses).value;
            var c0 := LeDecode(sig.challenge);
            && |rs| == |st.points| == |ring| && c0 < s.group.order && Canonical(s.group.order, rs)
            && Chain(s, st, rs, c0, |ring|) == c0
            && st.binding == s.ringBinding(ring, sig.keyImage) && st.message == message
  {}

  /** Tampering with response `i` of an accepted signature is accepted only if, at some step from `i` on, the
      verifier hashes different inputs for the two signatures and gets the same challenge. */
  lemma OneResponseChanged<P(!new)>(s: Suite<P>, ring: seq<Bytes32>, message: seq<Byte>, a: Signature, i: nat, r: Bytes32)
    returns (k: nat)
    requires LawfulSuite(s) && i < |a.responses| && a.responses[i] != r
    requires VerifySpec(s, a, ring, message) == Ok(true)
    requires VerifySpec(s, a.(responses := a.responses[i := r]), ring, message) == Ok(true)
    ensures s.decompress(a.keyImage).Some? && DecodeRing(s, ring).Some?
    ensures DecodeScalars(s, a.responses).Some? && DecodeScalars(s, a.responses[i := r]).Some?
    ensures i <= k
    ensures StepsCollide(s, StatementOf(s, a.keyImage, ring, message), DecodeScalars(s, a.responses).value,
                         DecodeScalars(s, a.responses[i := r]).value, LeDecode(a.challenge), k)
  {
    var b := a.(responses := a.responses[i := r]);
    Accepted(s, a, ring, message);
    Accepted(s, b, ring, message);
    var st := StatementOf(s, a.keyImage, ring, message);
    var rs, rs' := DecodeScalars(s, a.responses).value, DecodeScalars(s, b.responses).value;
    MembersNotIdentity(s, ring);
    if rs[i] == rs'[i] { LeDecodeInjective(a.responses[i], r); }
    k := OneChanged(s, st, rs, rs', LeDecode(a.challenge), i);
  }

  // ----- One signature, two statements -----

  /** What the verifier hashes last: the input whose digest is compared with the signature's challenge. */
  ghost function LastInput<P>(s: Suite<P>, sig: Signature, ring: seq<Bytes32>, message: seq<Byte>): seq<Byte>
    requires s.decompress(sig.keyImage).Some? && DecodeRing(s, ring).Some? && DecodeScalars(s, sig.responses).Some?
    requires 0 < |ring| == |sig.responses|
  {
    ChainInput(s, StatementOf(s, sig.keyImage, ring, message), DecodeScalars(s, sig.responses).value,
               LeDecode(sig.challenge), |ring| - 1)
  }

  lemma SplitLast<T>(a: seq<T>, x: seq<T>, b: seq<T>, u: seq<T>)
    requires |x| == |u| && a + x == b + u
    ensures a == b && x == u
  {
    assert (a + x)[..|a|] == a && (b + u)[..|b|] == b;
    assert (a + x)[|a|..] == x && (b + u)[|b|..] == u;
  }

  lemma {:induction false} ConcatInjective(xs: seq<Bytes32>, ys: seq<Bytes32>)
    requires |xs| == |ys| && Concat(xs) == Concat(ys)
    ensures xs == ys
  {
    if xs != [] {
      var n := |xs| - 1;
      SplitLast(Concat(xs[..n]), xs[n], Concat(ys[..n]), ys[n]);
      ConcatInjective(xs[..n], ys[..n]);
      assert xs == xs[..n] + [xs[n]] && ys == ys[..n] + [ys[n]];
    }
  }

  lemma ConcatLength(xs: seq<Bytes32>)
    ensures |Concat(xs)| == 32 * |xs|
  {}

  lemma SplitHead<T>(a: seq<T>, x: seq<T>, y: seq<T>, u: seq<T>, v: seq<T>)
    requires |x| == |u| && a + x + y == a + u + v
    ensures x == u && y == v
  {
    var l, r := a + x + y, a + u + v;
    assert l[|a|..|a| + |x|] == x && r[|a|..|a| + |u|] == u;
    assert l[|a| + |x|..] == y && r[|a| + |u|..] == v;
  }

  /** The fixed widths make a challenge input determine binding and message. */
  lemma InputFixesStatement<P(!new)>(s: Suite<P>, b: seq<Byte>, m: seq<Byte>, l0: P, l1: P,
                                     b': seq<Byte>, m': seq<Byte>, l0': P, l1': P)
    requires EncodingsCanonical(s) && |b| == |b'|
    requires ChallengeInput(s, b, m, l0, l1) == ChallengeInput(s, b', m', l0', l1')
    ensures b == b' && m == m'
  {
    var tag := Utf8(CHALLENGE_TAG);
    SplitTail(tag + b + m, s.compress(l0), s.compress(l1), tag + b' + m', s.compress(l0'), s.compress(l1'));
    SplitHead(tag, b, m, b', m');
  }

  lemma RingsFixBinding(ring: seq<Bytes32>, ring': seq<Bytes32>, keyImage: Bytes32)
    requires |ring| == |ring'| && ring != ring'
    ensures BindingInput(ring, keyImage) != BindingInput(ring', keyImage)
  {
    if BindingInput(ring, keyImage) == BindingInput(ring', keyImage) {
      ConcatLength(ring);
      ConcatLength(ring');
      SplitHead(Utf8(RING_BINDING_TAG), Concat(ring), keyImage, Concat(ring'), keyImage);
      ConcatInjective(ring, ring');
    }
  }

  /** The last inputs the verifier hashes collide, or the binding inputs of two rings do. */
  datatype Clash = LastInputsCollide | BindingsCollide

  /** What an accepted signature's last step is: an input, and the challenge it closes on. */
  lemma LastStep<P(!new)>(s: Suite<P>, sig: Signature, ring: seq<Bytes32>, message: seq<Byte>)
    requires HashesDefined(s) && VerifySpec(s, sig, ring, message) == Ok(true)
    ensures s.decompress(sig.keyImage).Some? && DecodeScalars(s, sig.responses).Some?
    ensures DecodeRing(s, ring).Some? && 0 < |ring| == |sig.responses|
    ensures ChallengeHash(s, LastInput(s, sig, ring, message)) == LeDecode(sig.challenge)
  {
    Accepted(s, sig, ring, message);
    ClosedChain(s, StatementOf(s, sig.keyImage, ring, message), DecodeScalars(s, sig.responses).value,
                LeDecode(sig.challenge), |ring| - 1, LeDecode(sig.challenge));
  }

  lemma ClosedChain<P(!new)>(s: Suite<P>, st: Statement<P>, rs: seq<nat>, c0: nat, n: nat, c: nat)
    requires HashesDefined(s) && n < |rs| == |st.points| && Chain(s, st, rs, c0, n + 1) == c
    ensures ChallengeHash(s, ChainInput(s, st, rs, c0, n)) == c
  {
    ChainHashesInput(s, st, rs, c0, n);
  }

  /** One last input for two statements: the bindings and the messages are the same. */
  lemma SameLastInput<P(!new)>(s: Suite<P>, sig: Signature, ring: seq<Bytes32>, message: seq<Byte>,
                               ring': seq<Bytes32>, message': seq<Byte>)
    requires LawfulSuite(s) && s.decompress(sig.keyImage).Some? && DecodeScalars(s, sig.responses).Some?
    requires DecodeRing(s, ring).Some? && DecodeRing(s, ring').Some? && 0 < |ring| == |ring'| == |sig.responses|
    requires LastInput(s, sig, ring, message) == LastInput(s, sig, ring', message')
    ensures s.ringBinding(ring, sig.keyImage) == s.ringBinding(ring', sig.keyImage) && message == message'
  {
    var st, st' := StatementOf(s, sig.keyImage, ring, message), StatementOf(s, sig.keyImage, ring', message');
    var rs, c0, n := DecodeScalars(s, sig.responses).value, LeDecode(sig.challenge), |ring| - 1;
    BindingLength(s, ring, sig.keyImage);
    BindingLength(s, ring', sig.keyImage);
    SameInputSameStatement(s, st, st', n, rs[n], Chain(s, st, rs, c0, n), Chain(s, st', rs, c0, n));
  }

  /** A signature binds its statement: accepted for two different pairs of ring and message, either the last
      inputs the verifier hashes collide, or the rings differ and their binding inputs collide. */
  lemma StatementBinding<P(!new)>(s: Suite<P>, sig: Signature, ring: seq<Bytes32>, message: seq<Byte>,
                                  ring': seq<Bytes32>, message': seq<Byte>)
    returns (clash: Clash)
    requires LawfulSuite(s) && (ring != ring' || message != message')
    requires VerifySpec(s, sig, ring, message) == Ok(true) && VerifySpec(s, sig, ring', message') == Ok(true)
    ensures s.decompress(sig.keyImage).Some? && DecodeScalars(s, sig.responses).Some?
    ensures DecodeRing(s, ring).Some? && DecodeRing(s, ring').Some? && 0 < |ring| == |ring'| == |sig.responses|
    ensures clash.LastInputsCollide? ==>
              ChallengeCollision(s, LastInput(s, sig, ring, message), LastInput(s, sig, ring', message'))
    ensures clash.BindingsCollide? ==> ring != ring' && BindingCollision(s, ring, ring', sig.keyImage)
  {
    LastStep(s, sig, ring, message);
    LastStep(s, sig, ring', message');
    if LastInput(s, sig, ring, message) != LastInput(s, sig, ring', message') {
      clash := LastInputsCollide;
    } else {
      SameLastInput(s, sig, ring, message, ring', message');
      RingsCollide(s, ring, ring', sig.keyImage);
      clash := BindingsCollide;
    }
  }

  lemma BindingLength<P(!new)>(s: Suite<P>, ring: seq<Bytes32>, keyImage: Bytes32)
    requires LawfulSuite(s)
    ensures |s.ringBinding(ring, keyImage)| == 64
  {
    assert RingBindingIs(s, ring, keyImage);
  }

  lemma RingsCollide<P(!new)>(s: Suite<P>, ring: seq<Bytes32>, ring': seq<Bytes32>, keyImage: Bytes32)
    requires HashesDefined(s) && |ring| == |ring'| && ring != ring'
    requires s.ringBinding(ring, keyImage) == s.ringBinding(ring', keyImage)
    ensures BindingCollision(s, ring, ring', keyImage)
  {
    RingsFixBinding(ring, ring', keyImage);
    assert RingBindingIs(s, ring, keyImage) && RingBindingIs(s, ring', keyImage);
  }

  ghost predicate BindingCollision<P>(s: Suite<P>, ring: seq<Bytes32>, ring': seq<Bytes32>, keyImage: Bytes32) {
    && BindingInput(ring, keyImage) != BindingInput(ring', keyImage)
    && s.blake(BindingInput(ring, keyImage)) == s.blake(BindingInput(ring', keyImage))
  }

  lemma SameInputSameStatement<P(!new)>(s: Suite<P>, st: Statement<P>, st': Statement<P>, i: nat, r: nat, c: nat, c': nat)
    requires EncodingsCanonical(s) && i < |st.points| && i < |st'.points| && |st.binding| == |st'.binding|
    requires StepInput(s, st, i, r, c) == StepInput(s, st', i, r, c')
    ensures st.binding == st'.binding && st.message == st'.message
  {
    InputFixesStatement(s, st.binding, st.message,
                        Commit(s.group, r, s.group.base, c, st.points[i]),
                        Commit(s.group, r, s.hashToPoint(st.points[i]), c, st.image),
                        st'.binding, st'.message,
                        Commit(s.group, r, s.group.base, c', st'.points[i]),
                        Commit(s.group, r, s.hashToPoint(st'.points[i]), c', st'.image));
  }
}
