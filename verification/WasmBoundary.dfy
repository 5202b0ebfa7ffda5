/** The hexadecimal boundary between the applications and the signature library
    (packages/ring-sig/wasm/src/lib.rs). */
module WasmBoundary {
  import opened Text
  import opened Wire
  import opened Tally
  import opened Blsag
  import opened BlsagCompleteness

  /** `decode_hex32`: white space around the text is dropped. */
  function DecodeHex32(s: string): (r: Option<Bytes32>)
    ensures r.Some? <==> IsHex32(Trim(s))
  {
    match HexDecode(Trim(s))
    case None => None
    case Some(bytes) => if |bytes| == 32 then Some(bytes) else None
  }

  function DecodeAll(xs: seq<string>): (r: Option<seq<Bytes32>>)
    ensures r.Some? <==> forall i :: 0 <= i < |xs| ==> IsHex32(Trim(xs[i]))
    ensures r.Some? ==> |r.value| == |xs| && forall i :: 0 <= i < |xs| ==> Some(r.value[i]) == DecodeHex32(xs[i])
  {
    if xs == [] then Some([])
    else
      match (DecodeAll(xs[..|xs| - 1]), DecodeHex32(xs[|xs| - 1]))
      case (Some(front), Some(last)) => Some(front + [last])
      case _ => None
  }

  function EncodeAll(bs: seq<Bytes32>): (xs: seq<string>)
    ensures |xs| == |bs| && forall i :: 0 <= i < |bs| ==> xs[i] == HexEncode(bs[i])
  {
    seq(|bs|, i requires 0 <= i < |bs| => HexEncode(bs[i]))
  }

  lemma Hex32RoundTrip(b: Bytes32)
    ensures DecodeHex32(HexEncode(b)) == Some(b) && IsLowerHex32(HexEncode(b))
  {
    HexRoundTrip(b);
    TrimHex(HexEncode(b));
  }

  lemma {:induction false} AllRoundTrip(bs: seq<Bytes32>)
    ensures DecodeAll(EncodeAll(bs)) == Some(bs)
  {
    if bs != [] {
      var n := |bs| - 1;
      AllRoundTrip(bs[..n]);
      assert EncodeAll(bs)[..n] == EncodeAll(bs[..n]);
      Hex32RoundTrip(bs[n]);
      assert bs == bs[..n] + [bs[n]];
    }
  }

  function ToWire(sig: Signature): RingSig {
    RingSig(HexEncode(sig.challenge), EncodeAll(sig.responses), HexEncode(sig.keyImage))
  }

  function FromWire(sig: RingSig): Option<Signature> {
    match (DecodeHex32(sig.challenge), DecodeAll(sig.responses), DecodeHex32(sig.keyImage))
    case (Some(c), Some(rs), Some(i)) => Some(Signature(c, rs, i))
    case _ => None
  }

  lemma WireRoundTrip(sig: Signature)
    ensures FromWire(ToWire(sig)) == Some(sig) && WellFormedSig(ToWire(sig))
  {
    Hex32RoundTrip(sig.challenge);
    Hex32RoundTrip(sig.keyImage);
    AllRoundTrip(sig.responses);
    forall i | 0 <= i < |sig.responses| ensures IsLowerHex32(ToWire(sig).responses[i]) {
      Hex32RoundTrip(sig.responses[i]);
    }
  }

  /** `verify_js`: structural errors throw, a signature that merely does not verify is `false`. */
  function VerifyJs<P>(s: Suite<P>, sig: RingSig, ring: seq<string>, messageHex: string): VerifyOutcome {
    match (FromWire(sig), DecodeAll(ring), HexDecode(Trim(messageHex)))
    case (Some(signature), Some(keys), Some(message)) =>
      (match VerifySpec(s, signature, keys, message)
       case Ok(true) => Valid
       case Ok(false) => Invalid
       case Err(_) => Threw)
    case _ => Threw
  }

  /** `bytes` is what a text holds once white space around it is dropped. */
  ghost predicate Says(text: string, bytes: seq<Byte>) { HexDecode(Trim(text)) == Some(bytes) }

  ghost predicate AllSay(texts: seq<string>, list: seq<Bytes32>) {
    |texts| == |list| && forall i :: 0 <= i < |texts| ==> Says(texts[i], list[i])
  }

  /** The texts of a signature, a ring and a message hold these bytes. */
  ghost predicate InputSays(sig: RingSig, ring: seq<string>, messageHex: string,
                             signature: Signature, keys: seq<Bytes32>, message: seq<Byte>) {
    && Says(sig.challenge, signature.challenge) && AllSay(sig.responses, signature.responses)
    && Says(sig.keyImage, signature.keyImage) && AllSay(ring, keys) && Says(messageHex, message)
  }

  lemma AllSayIff(texts: seq<string>, list: seq<Bytes32>)
    ensures AllSay(texts, list) <==> DecodeAll(texts) == Some(list)
  {
    if AllSay(texts, list) {
      forall i | 0 <= i < |texts| ensures DecodeHex32(texts[i]) == Some(list[i]) {
        assert Says(texts[i], list[i]);
      }
      assert DecodeAll(texts).value == list;
    }
  }

  lemma InputSaysIff(sig: RingSig, ring: seq<string>, messageHex: string,
                      signature: Signature, keys: seq<Bytes32>, message: seq<Byte>)
    ensures InputSays(sig, ring, messageHex, signature, keys, message) <==>
            FromWire(sig) == Some(signature) && DecodeAll(ring) == Some(keys) && HexDecode(Trim(messageHex)) == Some(message)
  {
    AllSayIff(sig.responses, signature.responses);
    AllSayIff(ring, keys);
  }

  /** `verify_js` says what `verify` says about the bytes that the texts hold. */
  lemma VerifyJsIff<P>(s: Suite<P>, sig: RingSig, ring: seq<string>, messageHex: string, answer: bool)
    ensures VerifyJs(s, sig, ring, messageHex) == (if answer then Valid else Invalid) <==>
            exists signature, keys, message ::
              && InputSays(sig, ring, messageHex, signature, keys, message)
              && VerifySpec(s, signature, keys, message) == Ok(answer)
  {
    forall signature, keys, message | InputSays(sig, ring, messageHex, signature, keys, message)
      ensures FromWire(sig) == Some(signature) && DecodeAll(ring) == Some(keys) && HexDecode(Trim(messageHex)) == Some(message)
    {
      InputSaysIff(sig, ring, messageHex, signature, keys, message);
    }
    if VerifyJs(s, sig, ring, messageHex) != Threw {
      InputSaysIff(sig, ring, messageHex, FromWire(sig).value, DecodeAll(ring).value, HexDecode(Trim(messageHex)).value);
    }
  }

  /** The text, trimmed, is hexadecimal for 32 bytes that encode a point other than the identity. */
  ghost predicate EncodesPoint<P>(s: Suite<P>, x: string) { IsHex32(Trim(x)) && GoodMember(s, DecodeHex32(x).value) }

  /** The text, trimmed, is hexadecimal for a canonical scalar. */
  ghost predicate EncodesScalar<P>(s: Suite<P>, x: string) {
    IsHex32(Trim(x)) && LeDecode(DecodeHex32(x).value) < s.group.order
  }

  lemma RingDecodesIff<P>(s: Suite<P>, ring: seq<string>)
    ensures DecodeAll(ring).Some? && DecodeRing(s, DecodeAll(ring).value).Some? <==>
            forall i :: 0 <= i < |ring| ==> EncodesPoint(s, ring[i])
  {
    if DecodeAll(ring).Some? {
      var keys := DecodeAll(ring).value;
      assert forall i :: 0 <= i < |ring| ==> (EncodesPoint(s, ring[i]) <==> GoodMember(s, keys[i]));
    }
  }

  lemma ResponsesDecodeIff<P>(s: Suite<P>, xs: seq<string>)
    ensures DecodeAll(xs).Some? && DecodeScalars(s, DecodeAll(xs).value).Some? <==>
            forall i :: 0 <= i < |xs| ==> EncodesScalar(s, xs[i])
  {
    if DecodeAll(xs).Some? {
      var values := DecodeAll(xs).value;
      assert forall i :: 0 <= i < |xs| ==> (EncodesScalar(s, xs[i]) <==> LeDecode(values[i]) < s.group.order);
    }
  }

  lemma VerifyAnswersIff<P>(s: Suite<P>, sig: Signature, ring: seq<Bytes32>, message: seq<Byte>)
    ensures VerifySpec(s, sig, ring, message).Ok? <==>
            && 2 <= |ring| == |sig.responses| && GoodMember(s, sig.keyImage) && DecodeRing(s, ring).Some?
            && LeDecode(sig.challenge) < s.group.order && DecodeScalars(s, sig.responses).Some?
  {}

  lemma OutcomeIsThrew<P>(s: Suite<P>, sig: RingSig, ring: seq<string>, messageHex: string)
    ensures VerifyJs(s, sig, ring, messageHex) != Threw <==>
            && FromWire(sig).Some? && DecodeAll(ring).Some? && HexDecode(Trim(messageHex)).Some?
            && VerifySpec(s, FromWire(sig).value, DecodeAll(ring).value, HexDecode(Trim(messageHex)).value).Ok?
  {}

  /** A signature that merely does not verify never throws: `verify_js` throws exactly on malformed input. */
  lemma ThrowsIff<P(!new)>(s: Suite<P>, sig: RingSig, ring: seq<string>, messageHex: string)
    ensures VerifyJs(s, sig, ring, messageHex) != Threw <==>
            && 2 <= |ring| == |sig.responses|
            && (forall i :: 0 <= i < |ring| ==> EncodesPoint(s, ring[i]))
            && EncodesPoint(s, sig.keyImage) && EncodesScalar(s, sig.challenge)
            && (forall i :: 0 <= i < |sig.responses| ==> EncodesScalar(s, sig.responses[i]))
            && |Trim(messageHex)| % 2 == 0 && AllHex(Trim(messageHex))
  {
    RingDecodesIff(s, ring);
    ResponsesDecodeIff(s, sig.responses);
    OutcomeIsThrew(s, sig, ring, messageHex);
    if FromWire(sig).Some? && DecodeAll(ring).Some? && HexDecode(Trim(messageHex)).Some? {
      VerifyAnswersIff(s, FromWire(sig).value, DecodeAll(ring).value, HexDecode(Trim(messageHex)).value);
    }
  }

  /** `sign_js`, with the random choices made explicit; `None` stands for a thrown error. */
  function SignJs<P(==)>(s: Suite<P>, sk: string, ring: seq<string>, messageHex: string, alpha: nat, rs: seq<nat>)
    : Option<RingSig>
    requires |rs| == |ring| && s.group.order > 0
  {
    match (DecodeHex32(sk), DecodeAll(ring), HexDecode(Trim(messageHex)))
    case (Some(key), Some(keys), Some(message)) =>
      (match SignSpec(s, key, keys, message, alpha, rs)
       case Ok(sig) => Some(ToWire(sig))
       case Err(_) => None)
    case _ => None
  }

  /** The texts of a signature are its bytes in hexadecimal, field by field. */
  ghost predicate Writes(wire: RingSig, sig: Signature) {
    && wire.challenge == HexEncode(sig.challenge) && wire.keyImage == HexEncode(sig.keyImage)
    && |wire.responses| == |sig.responses|
    && forall i :: 0 <= i < |sig.responses| ==> wire.responses[i] == HexEncode(sig.responses[i])
  }

  /** `sign_js` writes what `sign` makes of the bytes that the texts hold. */
  lemma SignJsIff<P>(s: Suite<P>, sk: string, ring: seq<string>, messageHex: string, alpha: nat, rs: seq<nat>, wire: RingSig)
    requires |rs| == |ring| && s.group.order > 0
    ensures SignJs(s, sk, ring, messageHex, alpha, rs) == Some(wire) <==>
            exists key: Bytes32, keys: seq<Bytes32>, message, sig ::
              && Says(sk, key) && AllSay(ring, keys) && Says(messageHex, message)
              && SignSpec(s, key, keys, message, alpha, rs) == Ok(sig) && Writes(wire, sig)
  {
    forall keys ensures AllSay(ring, keys) <==> DecodeAll(ring) == Some(keys) { AllSayIff(ring, keys); }
    forall sig ensures Writes(wire, sig) <==> wire == ToWire(sig) {
      WritesIff(wire, sig);
    }
    if SignJs(s, sk, ring, messageHex, alpha, rs) == Some(wire) {
      var key, keys, message := DecodeHex32(sk).value, DecodeAll(ring).value, HexDecode(Trim(messageHex)).value;
      var sig := SignSpec(s, key, keys, message, alpha, rs).value;
      assert Says(sk, key) && AllSay(ring, keys) && Says(messageHex, message) && Writes(wire, sig);
    }
  }

  lemma WritesIff(wire: RingSig, sig: Signature)
    ensures Writes(wire, sig) <==> wire == ToWire(sig)
  {
    if Writes(wire, sig) { assert wire.responses == EncodeAll(sig.responses); }
  }

  /** The random choices of an honest signer: one canonical response for each ring member. */
  ghost predicate HonestChoices(order: nat, ring: seq<string>, rs: seq<nat>) {
    |rs| == |ring| && forall i :: 0 <= i < |rs| ==> rs[i] < order
  }

  /** The signer's key does not hash to the identity. */
  ghost predicate GoodSigner<P>(s: Suite<P>, sk: string) {
    DecodeHex32(sk).Some? ==>
      s.hashToPoint(s.group.mul(LeDecode(DecodeHex32(sk).value), s.group.base)) != s.group.zero
  }

  /** What an honest signer sends verifies at the other end of the wire. */
  lemma SignedVerifies<P(!new)>(s: Suite<P>, sk: string, ring: seq<string>, messageHex: string, alpha: nat, rs: seq<nat>)
    requires LawfulSuite(s) && HonestChoices(s.group.order, ring, rs) && GoodSigner(s, sk)
    requires SignJs(s, sk, ring, messageHex, alpha, rs).Some?
    ensures VerifyJs(s, SignJs(s, sk, ring, messageHex, alpha, rs).value, ring, messageHex) == Valid
    ensures WellFormedSig(SignJs(s, sk, ring, messageHex, alpha, rs).value)
    ensures |ring| >= 2
  {
    var key, keys, message := DecodeHex32(sk).value, DecodeAll(ring).value, HexDecode(Trim(messageHex)).value;
    HonestSignatureVerifies(s, key, keys, message, alpha, rs);
    WireRoundTrip(SignSpec(s, key, keys, message, alpha, rs).value);
  }

  /** Whatever a signer signs carries the same key image. */
  lemma SameSignerSameImage<P(!new)>(s: Suite<P>, sk: string, ring1: seq<string>, m1: string, alpha1: nat, rs1: seq<nat>,
                                     ring2: seq<string>, m2: string, alpha2: nat, rs2: seq<nat>)
    requires s.group.order > 0 && |rs1| == |ring1| && |rs2| == |ring2|
    requires SignJs(s, sk, ring1, m1, alpha1, rs1).Some? && SignJs(s, sk, ring2, m2, alpha2, rs2).Some?
    ensures SignJs(s, sk, ring1, m1, alpha1, rs1).value.keyImage == SignJs(s, sk, ring2, m2, alpha2, rs2).value.keyImage
  {
    var key := DecodeHex32(sk).value;
    SignedImage(s, key, DecodeAll(ring1).value, HexDecode(Trim(m1)).value, alpha1, rs1);
    SignedImage(s, key, DecodeAll(ring2).value, HexDecode(Trim(m2)).value, alpha2, rs2);
  }
}
