/** A suite that satisfies every assumption made of the primitives, so none of them contradicts another. */
module SmallSuite {
  import opened Text
  import opened Group
  import opened Blsag

  function CompressResidue(p: Residue): seq<Byte> { LeEncode(p, 32) }

  function DecompressResidue(b: seq<Byte>): Option<Residue> {
    if |b| == 32 && LeDecode(b) < SMALL_PRIME then Some(LeDecode(b)) else None
  }

  function Digest(b: seq<Byte>): seq<Byte> { LeEncode(LeDecode(b), 64) }
  function DigestScalar(b: seq<Byte>): nat { LeDecode(b) % SMALL_PRIME }
  function DigestPoint(b: seq<Byte>): Residue { 1 }

  function HashPoint(p: Residue): Residue { DigestPoint(Digest(Utf8(HASH_TO_POINT_TAG) + CompressResidue(p))) }
  function HashRing(ring: seq<Bytes32>, keyImage: Bytes32): seq<Byte> { Digest(BindingInput(ring, keyImage)) }
  function HashChallenge(b: seq<Byte>, m: seq<Byte>, l0: Residue, l1: Residue): nat {
    DigestScalar(Digest(Utf8(CHALLENGE_TAG) + b + m + CompressResidue(l0) + CompressResidue(l1)))
  }

  function Small(): Suite<Residue> {
    Suite(Residues(), CompressResidue, DecompressResidue, Digest, DigestScalar, DigestPoint,
          HashPoint, HashRing, HashChallenge)
  }

  lemma PowGrows(n: nat)
    requires n >= 1
    ensures Pow256(n) >= 256
  {
    if n > 1 { PowGrows(n - 1); }
  }

  lemma ResidueEncoding(p: Residue)
    ensures DecompressResidue(CompressResidue(p)) == Some(p)
  {
    PowGrows(32);
    LeRoundTrip(p, 32);
  }

  lemma {:induction false} EncodeDecode(b: seq<Byte>)
    ensures LeEncode(LeDecode(b), |b|) == b
  {
    if b != [] {
      EncodeDecode(b[1..]);
      assert b == [b[0]] + b[1..];
    }
  }

  lemma ResidueDecoding(b: seq<Byte>)
    requires DecompressResidue(b).Some?
    ensures CompressResidue(DecompressResidue(b).value) == b
  {
    EncodeDecode(b);
  }

  lemma SmallPoints()
    ensures forall p: Residue :: |CompressResidue(p)| == 32 && DecompressResidue(CompressResidue(p)) == Some(p)
    ensures forall b: seq<Byte> :: DecompressResidue(b).Some? ==> CompressResidue(DecompressResidue(b).value) == b
  {
    forall p: Residue ensures |CompressResidue(p)| == 32 && DecompressResidue(CompressResidue(p)) == Some(p) {
      ResidueEncoding(p);
    }
    forall b: seq<Byte> | DecompressResidue(b).Some? ensures CompressResidue(DecompressResidue(b).value) == b {
      ResidueDecoding(b);
    }
  }

  lemma SmallDigests()
    ensures forall b: seq<Byte> :: |Digest(b)| == 64
    ensures forall b: seq<Byte> :: DigestScalar(b) < SMALL_PRIME
  {}

  lemma SmallEncodings()
    ensures EncodingsCanonical(Small())
  {
    PowGrows(32);
    SmallPoints();
    SmallDigests();
    var s := Small();
    assert s.compress == CompressResidue && s.decompress == DecompressResidue;
    assert s.blake == Digest && s.toScalar == DigestScalar;
    assert s.group.order == SMALL_PRIME;
    assert s.compress(s.group.zero) == IDENTITY;
    forall p: Residue ensures |s.compress(p)| == 32 && s.decompress(s.compress(p)) == Some(p) {
      assert s.compress(p) == CompressResidue(p);
      assert s.decompress(CompressResidue(p)) == DecompressResidue(CompressResidue(p));
    }
  }

  lemma SmallHashes()
    ensures HashesDefined(Small())
  {
    forall p: Residue ensures HashToPointIs(Small(), p) {}
    forall b, m, l0: Residue, l1: Residue ensures ChallengeIs(Small(), b, m, l0, l1) {}
  }

  /** The assumptions about the primitives are consistent. */
  lemma SmallIsLawful()
    ensures LawfulSuite(Small())
  {
    ResiduesLawful();
    SmallEncodings();
    SmallHashes();
  }
}
