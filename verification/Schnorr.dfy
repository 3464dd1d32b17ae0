/** Schnorr proofs of knowledge over a group of prime order, with Fiat-Shamir challenges. */
module Schnorr {
  import opened Bytes
  import opened Codecs
  import opened ModArith
  import opened Groups

  /** The field prime and group order of secp256k1, section 2.4.1 of SEC 2. */
  const SECP256K1_P: int := 0xFFFFFFFFFFFFFFFFFFFFFFFFFFFFFFFFFFFFFFFFFFFFFFFFFFFFFFFEFFFFFC2F
  const SECP256K1_N: int := 0xFFFFFFFFFFFFFFFFFFFFFFFFFFFFFFFEBAAEDCE6AF48A03BBFD25E8CD0364141

  const CURVE_B := 7

  /** Field prime, group order, generator and the library's addition and multiplication. */
  datatype Curve = Curve(p: int, n: int, g: Point,
                         add: (Point, Point) -> Point, mul: (Point, int) -> Point)

  /** How the library writes the point at infinity. */
  const INFINITY: Point := (0, 0)

  predicate IsOnCurve(p: int, pt: Point) {
    && 0 <= pt.0 < p && 0 <= pt.1 < p
    && (pt.1 * pt.1 - pt.0 * pt.0 * pt.0 - CURVE_B) % p == 0
  }

  // ---------------------------------------------------------------- the group

  ghost predicate Member(c: Curve, pt: Point) { pt == INFINITY || IsOnCurve(c.p, pt) }

  ghost function GroupOf(c: Curve): Group<Point> {
    Group(INFINITY, c.g, c.n, c.add, pt => Member(c, pt))
  }

  /** The points and infinity form a cyclic group of prime order n generated by g; mul is repeated addition. */
  ghost predicate PrimeOrderCurve(c: Curve) {
    && CURVE_B < c.p <= Pow256(32) && c.n <= Pow256(32)
    && CyclicOfPrimeOrder(GroupOf(c))
    && (forall pt, k {:trigger c.mul(pt, k)} :: Member(c, pt) && k >= 0 ==> c.mul(pt, k) == Times(GroupOf(c), pt, k))
  }

  /** The size hypotheses hold of the secp256k1 parameters. */
  lemma Secp256k1Sizes()
    ensures CURVE_B < SECP256K1_P <= Pow256(32) && 0 < SECP256K1_N <= Pow256(32)
  {
    assert Pow256(2) == 0x10000;
    Pow256Sum(2, 2);
    Pow256Sum(4, 4);
    Pow256Sum(8, 8);
    Pow256Sum(16, 16);
  }

  lemma {:induction false} Pow256Sum(a: nat, b: nat)
    ensures Pow256(a + b) == Pow256(a) * Pow256(b)
  {
    if b > 0 { Pow256Sum(a, b - 1); }
  }

  // ---------------------------------------------------------------- prove and verify

  datatype SchnorrProof = SchnorrProof(rx: int, ry: int, s: int)

  /** `_hash_to_scalar`: framed transcript, hashed, reduced modulo the order; `None` where framing raises. */
  function HashToScalar(c: Curve, sha: Bytes -> Digest, parts: seq<Bytes>): Option<int>
    requires c.n > 0
  {
    match Frame(parts)
    case None => None
    case Some(data) => Some(FromBigEndian(sha(data)) % c.n)
  }

  function Transcript(r: Point, y: Point, context: Bytes): Option<seq<Bytes>> {
    match (PointBytes(r), PointBytes(y))
    case (Some(rb), Some(yb)) => Some([rb, yb, context])
    case _ => None
  }

  function Challenge(c: Curve, sha: Bytes -> Digest, r: Point, y: Point, context: Bytes): (e: Option<int>)
    requires c.n > 0
    ensures e.Some? ==> 0 <= e.value < c.n
  {
    match Transcript(r, y, context)
    case None => None
    case Some(parts) => HashToScalar(c, sha, parts)
  }

  /** "NULLIFIER". */
  const NULLIFIER: Bytes := [78, 85, 76, 76, 73, 70, 73, 69, 82]

  function NullifierInput(x: int, context: Bytes): Bytes
    requires Fits256(x)
  {
    NULLIFIER + BigEndian(x, 32) + context
  }

  /** A proof with nonce k, and its nullifier; `None` where an encoding raises. */
  function Prove(c: Curve, sha: Bytes -> Digest, x: int, y: Point, context: Bytes, k: int)
      : Option<(SchnorrProof, Digest)>
    requires c.n > 0
  {
    var r := c.mul(c.g, k);
    match Challenge(c, sha, r, y, context)
    case None => None
    case Some(e) =>
      if Fits256(x) then
        Some((SchnorrProof(r.0, r.1, (k - e * x) % c.n), sha(NullifierInput(x, context))))
      else None
  }

  /** `schnorr_verify`; `None` where framing the context raises. */
  function Verify(c: Curve, sha: Bytes -> Digest, proof: SchnorrProof, y: Point, context: Bytes): Option<bool>
    requires c.n > 0
  {
    var r := (proof.rx, proof.ry);
    if !IsOnCurve(c.p, y) || !IsOnCurve(c.p, r) then Some(false)
    else if !(0 <= proof.s < c.n) then Some(false)
    else match Challenge(c, sha, r, y, context)
      case None => None
      case Some(e) => Some(c.add(c.mul(c.g, proof.s % c.n), c.mul(y, e % c.n)) == r)
  }

  ghost predicate Accepts(c: Curve, sha: Bytes -> Digest, proof: SchnorrProof, y: Point, context: Bytes)
    requires c.n > 0
  {
    Verify(c, sha, proof, y, context) == Some(true)
  }

  /** The verification equation in exponents of the generator. */
  lemma EquationInExponents(c: Curve, s: int, e: int, y: Point, x: nat)
    requires PrimeOrderCurve(c) && 0 <= s < c.n && 0 <= e < c.n && y == Times(GroupOf(c), c.g, x) && Member(c, y)
    ensures s + e * x >= 0
    ensures c.add(c.mul(c.g, s % c.n), c.mul(y, e % c.n)) == Times(GroupOf(c), c.g, (s + e * x) % c.n)
  {
    assert s % c.n == s && e % c.n == e by {
      ResidueUnique(s, 0, s, c.n);
      ResidueUnique(e, 0, e, c.n);
    }
    assert GroupOf(c).has(c.g);
    LinearCombination(GroupOf(c), s, e, x);
  }

  /** Every on-curve public key and commitment has an exponent, and acceptance relates them. */
  lemma AcceptedEquation(c: Curve, sha: Bytes -> Digest, proof: SchnorrProof, y: Point, context: Bytes)
      returns (x: nat, k: nat, e: int)
    requires PrimeOrderCurve(c) && Accepts(c, sha, proof, y, context)
    ensures x < c.n && y == Times(GroupOf(c), c.g, x) && y == c.mul(c.g, x)
    ensures k < c.n && (proof.rx, proof.ry) == Times(GroupOf(c), c.g, k)
    ensures Challenge(c, sha, (proof.rx, proof.ry), y, context) == Some(e)
    ensures 0 <= proof.s < c.n && (proof.s + e * x) % c.n == k
  {
    var r := (proof.rx, proof.ry);
    assert GroupOf(c).has(c.g) && Member(c, y) && Member(c, r);
    x := ExponentOf(GroupOf(c), y);
    k := ExponentOf(GroupOf(c), r);
    e := Challenge(c, sha, r, y, context).value;
    EquationInExponents(c, proof.s, e, y, x);
    TimesInjective(GroupOf(c), (proof.s + e * x) % c.n, k);
  }

  lemma GeneratorMultiple(c: Curve, k: nat)
    requires PrimeOrderCurve(c) && 0 < k < c.n
    ensures c.mul(c.g, k) == Times(GroupOf(c), c.g, k) && IsOnCurve(c.p, c.mul(c.g, k))
  {
    assert GroupOf(c).has(c.g);
    TimesHas(GroupOf(c), c.g, k);
  }

  lemma ResponseExponent(k: int, e: int, x: int, n: int)
    requires n > 0 && 0 <= k < n
    ensures ((k - e * x) % n + e * x) % n == k
  {
    ModAdd(k - e * x, e * x, n);
    ResidueUnique(k, 0, k, n);
  }

  /**
   * Completeness: for every key and nonce in [1, n) and every context that can be framed, proving
   * succeeds and the proof is accepted -- also when the response or the challenge is zero -- with a
   * nullifier that does not depend on the nonce.
   */
  lemma Completeness(c: Curve, sha: Bytes -> Digest, x: int, y: Point, context: Bytes, k: int)
    requires PrimeOrderCurve(c) && 0 < x < c.n && 0 < k < c.n && y == c.mul(c.g, x)
    requires Fits(context)
    ensures Prove(c, sha, x, y, context, k).Some?
    ensures Accepts(c, sha, Prove(c, sha, x, y, context, k).value.0, y, context)
    ensures Prove(c, sha, x, y, context, k).value.1 == sha(NullifierInput(x, context))
  {
    GeneratorMultiple(c, x);
    GeneratorMultiple(c, k);
    var r := c.mul(c.g, k);
    ChallengeDefined(c, sha, r, y, context);
    var e := Challenge(c, sha, r, y, context).value;
    HonestResponse(c, e, x, k);
    AcceptedWhen(c, sha, SchnorrProof(r.0, r.1, (k - e * x) % c.n), y, context, e);
    ProvedWhen(c, sha, x, y, context, k, e);
  }

  lemma ProvedWhen(c: Curve, sha: Bytes -> Digest, x: int, y: Point, context: Bytes, k: int, e: int)
    requires c.n > 0 && Fits256(x) && Challenge(c, sha, c.mul(c.g, k), y, context) == Some(e)
    ensures var r := c.mul(c.g, k);
            Prove(c, sha, x, y, context, k)
            == Some((SchnorrProof(r.0, r.1, (k - e * x) % c.n), sha(NullifierInput(x, context))))
  {
  }

  lemma AcceptedWhen(c: Curve, sha: Bytes -> Digest, proof: SchnorrProof, y: Point, context: Bytes, e: int)
    requires c.n > 0 && IsOnCurve(c.p, y) && IsOnCurve(c.p, (proof.rx, proof.ry)) && 0 <= proof.s < c.n
    requires Challenge(c, sha, (proof.rx, proof.ry), y, context) == Some(e)
    requires c.add(c.mul(c.g, proof.s % c.n), c.mul(y, e % c.n)) == (proof.rx, proof.ry)
    ensures Accepts(c, sha, proof, y, context)
  {
  }

  lemma ChallengeDefined(c: Curve, sha: Bytes -> Digest, r: Point, y: Point, context: Bytes)
    requires c.n > 0 && c.p <= Pow256(32) && IsOnCurve(c.p, r) && IsOnCurve(c.p, y) && Fits(context)
    ensures Challenge(c, sha, r, y, context).Some?
  {
    TranscriptFrames(r, y, context);
  }

  /** A part behind its length, as the transcript has it. */
  function Prefixed(part: Bytes): Bytes
    requires |part| < 0x1_0000_0000
  {
    FourBytes();
    BigEndian(|part|, 4) + part
  }

  /** The challenge is the hash of commitment, key and context, in this order and each behind its length, modulo n. */
  lemma ChallengeLayout(c: Curve, sha: Bytes -> Digest, r: Point, y: Point, context: Bytes)
    requires c.n > 0
    ensures Challenge(c, sha, r, y, context).Some?
       <==> Fits256(r.0) && Fits256(r.1) && Fits256(y.0) && Fits256(y.1) && |context| < 0x1_0000_0000
    ensures Challenge(c, sha, r, y, context).Some? ==>
              && PointBytes(r).Some? && PointBytes(y).Some?
              && Challenge(c, sha, r, y, context).value
                 == FromBigEndian(sha(Prefixed(PointBytes(r).value) + Prefixed(PointBytes(y).value)
                                      + Prefixed(context))) % c.n
  {
    if Transcript(r, y, context).Some? {
      var parts := Transcript(r, y, context).value;
      FramedExactly(parts);
      assert parts[0] == PointBytes(r).value && parts[1] == PointBytes(y).value && parts[2] == context;
      if |context| < 0x1_0000_0000 { FrameOfThree(parts[0], parts[1], parts[2]); }
    }
  }

  lemma FrameOfThree(a: Bytes, b: Bytes, d: Bytes)
    requires |a| < 0x1_0000_0000 && |b| < 0x1_0000_0000 && |d| < 0x1_0000_0000
    ensures Frame([a, b, d]) == Some(Prefixed(a) + Prefixed(b) + Prefixed(d))
  {
    FourBytes();
    assert [a, b, d][..2] == [a, b] && [a, b][..1] == [a] && [a][..0] == [];
    assert Frame([a]) == Some(Prefixed(a)) by { assert [] + BigEndian(|a|, 4) + a == Prefixed(a); }
    assert Frame([a, b]) == Some(Prefixed(a) + Prefixed(b)) by {
      assert Prefixed(a) + BigEndian(|b|, 4) + b == Prefixed(a) + Prefixed(b);
    }
    var ab := Prefixed(a) + Prefixed(b);
    assert ab + BigEndian(|d|, 4) + d == ab + Prefixed(d);
  }

  /** Verification raises exactly on a well-formed proof and key with a context too long to frame. */
  lemma VerifyRaisesIff(c: Curve, sha: Bytes -> Digest, proof: SchnorrProof, y: Point, context: Bytes)
    requires c.n > 0 && c.p <= Pow256(32)
    ensures Verify(c, sha, proof, y, context) == None
       <==> IsOnCurve(c.p, y) && IsOnCurve(c.p, (proof.rx, proof.ry)) && 0 <= proof.s < c.n
            && |context| >= 0x1_0000_0000
  {
    ChallengeLayout(c, sha, (proof.rx, proof.ry), y, context);
  }

  /** Proving raises exactly when the commitment, the key pair or the context cannot be encoded. */
  lemma ProveRaisesIff(c: Curve, sha: Bytes -> Digest, x: int, y: Point, context: Bytes, k: int)
    requires c.n > 0
    ensures var r := c.mul(c.g, k);
            Prove(c, sha, x, y, context, k) == None
            <==> !(Fits256(x) && Fits256(r.0) && Fits256(r.1) && Fits256(y.0) && Fits256(y.1)
                   && |context| < 0x1_0000_0000)
  {
    ChallengeLayout(c, sha, c.mul(c.g, k), y, context);
  }

  /** The honest response solves the verification equation. */
  lemma HonestResponse(c: Curve, e: int, x: int, k: int)
    requires PrimeOrderCurve(c) && 0 < x < c.n && 0 < k < c.n && 0 <= e < c.n
    ensures var s := (k - e * x) % c.n;
            c.add(c.mul(c.g, s % c.n), c.mul(c.mul(c.g, x), e % c.n)) == c.mul(c.g, k)
  {
    GeneratorMultiple(c, x);
    GeneratorMultiple(c, k);
    EquationInExponents(c, (k - e * x) % c.n, e, c.mul(c.g, x), x);
    ResponseExponent(k, e, x, c.n);
  }

  lemma TranscriptFrames(r: Point, y: Point, context: Bytes)
    requires Fits256(r.0) && Fits256(r.1) && Fits256(y.0) && Fits256(y.1) && Fits(context)
    ensures Transcript(r, y, context).Some? && Frame(Transcript(r, y, context).value).Some?
  {
    var parts := Transcript(r, y, context).value;
    assert Pow256(4) == 256 * (256 * (256 * 256));
    assert parts[..2] == [parts[0], parts[1]] && parts[..2][..1] == [parts[0]];
    assert Frame([parts[0]]).Some?;
    assert Frame([parts[0], parts[1]]).Some?;
  }

  /** Two accepted proofs with one commitment and key solve two equations for the same exponents. */
  lemma CommonExponents(c: Curve, sha: Bytes -> Digest, sha': Bytes -> Digest, a: SchnorrProof, b: SchnorrProof,
                        y: Point, context: Bytes, context': Bytes) returns (x: nat, e: int, e': int)
    requires PrimeOrderCurve(c) && (a.rx, a.ry) == (b.rx, b.ry)
    requires Accepts(c, sha, a, y, context) && Accepts(c, sha', b, y, context')
    ensures x < c.n && y == Times(GroupOf(c), c.g, x) == c.mul(c.g, x) && 0 <= a.s < c.n && 0 <= b.s < c.n
    ensures Challenge(c, sha, (a.rx, a.ry), y, context) == Some(e)
    ensures Challenge(c, sha', (a.rx, a.ry), y, context') == Some(e')
    ensures (a.s + e * x) % c.n == (b.s + e' * x) % c.n
  {
    var k, x', k';
    x, k, e := AcceptedEquation(c, sha, a, y, context);
    x', k', e' := AcceptedEquation(c, sha', b, y, context');
    TimesInjective(GroupOf(c), x, x');
    TimesInjective(GroupOf(c), k, k');
  }

  /** Unique response: for one commitment, key and context at most one response is accepted. */
  lemma UniqueResponse(c: Curve, sha: Bytes -> Digest, a: SchnorrProof, b: SchnorrProof, y: Point, context: Bytes)
    requires PrimeOrderCurve(c) && (a.rx, a.ry) == (b.rx, b.ry)
    requires Accepts(c, sha, a, y, context) && Accepts(c, sha, b, y, context)
    ensures a == b
  {
    var x, e, e' := CommonExponents(c, sha, sha, a, b, y, context, context);
    CancelMod(a.s, b.s, e * x, c.n);
  }

  /** The private key computed from two accepted answers to different challenges on one commitment. */
  function ExtractKey(s: int, s': int, e: int, e': int, n: int): int
    requires n > 0
  {
    ((s - s') * Inverse((e' - e) % n, n)) % n
  }

  /** Multiplying both sides of t = d * x by the inverse of d. */
  lemma DivideBy(t: int, diff: int, x: int, inv: int, n: int)
    requires n > 0 && 0 <= x < n && t % n == (diff * x) % n && ((diff % n) * inv) % n == 1
    ensures (t * inv) % n == x
  {
    var d := diff % n;
    ModMul(t, inv, n);
    ModMul(diff * x, inv, n);
    var m := x * inv;
    assert (diff * x) * inv == diff * m;
    ModMul(diff, m, n);
    assert d * m == (d * inv) * x;
    ModMul(d * inv, x, n);
    ResidueUnique(x, 0, x, n);
  }

  /** Two responses for one commitment differ by the difference of the challenges times the key. */
  lemma ResponseDifference(s: int, s': int, e: int, e': int, x: int, n: int)
    requires n > 0 && (s + e * x) % n == (s' + e' * x) % n
    ensures (s - s') % n == ((e' - e) * x) % n
  {
    ModDifference(s, s', e * x, e' * x, n);
    assert (e' - e) * x == e' * x - e * x;
  }

  lemma ExtractionArithmetic(s: int, s': int, e: int, e': int, x: int, n: int)
    requires Prime(n) && 0 <= x < n && 0 <= e < n && 0 <= e' < n && e != e'
    requires (s + e * x) % n == (s' + e' * x) % n
    ensures ExtractKey(s, s', e, e', n) == x
  {
    var d := (e' - e) % n;
    NonZeroDifference(e', e, n);
    InverseCorrect(d, n);
    ResponseDifference(s, s', e, e', x, n);
    DivideBy(s - s', e' - e, x, Inverse(d, n), n);
  }

  lemma NonZeroDifference(a: int, b: int, n: int)
    requires n > 0 && 0 <= a < n && 0 <= b < n && a != b
    ensures 0 < (a - b) % n < n
  {
    if a > b { ResidueUnique(a - b, 0, a - b, n); } else { ResidueUnique(a - b, -1, a - b + n, n); }
  }

  /**
   * Special soundness: two accepted proofs that share a commitment and a key but were challenged
   * differently, by another context or another hash function, give the private key
   * x = (s - s') / (e' - e) mod n.
   */
  lemma SpecialSoundness(c: Curve, sha: Bytes -> Digest, sha': Bytes -> Digest, a: SchnorrProof, b: SchnorrProof,
                         y: Point, context: Bytes, context': Bytes, e: int, e': int)
    requires PrimeOrderCurve(c) && (a.rx, a.ry) == (b.rx, b.ry) && e != e'
    requires Accepts(c, sha, a, y, context) && Challenge(c, sha, (a.rx, a.ry), y, context) == Some(e)
    requires Accepts(c, sha', b, y, context') && Challenge(c, sha', (b.rx, b.ry), y, context') == Some(e')
    ensures c.mul(c.g, ExtractKey(a.s, b.s, e, e', c.n)) == y
  {
    var x, d, d' := CommonExponents(c, sha, sha', a, b, y, context, context');
    ExtractionArithmetic(a.s, b.s, e, e', x, c.n);
  }

  /**
   * A proof is bound to its context: if it is accepted under two different contexts, the hashed
   * transcripts differ yet give the same challenge.
   */
  lemma ContextBinding(c: Curve, sha: Bytes -> Digest, proof: SchnorrProof, y: Point, context: Bytes, context': Bytes)
    requires PrimeOrderCurve(c) && context != context'
    requires Accepts(c, sha, proof, y, context) && Accepts(c, sha, proof, y, context')
    ensures var r := (proof.rx, proof.ry);
            && Transcript(r, y, context).Some? && Transcript(r, y, context').Some?
            && var t, t' := Frame(Transcript(r, y, context).value), Frame(Transcript(r, y, context').value);
            && t.Some? && t'.Some? && t != t'
            && FromBigEndian(sha(t.value)) % c.n == FromBigEndian(sha(t'.value)) % c.n
  {
    var r := (proof.rx, proof.ry);
    SameChallenge(c, sha, proof, y, context, context');
    if Frame(Transcript(r, y, context).value) == Frame(Transcript(r, y, context').value) {
      TranscriptInjective(r, y, context, r, y, context');
    }
  }

  /** One response answers one challenge only. */
  lemma SameChallenge(c: Curve, sha: Bytes -> Digest, proof: SchnorrProof, y: Point, context: Bytes, context': Bytes)
    requires PrimeOrderCurve(c)
    requires Accepts(c, sha, proof, y, context) && Accepts(c, sha, proof, y, context')
    ensures Challenge(c, sha, (proof.rx, proof.ry), y, context).Some?
    ensures Challenge(c, sha, (proof.rx, proof.ry), y, context) == Challenge(c, sha, (proof.rx, proof.ry), y, context')
  {
    var x, e, e' := CommonExponents(c, sha, sha, proof, proof, y, context, context');
    if e != e' {
      ExtractionArithmetic(proof.s, proof.s, e, e', x, c.n);
      ZeroKeyIsInfinity(c, y, x, e, e', proof.s);
    }
  }

  /** The challenge commits to the commitment, the key and the context: equal framed transcripts agree on all three. */
  lemma TranscriptInjective(r: Point, y: Point, context: Bytes, r': Point, y': Point, context': Bytes)
    requires Transcript(r, y, context).Some? && Transcript(r', y', context').Some?
    requires Frame(Transcript(r, y, context).value).Some?
    requires Frame(Transcript(r, y, context).value) == Frame(Transcript(r', y', context').value)
    ensures r == r' && y == y' && context == context'
  {
    var p, p' := Transcript(r, y, context).value, Transcript(r', y', context').value;
    FrameInjective(p, p');
    assert p[0] == p'[0] && p[1] == p'[1] && p[2] == p'[2];
    PointBytesInjective(r, r');
    PointBytesInjective(y, y');
  }

  /** Two challenges answered by one response would make the public key the point at infinity. */
  lemma ZeroKeyIsInfinity(c: Curve, y: Point, x: nat, e: int, e': int, s: int)
    requires PrimeOrderCurve(c) && y == Times(GroupOf(c), c.g, x) && ExtractKey(s, s, e, e', c.n) == x
    ensures y == INFINITY && !IsOnCurve(c.p, y)
  {
    assert (s - s) * Inverse((e' - e) % c.n, c.n) == 0;
    ResidueUnique(0, 0, 0, c.n);
    InfinityOffCurve(c);
  }

  lemma InfinityOffCurve(c: Curve)
    requires PrimeOrderCurve(c)
    ensures !IsOnCurve(c.p, INFINITY)
  {
    ResidueUnique(-CURVE_B, -1, c.p - CURVE_B, c.p);
    assert !IsOnCurve(c.p, INFINITY);
  }

  /** What the nullifier hashes: the word, the key in 32 big-endian bytes, and the context. */
  lemma NullifierLayout(x: int, context: Bytes)
    requires Fits256(x)
    ensures var input := NullifierInput(x, context);
            && |input| == 41 + |context| && (forall i :: 0 <= i < 9 ==> input[i] == "NULLIFIER"[i] as int)
            && FromBigEndian(input[9..41]) == x && input[41..] == context
  {
    assert NullifierInput(x, context)[9..41] == BigEndian(x, 32);
    BigEndianRoundTrip(x, 32);
  }

  /** One nullifier per key and context: equal nullifiers come from the same pair, or SHA-256 inputs collide. */
  lemma NullifierBinding(sha: Bytes -> Digest, x: int, context: Bytes, x': int, context': Bytes)
    requires Fits256(x) && Fits256(x')
    requires sha(NullifierInput(x, context)) == sha(NullifierInput(x', context'))
    ensures
      || (x == x' && context == context')
      || Collides(sha, {NullifierInput(x, context), NullifierInput(x', context')})
  {
    var a, b := NullifierInput(x, context), NullifierInput(x', context');
    if a == b {
      assert a[9..41] == BigEndian(x, 32) && a[41..] == context;
      assert b[9..41] == BigEndian(x', 32) && b[41..] == context';
      BigEndianRoundTrip(x, 32);
      BigEndianRoundTrip(x', 32);
    }
  }

  // ---------------------------------------------------------------- serialisation

  datatype ProofDict = ProofDict(rx: string, ry: string, s: string)

  function ToDict(proof: SchnorrProof): ProofDict {
    ProofDict(HexInt(proof.rx), HexInt(proof.ry), HexInt(proof.s))
  }

  function FromDict(d: ProofDict): Option<SchnorrProof> {
    match (ParseHexInt(d.rx), ParseHexInt(d.ry), ParseHexInt(d.s))
    case (Some(rx), Some(ry), Some(s)) => Some(SchnorrProof(rx, ry, s))
    case _ => None
  }

  function PointFromHex(x: string, y: string): Option<Point> {
    match (ParseHexInt(x), ParseHexInt(y))
    case (Some(a), Some(b)) => Some((a, b))
    case _ => None
  }

  /** Proofs and points survive serialisation unchanged, each number in the field of its name. */
  lemma SerialisationRoundTrip(proof: SchnorrProof, pt: Point)
    ensures FromDict(ToDict(proof)) == Some(proof)
    ensures ToDict(proof) == ProofDict(HexInt(proof.rx), HexInt(proof.ry), HexInt(proof.s))
    ensures PointFromHex(HexInt(pt.0), HexInt(pt.1)) == Some(pt)
  {
    HexIntRoundTrip(proof.rx);
    HexIntRoundTrip(proof.ry);
    HexIntRoundTrip(proof.s);
    HexIntRoundTrip(pt.0);
    HexIntRoundTrip(pt.1);
  }
}
