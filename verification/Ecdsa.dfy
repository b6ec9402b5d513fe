/** ECDSA over P-256 as the driver computes it on limbs, against section 6.4 of FIPS 186-5. */
module Ecdsa {
  import opened Bytes
  import opened Outcomes
  import opened Vli
  import opened VliMultiply
  import opened Modular

  /** A curve seen from its base point G: the point j G is known by j modulo the order,
      and its coordinates by xOf and yOf. */
  datatype Curve = Curve(order: nat, fieldPrime: nat, xOf: nat -> nat, yOf: nat -> nat)

  const DIGITS: nat := 4
  const SIGNING_ATTEMPTS: nat := 100

  /** What the driver relies on of P-256: a prime order above 2^255 and coordinates
      below the field prime, which is below twice the order. */
  ghost predicate LikeP256(c: Curve) {
    && Prime(c.order)
    && c.order < LimbPower(DIGITS) < 2 * c.order
    && c.fieldPrime <= LimbPower(DIGITS) && c.fieldPrime < 2 * c.order
    && forall j :: c.xOf(j) < c.fieldPrime && c.yOf(j) < c.fieldPrime
  }

  // ----- FIPS 186-5 on integers -----

  /** Section 6.4.1: one signing attempt with nonce k. */
  function SignOnce(c: Curve, d: nat, e: nat, k: nat): Option<(nat, nat)>
    requires c.order > 0
  {
    var r := c.xOf(k) % c.order;
    var s := (Inverse(k, c.order) * (e + r * d)) % c.order;
    if r == 0 || s == 0 then None else Some((r, s))
  }

  /** Section 6.4.2: (r, s) verifies for hash value e under the public key q G. */
  predicate Accepts(c: Curve, q: nat, e: nat, r: nat, s: nat)
    requires c.order > 0
  {
    && 0 < r < c.order && 0 < s < c.order
    && var w := Inverse(s, c.order);
       var point := ((e * w) % c.order + ((r * w) % c.order) * q) % c.order;
       point != 0 && c.xOf(point) % c.order == r
  }

  lemma NonceTimesSignature(k: int, inverse: int, m: int, s: int, n: int)
    requires n > 0 && Congruent(k * inverse, 1, n) && s == (inverse * m) % n
    ensures Congruent(k * s, m, n)
  {
    CongruentToRemainder(inverse * m, n);
    CongruentScale(s, inverse * m, k, n);
    CongruentScale(k * inverse, 1, m, n);
    assert k * (inverse * m) == m * (k * inverse);
    CongruentTransitive(k * s, m * (k * inverse), m * 1, n);
  }

  /** w (e + r q), computed with intermediate reductions. */
  lemma CombinedMultiplier(e: int, r: int, w: int, q: int, n: int)
    requires n > 0
    ensures Congruent((e * w) % n + ((r * w) % n) * q, w * (e + r * q), n)
  {
    CongruentToRemainder(e * w, n);
    CongruentToRemainder(r * w, n);
    CongruentScale((r * w) % n, r * w, q, n);
    CongruentAdd((e * w) % n, e * w, q * ((r * w) % n), q * (r * w), n);
    assert e * w + q * (r * w) == w * (e + r * q);
  }

  lemma VerifierRecoversNonce(e: int, r: int, s: int, w: int, q: int, k: int, n: int)
    requires n > 0 && 0 <= k < n
    requires Congruent(k * s, e + r * q, n) && Congruent(s * w, 1, n)
    ensures ((e * w) % n + ((r * w) % n) * q) % n == k
  {
    var point := (e * w) % n + ((r * w) % n) * q;
    CombinedMultiplier(e, r, w, q, n);
    CongruentSymmetric(k * s, e + r * q, n);
    CongruentScale(e + r * q, k * s, w, n);
    CongruentScale(s * w, 1, k, n);
    assert w * (k * s) == k * (s * w);
    CongruentTransitive(point, w * (e + r * q), k * (s * w), n);
    CongruentTransitive(point, k * (s * w), k * 1, n);
    CongruentRemainders(point, k, n);
    ReducedBySubtraction(k, n);
  }

  /** Every pair a signing attempt produces verifies. */
  lemma SignatureIsAccepted(c: Curve, d: nat, e: nat, k: nat)
    requires Prime(c.order) && 0 < k < c.order && SignOnce(c, d, e, k).Some?
    ensures var (r, s) := SignOnce(c, d, e, k).value; Accepts(c, d, e, r, s)
  {
    var n := c.order;
    var (r, s) := SignOnce(c, d, e, k).value;
    InverseIsInverse(k, n);
    NonceTimesSignature(k, Inverse(k, n), e + r * d, s, n);
    InverseIsInverse(s, n);
    VerifierRecoversNonce(e, r, s, Inverse(s, n), d, k, n);
  }

  /** An invertible factor does not matter for divisibility. */
  lemma InverseDropsOut(k: int, inverse: int, m: int, n: int)
    requires n > 0 && Congruent(k * inverse, 1, n)
    ensures (inverse * m) % n == 0 <==> Divides(n, m)
  {
    if (inverse * m) % n == 0 {
      NonceTimesSignature(k, inverse, m, 0, n);
      CongruentSymmetric(k * 0, m, n);
      assert m - k * 0 == m;
    }
    if Divides(n, m) {
      assert m - 0 == m;
      CongruentScale(m, 0, inverse, n);
      CongruentRemainders(inverse * m, inverse * 0, n);
      SmallRemainder(0, n);
    }
  }

  lemma RemainderZeroIff(a: int, n: int)
    requires n > 0
    ensures a % n == 0 <==> Divides(n, a)
  {
    CongruentToRemainder(a, n);
    if Divides(n, a) {
      assert a - 0 == a;
      CongruentRemainders(a, 0, n);
      SmallRemainder(0, n);
    }
  }

  /** An attempt with nonce k must be given up: r or s would be 0. */
  ghost predicate Unusable(c: Curve, d: nat, e: nat, k: nat)
    requires c.order > 0
  {
    Divides(c.order, c.xOf(k)) || Divides(c.order, e + (c.xOf(k) % c.order) * d)
  }

  /** An attempt is given up exactly when the order divides x or e + r d; otherwise its pair is used. */
  lemma RejectedIff(c: Curve, d: nat, e: nat, k: nat)
    requires Prime(c.order) && 0 < k < c.order
    ensures SignOnce(c, d, e, k).None? <==> Unusable(c, d, e, k)
  {
    var n := c.order;
    InverseIsInverse(k, n);
    RemainderZeroIff(c.xOf(k), n);
    InverseDropsOut(k, Inverse(k, n), e + (c.xOf(k) % n) * d, n);
  }

  // ----- The driver on limbs -----

  /** A point as returned to the driver: both coordinates in swapped-limb form. */
  datatype Point = Point(x: seq<Limb>, y: seq<Limb>)

  function PointOf(c: Curve, j: nat): Point {
    Point(Swapped(FromValue(c.xOf(j), DIGITS)), Swapped(FromValue(c.yOf(j), DIGITS)))
  }

  /** What the kernel helpers answer in one signing attempt. */
  datatype Attempt = Attempt(nonce: Result<seq<Limb>>, pointFailure: Option<Errno>)

  /** Key generation returns a scalar in [1, order - 1] or fails. */
  ghost predicate ValidKey(c: Curve, key: seq<Limb>) {
    |key| == DIGITS && 0 < Value(key) < c.order
  }

  ghost predicate ValidAttempts(c: Curve, attempts: seq<Attempt>) {
    forall i :: 0 <= i < |attempts| && attempts[i].nonce.Ok? ==> ValidKey(c, attempts[i].nonce.value)
  }

  function MakePublicKey(c: Curve, key: seq<Limb>, failure: Option<Errno>): Result<Point> {
    if failure.Some? then Err(failure.value) else Ok(PointOf(c, Value(key)))
  }

  /** self^-1 mod modulus. */
  function ModInv(v: seq<Limb>, modulus: seq<Limb>): (r: seq<Limb>)
    requires Value(modulus) > 0
    ensures |r| == |modulus| && Value(r) == Inverse(Value(v), Value(modulus))
  {
    ValueFits(modulus);
    FromValueHasValue(Inverse(Value(v), Value(modulus)), |modulus|);
    FromValue(Inverse(Value(v), Value(modulus)), |modulus|)
  }

  lemma ReducedSumCongruent(a: int, b: int, n: int)
    requires n > 0
    ensures Congruent((a % n + b % n) % n, a + b, n)
  {
    CongruentToRemainder(a, n);
    CongruentToRemainder(b, n);
    CongruentAdd(a % n, a, b % n, b, n);
    CongruentToRemainder(a % n + b % n, n);
    CongruentTransitive((a % n + b % n) % n, a % n + b % n, a + b, n);
  }

  /** The driver reduces z and r d separately before adding; the result is the same. */
  lemma PipelineComputesS(e: int, product: int, inverse: int, n: int)
    requires n > 0
    ensures (((e % n + product % n) % n) * inverse) % n == (inverse * (e + product)) % n
  {
    ReducedSumCongruent(e, product, n);
    var sum := (e % n + product % n) % n;
    CongruentScale(sum, e + product, inverse, n);
    CongruentRemainders(inverse * sum, inverse * (e + product), n);
    assert inverse * sum == sum * inverse;
  }

  /** One attempt on limbs computes exactly the attempt of section 6.4.1. */
  method SignAttempt(c: Curve, d: seq<Limb>, curveN: seq<Limb>, hash: seq<byte>, k: seq<Limb>, point: Point)
    returns (pair: Option<(seq<Limb>, seq<Limb>)>)
    requires LikeP256(c) && |curveN| == DIGITS && Value(curveN) == c.order
    requires |d| == DIGITS && |hash| == 8 * DIGITS && point == PointOf(c, Value(k))
    ensures pair.None? ==> SignOnce(c, Value(d), BigEndian(hash), Value(k)).None?
    ensures pair.Some? ==>
              && |pair.value.0| == |pair.value.1| == DIGITS
              && SignOnce(c, Value(d), BigEndian(hash), Value(k)) == Some((Value(pair.value.0), Value(pair.value.1)))
  {
    var x := Unswap(point.x);
    SwappedTwice(FromValue(c.xOf(Value(k)), DIGITS));
    FromValueHasValue(c.xOf(Value(k)), DIGITS);
    var r := ReduceOnce(x, curveN);
    var rIsZero := IsZero(r);
    if rIsZero {
      return None;
    }
    var parsed := FromBigEndianBytes(hash, DIGITS);
    ValueFits(parsed.value);
    var z := ReduceOnce(parsed.value, curveN);
    var rd := ModMult(r, d, curveN);
    var sum := AddReduced(z, rd, curveN);
    var kInverse := ModInv(k, curveN);
    var s := ModMult(sum, kInverse, curveN);
    PipelineComputesS(BigEndian(hash), Value(r) * Value(d), Inverse(Value(k), c.order), c.order);
    var sIsZero := IsZero(s);
    pair := if sIsZero then None else Some((r, s));
  }

  /** The retry loop on integers: the first usable attempt, or the first helper failure. */
  function SignWith(c: Curve, d: nat, e: nat, attempts: seq<Attempt>): Result<(nat, nat)>
    requires c.order > 0
  {
    if attempts == [] then Err(EINVAL)
    else if attempts[0].nonce.Err? then Err(attempts[0].nonce.error)
    else if attempts[0].pointFailure.Some? then Err(attempts[0].pointFailure.value)
    else match SignOnce(c, d, e, Value(attempts[0].nonce.value))
      case Some(pair) => Ok(pair)
      case None => SignWith(c, d, e, attempts[1..])
  }

  method Sign(c: Curve, sha256: seq<byte> -> seq<byte>, data: seq<byte>, d: seq<Limb>, curveN: seq<Limb>,
              attempts: seq<Attempt>)
    returns (signature: Result<(seq<Limb>, seq<Limb>)>)
    requires LikeP256(c) && |curveN| == DIGITS && Value(curveN) == c.order
    requires |d| == DIGITS && |sha256(data)| == 8 * DIGITS
    requires |attempts| == SIGNING_ATTEMPTS && ValidAttempts(c, attempts)
    ensures var expected := SignWith(c, Value(d), BigEndian(sha256(data)), attempts);
            match signature
            case Err(error) => expected == Err(error)
            case Ok((r, s)) => |r| == |s| == DIGITS && expected == Ok((Value(r), Value(s)))
  {
    var hash := sha256(data);
    ghost var expected := SignWith(c, Value(d), BigEndian(hash), attempts);
    for i := 0 to SIGNING_ATTEMPTS
      invariant expected == SignWith(c, Value(d), BigEndian(hash), attempts[i..])
    {
      assert attempts[i..][0] == attempts[i] && attempts[i..][1..] == attempts[i + 1..];
      if attempts[i].nonce.Err? {
        return Err(attempts[i].nonce.error);
      }
      var k := attempts[i].nonce.value;
      var point := MakePublicKey(c, k, attempts[i].pointFailure);
      if point.Err? {
        return Err(point.error);
      }
      var pair := SignAttempt(c, d, curveN, hash, k, point.value);
      if pair.Some? {
        return Ok(pair.value);
      }
    }
    signature := Err(EINVAL);
  }

  /** Any signature the loop returns, for any sequence of nonces, lies in range and verifies. */
  lemma {:induction false} ReturnedSignatureIsAccepted(c: Curve, d: nat, e: nat, attempts: seq<Attempt>)
    requires LikeP256(c) && ValidAttempts(c, attempts) && SignWith(c, d, e, attempts).Ok?
    ensures var (r, s) := SignWith(c, d, e, attempts).value; Accepts(c, d, e, r, s)
  {
    var k := Value(attempts[0].nonce.value);
    assert ValidKey(c, attempts[0].nonce.value);
    if SignOnce(c, d, e, k).Some? {
      SignatureIsAccepted(c, d, e, k);
    } else {
      ReturnedSignatureIsAccepted(c, d, e, attempts[1..]);
    }
  }

  ghost predicate HelpersSucceed(attempts: seq<Attempt>) {
    forall i :: 0 <= i < |attempts| ==> attempts[i].nonce.Ok? && attempts[i].pointFailure.None?
  }

  /** The attempts before i went through without error and had to be given up. */
  ghost predicate GivenUp(c: Curve, d: nat, e: nat, attempts: seq<Attempt>, i: nat)
    requires c.order > 0 && i <= |attempts|
  {
    forall j :: 0 <= j < i ==>
      attempts[j].nonce.Ok? && attempts[j].pointFailure.None? && Unusable(c, d, e, Value(attempts[j].nonce.value))
  }

  /** The i-th attempt decides: a helper fails, the nonce's before the point's, or the pair can be used. */
  ghost predicate Decides(c: Curve, d: nat, e: nat, attempt: Attempt, result: Result<(nat, nat)>)
    requires c.order > 0
  {
    if attempt.nonce.Err? then result == Err(attempt.nonce.error)
    else if attempt.pointFailure.Some? then result == Err(attempt.pointFailure.value)
    else
      var k := Value(attempt.nonce.value);
      !Unusable(c, d, e, k) && SignOnce(c, d, e, k).Some? && result == Ok(SignOnce(c, d, e, k).value)
  }

  /** The loop's result is that of its first deciding attempt; without one it is EINVAL. */
  lemma {:induction false} FirstDecidingAttempt(c: Curve, d: nat, e: nat, attempts: seq<Attempt>) returns (i: nat)
    requires Prime(c.order) && ValidAttempts(c, attempts)
    ensures i <= |attempts| && GivenUp(c, d, e, attempts, i)
    ensures i < |attempts| ==> Decides(c, d, e, attempts[i], SignWith(c, d, e, attempts))
    ensures i == |attempts| ==> SignWith(c, d, e, attempts) == Err(EINVAL)
  {
    if attempts == [] {
      return 0;
    }
    var first, rest := attempts[0], attempts[1..];
    if first.nonce.Err? || first.pointFailure.Some? {
      return 0;
    }
    assert ValidKey(c, first.nonce.value);
    RejectedIff(c, d, e, Value(first.nonce.value));
    if SignOnce(c, d, e, Value(first.nonce.value)).Some? {
      return 0;
    }
    var j := FirstDecidingAttempt(c, d, e, rest);
    assert forall h :: 0 < h <= j ==> attempts[h] == rest[h - 1];
    return j + 1;
  }

  /** When every helper call succeeds, the loop fails exactly when every attempt had to be given up,
      that is, gave r = 0 or s = 0. */
  lemma LoopFailsOnlyWhenAllAttemptsDo(c: Curve, d: nat, e: nat, attempts: seq<Attempt>)
    requires Prime(c.order) && ValidAttempts(c, attempts) && HelpersSucceed(attempts)
    ensures SignWith(c, d, e, attempts).Err?
       <==> forall i :: 0 <= i < |attempts| ==> Unusable(c, d, e, Value(attempts[i].nonce.value))
    ensures SignWith(c, d, e, attempts).Err? ==> SignWith(c, d, e, attempts).error == EINVAL
  {
    var i := FirstDecidingAttempt(c, d, e, attempts);
    if i < |attempts| {
      assert attempts[i].nonce.Ok? && attempts[i].pointFailure.None?;
    }
  }
}
