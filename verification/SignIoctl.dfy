/** Key generation and the signing ioctl. */
module SignIoctl {
  import opened Bytes
  import opened Outcomes
  import opened Vli
  import opened Ecdsa

  const USER_DATA_BYTES: nat := 128
  const MAX_DIGEST_BYTES: nat := 64
  const P256_BYTES: nat := 32
  const PUBKEY_BYTES: nat := 33

  datatype KeyPair = KeyPair(private: seq<Limb>, pubkey: seq<byte>, curveN: seq<Limb>, imaMeasured: bool)

  /** Section 2.3.3 of SEC 1: the compressed encoding of the point j G. */
  ghost predicate IsCompressedPoint(c: Curve, j: nat, encoding: seq<byte>) {
    && |encoding| == PUBKEY_BYTES
    && encoding[0] == (if c.yOf(j) % 2 == 0 then 0x02 else 0x03)
    && BigEndian(encoding[1..]) == c.xOf(j)
  }

  ghost predicate ValidKeyPair(c: Curve, kp: KeyPair) {
    && ValidKey(c, kp.private)
    && |kp.curveN| == DIGITS && Value(kp.curveN) == c.order
    && IsCompressedPoint(c, Value(kp.private), kp.pubkey)
  }

  lemma LastByteParity(s: seq<byte>)
    requires s != []
    ensures BigEndian(s) % 2 == s[|s| - 1] % 2
  {
    assert BigEndian(s) == 2 * (128 * BigEndian(s[..|s| - 1])) + s[|s| - 1];
  }

  /** A point's coordinates, read as raw memory, are big-endian. */
  lemma CoordinateBytes(c: Curve, j: nat)
    requires LikeP256(c)
    ensures BigEndian(MemoryBytes(PointOf(c, j).x)) == c.xOf(j)
    ensures BigEndian(MemoryBytes(PointOf(c, j).y)) == c.yOf(j)
  {
    FromValueHasValue(c.xOf(j), DIGITS);
    SwappedMemoryIsBigEndian(FromValue(c.xOf(j), DIGITS));
    FromValueHasValue(c.yOf(j), DIGITS);
    SwappedMemoryIsBigEndian(FromValue(c.yOf(j), DIGITS));
  }

  /** A fresh key pair; an unmeasured one is kept but marked. Helper failures are the parameters. */
  method GenerateKeyPair(c: Curve, key: Result<seq<Limb>>, pointFailure: Option<Errno>, curveN: Option<seq<Limb>>,
                         measurement: Result<()>)
    returns (kp: Result<KeyPair>)
    requires LikeP256(c) && (key.Ok? ==> ValidKey(c, key.value))
    requires curveN.Some? ==> |curveN.value| == DIGITS && Value(curveN.value) == c.order
    ensures kp.Ok? <==> key.Ok? && pointFailure.None? && curveN.Some?
    ensures kp.Ok? ==> ValidKeyPair(c, kp.value) && kp.value.private == key.value
                       && kp.value.imaMeasured == measurement.Ok?
    ensures kp.Err? ==> kp.error == (if key.Err? then key.error
                                     else if pointFailure.Some? then pointFailure.value else EINVAL)
  {
    if key.Err? {
      return Err(key.error);
    }
    var public := MakePublicKey(c, key.value, pointFailure);
    if public.Err? {
      return Err(public.error);
    }
    var x, y := MemoryBytes(public.value.x), MemoryBytes(public.value.y);
    CoordinateBytes(c, Value(key.value));
    LastByteParity(y);
    var pubkey: seq<byte> := [0x02 + y[P256_BYTES - 1] % 2] + x;
    assert pubkey[1..] == x;
    if curveN.None? {
      return Err(EINVAL);
    }
    kp := Ok(KeyPair(key.value, pubkey, curveN.value, measurement.Ok?));
  }

  /** The digest lookup as the kernel answered it: no executable to look at, or the return value of
      the fs-verity call and the 64-byte buffer it filled. */
  datatype Lookup = NoExecutable(error: Errno) | Answered(ret: int, buffer: seq<byte>)

  /** The caller's fs-verity digest, or the error. */
  function CallerDigest(lookup: Lookup): (digest: Result<seq<byte>>)
    requires lookup.Answered? ==> |lookup.buffer| == MAX_DIGEST_BYTES
  {
    match lookup
    case NoExecutable(error) => Err(error)
    case Answered(ret, buffer) =>
      if ret < 0 then Err(Other(ret))
      else if ret == 0 then Err(ENOENT)
      else if ret > MAX_DIGEST_BYTES then Err(EOVERFLOW)
      else Ok(buffer[..ret])
  }

  /** The lookup yields a digest exactly when the kernel wrote that digest at the start of the buffer and
      returned its length, for every digest length from 1 to 64; what lies behind it does not matter. */
  lemma WrittenDigestIsRead(lookup: Lookup, digest: seq<byte>)
    requires lookup.Answered? ==> |lookup.buffer| == MAX_DIGEST_BYTES
    ensures CallerDigest(lookup) == Ok(digest)
       <==> && 1 <= |digest| <= MAX_DIGEST_BYTES
            && exists rest :: lookup == Answered(|digest|, digest + rest)
  {
    if CallerDigest(lookup) == Ok(digest) {
      assert lookup.buffer == digest + lookup.buffer[lookup.ret..];
      assert lookup == Answered(|digest|, digest + lookup.buffer[lookup.ret..]);
    }
    if rest :| lookup == Answered(|digest|, digest + rest) && 1 <= |digest| <= MAX_DIGEST_BYTES {
      assert (digest + rest)[..|digest|] == digest;
    }
  }

  datatype SignDataReq = SignDataReq(userData: seq<byte>, hash: seq<byte>, sigR: seq<byte>, sigS: seq<byte>,
                                     pubkey: seq<byte>)

  method CopyFromSlice(target: array<byte>, at: nat, source: seq<byte>)
    requires at + |source| <= target.Length
    modifies target
    ensures target[..] == old(target[..at]) + source + old(target[at + |source|..])
  {
    for i := 0 to |source|
      invariant target[..at] == old(target[..at])
      invariant target[at..at + i] == source[..i]
      invariant target[at + |source|..] == old(target[at + |source|..])
    {
      target[at + i] := source[i];
      assert target[at..at + i + 1] == target[at..at + i] + [source[i]];
    }
    assert target[..] == target[..at] + target[at..at + |source|] + target[at + |source|..];
  }

  /** The message digest || user_data, assembled in a fixed buffer of 192 bytes. */
  method AssembleMessage(digest: seq<byte>, userData: seq<byte>) returns (message: seq<byte>)
    requires |digest| <= MAX_DIGEST_BYTES && |userData| == USER_DATA_BYTES
    ensures message == digest + userData
  {
    var toSign := new byte[MAX_DIGEST_BYTES + USER_DATA_BYTES](_ => 0);
    CopyFromSlice(toSign, 0, digest);
    assert toSign[..|digest|] == digest;
    CopyFromSlice(toSign, |digest|, userData);
    message := toSign[..|digest| + USER_DATA_BYTES];
  }

  /** What a caller can check of a successful reply: it is over the caller's own digest and
      the data passed in, and its bytes decode to a signature that verifies under the key. */
  ghost predicate GenuineReply(c: Curve, sha256: seq<byte> -> seq<byte>, kp: KeyPair, digest: seq<byte>,
                               userData: seq<byte>, reply: SignDataReq)
    requires c.order > 0
  {
    && reply.userData == userData
    && reply.hash == sha256(digest + userData)
    && reply.pubkey == kp.pubkey
    && |reply.sigR| == |reply.sigS| == P256_BYTES
    && Accepts(c, Value(kp.private), BigEndian(reply.hash), BigEndian(reply.sigR), BigEndian(reply.sigS))
  }

  /** A reply the signing ioctl may give: a genuine one, under a key that IMA has measured. */
  ghost predicate Signs(c: Curve, sha256: seq<byte> -> seq<byte>, kp: KeyPair, digest: seq<byte>, userData: seq<byte>,
                        reply: SignDataReq)
    requires c.order > 0
  {
    kp.imaMeasured && GenuineReply(c, sha256, kp, digest, userData, reply)
  }

  method HandleSignData(c: Curve, sha256: seq<byte> -> seq<byte>, kp: Option<KeyPair>, lookup: Lookup,
                        input: Result<seq<byte>>, attempts: seq<Attempt>, copyOut: Result<()>)
    returns (reply: Result<SignDataReq>)
    requires LikeP256(c) && (kp.Some? ==> ValidKeyPair(c, kp.value))
    requires forall m :: |sha256(m)| == P256_BYTES
    requires lookup.Answered? ==> |lookup.buffer| == MAX_DIGEST_BYTES
    requires input.Ok? ==> |input.value| == USER_DATA_BYTES
    requires |attempts| == SIGNING_ATTEMPTS && ValidAttempts(c, attempts)
    ensures kp.None? ==> reply == Err(ENXIO)
    ensures kp.Some? && !kp.value.imaMeasured ==> reply == Err(EPERM)
    ensures kp.Some? && kp.value.imaMeasured ==>
              var digest := CallerDigest(lookup);
              if digest.Err? then reply == Err(digest.error)
              else if input.Err? then reply == Err(input.error)
              else
                var signed := SignWith(c, Value(kp.value.private), BigEndian(sha256(digest.value + input.value)), attempts);
                && (reply.Ok? <==> signed.Ok? && copyOut.Ok?)
                && (reply.Err? ==> reply.error == if signed.Err? then signed.error else copyOut.error)
                && (reply.Ok? ==> (BigEndian(reply.value.sigR), BigEndian(reply.value.sigS)) == signed.value)
    ensures kp.Some? && kp.value.imaMeasured && lookup.Answered? ==>
              && (lookup.ret < 0 ==> reply == Err(Other(lookup.ret)))
              && (lookup.ret == 0 ==> reply == Err(ENOENT))
              && (lookup.ret > 64 ==> reply == Err(EOVERFLOW))
    ensures reply.Ok? ==>
              && kp.Some? && input.Ok? && CallerDigest(lookup).Ok?
              && 1 <= |CallerDigest(lookup).value| <= MAX_DIGEST_BYTES
              && Signs(c, sha256, kp.value, CallerDigest(lookup).value, input.value, reply.value)
  {
    if kp.None? {
      return Err(ENXIO);
    }
    if !kp.value.imaMeasured {
      return Err(EPERM);
    }
    var digest := CallerDigest(lookup);
    if digest.Err? {
      return Err(digest.error);
    }
    if input.Err? {
      return Err(input.error);
    }
    var message := AssembleMessage(digest.value, input.value);
    var hash := sha256(message);
    var signature := Sign(c, sha256, message, kp.value.private, kp.value.curveN, attempts);
    if signature.Err? {
      return Err(signature.error);
    }
    ReturnedSignatureIsAccepted(c, Value(kp.value.private), BigEndian(hash), attempts);
    var sigR := ToBigEndianBytes(signature.value.0);
    var sigS := ToBigEndianBytes(signature.value.1);
    if copyOut.Err? {
      return Err(copyOut.error);
    }
    reply := Ok(SignDataReq(input.value, hash, sigR, sigS, kp.value.pubkey));
  }
}
