/** The challenge and verify service, the attester's part and the kernel signer behind it. */
module VerifierService {
  import opened Bytes
  import opened Outcomes
  import Vli
  import opened Ecdsa
  import opened SignIoctl
  import opened RequestContext
  import Json
  import JsonReader

  /** Challenge ids are texts; the verifier draws them at random. */
  type Id = seq<CodePoint>

  const NONCE_BYTES: nat := 32

  /** "TARAKO-TQ-REQUEST-V1" and a zero byte. */
  const DOMAIN: seq<byte> :=
    [0x54, 0x41, 0x52, 0x41, 0x4B, 0x4F, 0x2D, 0x54, 0x51, 0x2D, 0x52, 0x45, 0x51, 0x55, 0x45, 0x53, 0x54, 0x2D,
     0x56, 0x31, 0x00]

  lemma DomainText()
    ensures DOMAIN == Json.Text("TARAKO-TQ-REQUEST-V1") + [0x00]
  {
  }

  /** What the verifier was provisioned with, and the hash it shares with the kernel. */
  datatype World = World(curve: Curve, trustedPoint: nat, trustedKey: seq<byte>, sha256: seq<byte> -> seq<byte>)

  ghost predicate WorldSound(w: World) {
    w.curve.order > 0 && forall m :: |w.sha256(m)| == P256_BYTES
  }

  datatype Challenge = Challenge(nonce: seq<byte>, request: seq<CodePoint>)

  /** A quote as the attester returns it, with its hexadecimal and DER wrapping removed. */
  datatype Quote = Quote(hash: seq<byte>, publicKey: seq<byte>, r: nat, s: nat, userData: seq<byte>)

  /** A verification request; parts that are missing or of the wrong type are None. */
  datatype Body = Body(challengeId: Id, request: Option<seq<CodePoint>>, nonceText: Option<seq<byte>>,
                       quote: Option<Quote>)

  function Context(challenge: Challenge): seq<byte> {
    DOMAIN + PythonContext(challenge.nonce, challenge.request)
  }

  function RequestBinding(w: World, challenge: Challenge): seq<byte> {
    w.sha256(Context(challenge))
  }

  /** A binding followed by zeros, 128 bytes in all. */
  function PaddedUserData(binding: seq<byte>): (u: seq<byte>)
    requires |binding| <= USER_DATA_BYTES
    ensures |u| == USER_DATA_BYTES && u[..|binding|] == binding
    ensures forall i :: |binding| <= i < USER_DATA_BYTES ==> u[i] == 0
  {
    binding + seq(USER_DATA_BYTES - |binding|, _ => 0)
  }

  /** The message the kernel has to have signed for this challenge and caller digest. */
  function ExpectedMessage(w: World, challenge: Challenge, digest: seq<byte>): seq<byte>
    requires |RequestBinding(w, challenge)| <= USER_DATA_BYTES
  {
    digest + PaddedUserData(RequestBinding(w, challenge))
  }

  /** The quote's signature verifies for a message under the trusted key. */
  predicate SignatureVerifies(w: World, quote: Quote, message: seq<byte>)
    requires w.curve.order > 0
  {
    Accepts(w.curve, w.trustedPoint, BigEndian(w.sha256(message)), quote.r, quote.s)
  }

  /** The verifier's check of a quote. */
  predicate QuoteVerifies(w: World, quote: Quote, binding: seq<byte>, digest: seq<byte>)
    requires w.curve.order > 0 && |binding| <= USER_DATA_BYTES
  {
    var expected := PaddedUserData(binding);
    var message := digest + expected;
    && quote.userData == expected
    && quote.publicKey == w.trustedKey
    && quote.hash == w.sha256(message)
    && SignatureVerifies(w, quote, message)
  }

  /** Everything the verify endpoint checks against the stored challenge. */
  predicate Passes(w: World, expected: Challenge, body: Body, digest: seq<byte>)
    requires w.curve.order > 0 && |RequestBinding(w, expected)| <= USER_DATA_BYTES
  {
    && body.request == Some(expected.request)
    && body.nonceText == Some(Hex(expected.nonce))
    && body.quote.Some?
    && QuoteVerifies(w, body.quote.value, RequestBinding(w, expected), digest)
  }

  // ----- The signed result -----

  /** The result object of a positive verdict, members in the order in which they are written. */
  function ResultObject(w: World, id: Id, challenge: Challenge, digest: seq<byte>): (result: Json.Value)
    requires |RequestBinding(w, challenge)| <= USER_DATA_BYTES
    ensures result.Object? && |result.members| == 7
  {
    var binding := RequestBinding(w, challenge);
    var kernelHash := w.sha256(digest + PaddedUserData(binding));
    Json.Object([
      Json.Member(Json.Text("accepted"), Json.Bool(true)),
      Json.Member(Json.Text("challenge_id"), Json.Str(id)),
      Json.Member(Json.Text("digest"), Json.Str(Hex(digest))),
      Json.Member(Json.Text("kernel_hash"), Json.Str(Hex(kernelHash))),
      Json.Member(Json.Text("nonce"), Json.Str(Hex(challenge.nonce))),
      Json.Member(Json.Text("request"), Json.Str(challenge.request)),
      Json.Member(Json.Text("request_binding"), Json.Str(Hex(binding)))])
  }

  /** Before in the order of code points, as Python sorts keys. */
  predicate Precedes(a: seq<CodePoint>, b: seq<CodePoint>) {
    b != [] && (a == [] || a[0] < b[0] || (a[0] == b[0] && Precedes(a[1..], b[1..])))
  }

  /** A name before its own extension, or before one with a larger first letter. */
  lemma {:induction false} PrefixPrecedes(a: seq<CodePoint>, more: seq<CodePoint>)
    requires more != []
    ensures Precedes(a, a + more)
  {
    if a != [] {
      PrefixPrecedes(a[1..], more);
      assert (a + more)[1..] == a[1..] + more;
    }
  }

  /** The members of a result are in the order of their names. */
  lemma ResultIsSorted(w: World, id: Id, challenge: Challenge, digest: seq<byte>, i: nat)
    requires |RequestBinding(w, challenge)| <= USER_DATA_BYTES && i < 6
    ensures var members := ResultObject(w, id, challenge, digest).members; Precedes(members[i].name, members[i + 1].name)
  {
    var members := ResultObject(w, id, challenge, digest).members;
    assert i < 5 ==> members[i].name[0] < members[i + 1].name[0];
    if i == 5 {
      PrefixPrecedes(Json.Text("request"), Json.Text("_binding"));
      assert Json.Text("request") + Json.Text("_binding") == Json.Text("request_binding");
    }
  }

  /** What a reader finds in a result object under each name. */
  lemma ResultFields(w: World, id: Id, challenge: Challenge, digest: seq<byte>)
    requires |RequestBinding(w, challenge)| <= USER_DATA_BYTES
    ensures var members := ResultObject(w, id, challenge, digest).members;
            && Json.Get(members, Json.Text("accepted")) == Json.Bool(true)
            && Json.Get(members, Json.Text("challenge_id")) == Json.Str(id)
            && Json.Get(members, Json.Text("nonce")) == Json.Str(Hex(challenge.nonce))
            && Json.Get(members, Json.Text("request")) == Json.Str(challenge.request)
            && Json.Get(members, Json.Text("digest")) == Json.Str(Hex(digest))
            && Json.Get(members, Json.Text("kernel_hash")) == Json.Str(Hex(w.sha256(ExpectedMessage(w, challenge, digest))))
            && Json.Get(members, Json.Text("request_binding")) == Json.Str(Hex(RequestBinding(w, challenge)))
  {
    hide Json.Get;
    var members := ResultObject(w, id, challenge, digest).members;
    Json.GetAt(members, 0);
    Json.GetAt(members, 1);
    Json.GetAt(members, 2);
    Json.GetAt(members, 3);
    Json.GetAt(members, 4);
    Json.GetAt(members, 5);
    Json.GetAt(members, 6);
  }

  /** The signed bytes determine the whole verdict: id, nonce, request and digest. */
  lemma ResultInjective(w: World, id: Id, challenge: Challenge, digest: seq<byte>, id': Id, challenge': Challenge,
                        digest': seq<byte>)
    requires |RequestBinding(w, challenge)| <= USER_DATA_BYTES && |RequestBinding(w, challenge')| <= USER_DATA_BYTES
    requires Json.Dump(ResultObject(w, id, challenge, digest)) == Json.Dump(ResultObject(w, id', challenge', digest'))
    ensures id == id' && challenge == challenge' && digest == digest'
  {
    hide Json.Dump;
    var result, result' := ResultObject(w, id, challenge, digest), ResultObject(w, id', challenge', digest');
    JsonReader.DumpInjective(result, result');
    assert result.members[2].value == result'.members[2].value && result.members[4].value == result'.members[4].value;
    HexInjective(digest, digest');
    HexInjective(challenge.nonce, challenge'.nonce);
  }

  // ----- The attester -----

  /** What the attester hashes into the quote, from the nonce text and request it was sent. */
  function AttesterBinding(w: World, nonceText: seq<byte>, request: seq<CodePoint>): Option<seq<byte>> {
    var nonce := DecodeHex(nonceText);
    if nonce.None? || |nonce.value| != NONCE_BYTES || request == [] then None
    else Some(w.sha256(DOMAIN + GoContext(nonceText, request)))
  }

  /** The quote made from the signing reply; None if the key changed since it was read. */
  function AttesterQuote(publicKey: seq<byte>, reply: SignDataReq): (quote: Option<Quote>)
    ensures quote.Some? ==> quote.value.publicKey == reply.pubkey && quote.value.userData == reply.userData
  {
    if reply.pubkey != publicKey then None
    else Some(Quote(reply.hash, publicKey, BigEndian(reply.sigR), BigEndian(reply.sigS), reply.userData))
  }

  lemma PaddingInjective(a: seq<byte>, b: seq<byte>)
    requires |a| == |b| <= USER_DATA_BYTES && PaddedUserData(a) == PaddedUserData(b)
    ensures a == b
  {
    assert a == PaddedUserData(a)[..|a|] && b == PaddedUserData(b)[..|b|];
  }

  /** The last 128 bytes of a signed message are the user data, so the digest is the rest. */
  lemma MessageParts(digest: seq<byte>, userData: seq<byte>, digest': seq<byte>, userData': seq<byte>)
    requires digest + userData == digest' + userData' && |userData| == |userData'|
    ensures digest == digest' && userData == userData'
  {
    var message := digest + userData;
    assert digest == message[..|digest|] && digest' == (digest' + userData')[..|digest'|];
    assert userData == message[|digest|..] && userData' == (digest' + userData')[|digest'|..];
  }

  /** From the kernel's reply to the verifier's verdict: a genuine quote is accepted exactly when
      the attester bound the verifier's own binding and the signed message hashes like the
      approved one. On the way to the verifier nothing in an acceptable quote can be replaced: not
      its user data, key or hash, and its signature only by another that verifies. */
  lemma GenuineQuoteVerdict(w: World, kp: KeyPair, digest: seq<byte>, bound: seq<byte>, reply: SignDataReq,
                            binding: seq<byte>, approved: seq<byte>)
    requires WorldSound(w) && |bound| == |binding| == P256_BYTES
    requires Trusts(w, kp)
    requires GenuineReply(w.curve, w.sha256, kp, digest, PaddedUserData(bound), reply)
    ensures AttesterQuote(kp.pubkey, reply).Some?
    ensures QuoteVerifies(w, AttesterQuote(kp.pubkey, reply).value, binding, approved)
       <==> bound == binding
            && w.sha256(digest + PaddedUserData(binding)) == w.sha256(approved + PaddedUserData(binding))
    ensures var quote := AttesterQuote(kp.pubkey, reply).value;
            QuoteVerifies(w, quote, binding, approved) ==>
              && (forall u :: QuoteVerifies(w, quote.(userData := u), binding, approved) ==> u == quote.userData)
              && (forall key :: QuoteVerifies(w, quote.(publicKey := key), binding, approved) ==> key == quote.publicKey)
              && (forall h :: QuoteVerifies(w, quote.(hash := h), binding, approved) ==> h == quote.hash)
              && (forall r, s :: QuoteVerifies(w, quote.(r := r, s := s), binding, approved) ==>
                    Accepts(w.curve, Vli.Value(kp.private), BigEndian(reply.hash), r, s))
  {
    if PaddedUserData(bound) == PaddedUserData(binding) {
      PaddingInjective(bound, binding);
    }
  }

  /** What the attester hashes when it is sent this challenge as issued. */
  function HashedByAttester(challenge: Challenge): seq<byte> {
    DOMAIN + GoContext(Hex(challenge.nonce), challenge.request)
  }

  /** Sent a challenge as it was issued, the attester hashes the verifier's context exactly when
      every character of the request is one both encoders write alike. */
  lemma HashedAlikeIff(challenge: Challenge)
    ensures HashedByAttester(challenge) == Context(challenge) <==> AllWrittenAlike(challenge.request)
  {
    HexDecodes(challenge.nonce);
    ContextsAgreeIff(Hex(challenge.nonce), challenge.request);
    var go, python := GoContext(Hex(challenge.nonce), challenge.request), PythonContext(challenge.nonce, challenge.request);
    assert (DOMAIN + go)[|DOMAIN|..] == go && (DOMAIN + python)[|DOMAIN|..] == python;
  }

  /** The attester takes exactly 64 hexadecimal digits, in either case, and a nonempty request. */
  lemma AttesterTakesIff(w: World, nonceText: seq<byte>, request: seq<CodePoint>)
    ensures AttesterBinding(w, nonceText, request).Some? <==> |nonceText| == 64 && IsHexText(nonceText) && request != []
  {
    DecodesIff(nonceText);
  }

  /** An issued challenge passes the attester's own checks. */
  lemma AttesterBindsTheChallenge(w: World, challenge: Challenge)
    requires |challenge.nonce| == NONCE_BYTES && challenge.request != []
    ensures AttesterBinding(w, Hex(challenge.nonce), challenge.request) == Some(w.sha256(HashedByAttester(challenge)))
  {
    HexDecodes(challenge.nonce);
  }

  predicate AllWrittenAlike(request: seq<CodePoint>) {
    forall i :: 0 <= i < |request| ==> WrittenAlike(request[i])
  }

  ghost predicate Trusts(w: World, kp: KeyPair) {
    w.trustedKey == kp.pubkey && w.trustedPoint == Vli.Value(kp.private)
  }

  /** The kernel's reply to an attester that was sent this challenge and runs with this digest. */
  ghost predicate RepliesToAttester(w: World, kp: KeyPair, challenge: Challenge, digest: seq<byte>, reply: SignDataReq)
    requires WorldSound(w)
  {
    var bound := AttesterBinding(w, Hex(challenge.nonce), challenge.request);
    bound.Some? && GenuineReply(w.curve, w.sha256, kp, digest, PaddedUserData(bound.value), reply)
  }

  /** The verification request an honest client makes of that reply. */
  function HonestBody(id: Id, challenge: Challenge, kp: KeyPair, reply: SignDataReq): Body {
    Body(id, Some(challenge.request), Some(Hex(challenge.nonce)), AttesterQuote(kp.pubkey, reply))
  }

  /** The hash does not collide on these two strings. */
  ghost predicate CollisionFree(w: World, a: seq<byte>, b: seq<byte>) {
    w.sha256(a) == w.sha256(b) ==> a == b
  }

  /** For any nonce text it takes, and barring a collision, the attester binds what the verifier would
      bind for that nonce exactly when the text is in lower case and the request is written alike. */
  lemma AttesterMatchesIff(w: World, nonceText: seq<byte>, request: seq<CodePoint>)
    requires AttesterBinding(w, nonceText, request).Some?
    requires CollisionFree(w, DOMAIN + GoContext(nonceText, request), Context(Challenge(DecodeHex(nonceText).value, request)))
    ensures AttesterBinding(w, nonceText, request).value == RequestBinding(w, Challenge(DecodeHex(nonceText).value, request))
       <==> LowerCase(nonceText) && AllWrittenAlike(request)
  {
    var go, python := GoContext(nonceText, request), PythonContext(DecodeHex(nonceText).value, request);
    ContextsAgreeIff(nonceText, request);
    assert (DOMAIN + go)[|DOMAIN|..] == go && (DOMAIN + python)[|DOMAIN|..] == python;
  }

  /** The whole honest flow: an approved caller's kernel quote for an issued challenge is accepted
      when both encoders write the request alike. */
  lemma HonestFlowIsAccepted(w: World, kp: KeyPair, id: Id, challenge: Challenge, digest: seq<byte>, reply: SignDataReq)
    requires WorldSound(w) && Trusts(w, kp)
    requires AllWrittenAlike(challenge.request) && RepliesToAttester(w, kp, challenge, digest, reply)
    ensures Passes(w, challenge, HonestBody(id, challenge, kp, reply), digest)
  {
    HashedAlikeIff(challenge);
    var binding := RequestBinding(w, challenge);
    GenuineQuoteVerdict(w, kp, digest, binding, reply, binding, digest);
  }

  /** Everybody honest, a collision-free hash: the verdict is positive exactly when the caller has
      the approved digest and every character of the request is one both encoders write alike.
      So a request with, say, an angle bracket or an accented letter is always refused. */
  lemma HonestFlowVerdict(w: World, kp: KeyPair, id: Id, challenge: Challenge, digest: seq<byte>, reply: SignDataReq,
                          approved: seq<byte>)
    requires WorldSound(w) && Trusts(w, kp)
    requires RepliesToAttester(w, kp, challenge, digest, reply)
    requires CollisionFree(w, HashedByAttester(challenge), Context(challenge))
    requires var userData := PaddedUserData(RequestBinding(w, challenge));
             CollisionFree(w, digest + userData, approved + userData)
    ensures Passes(w, challenge, HonestBody(id, challenge, kp, reply), approved)
       <==> digest == approved && AllWrittenAlike(challenge.request)
  {
    HashedAlikeIff(challenge);
    var bound, binding := w.sha256(HashedByAttester(challenge)), RequestBinding(w, challenge);
    var userData := PaddedUserData(binding);
    GenuineQuoteVerdict(w, kp, digest, bound, reply, binding, approved);
    if digest + userData == approved + userData {
      MessageParts(digest, userData, approved, userData);
    }
  }

  /** The honest flow fails on a request that is a single angle bracket, whatever digest is approved. */
  lemma BracketIsRefused(w: World, kp: KeyPair, id: Id, nonce: seq<byte>, digest: seq<byte>, reply: SignDataReq,
                         approved: seq<byte>)
    requires WorldSound(w) && Trusts(w, kp)
    requires var challenge := Challenge(nonce, [0x3C]);
             && RepliesToAttester(w, kp, challenge, digest, reply)
             && CollisionFree(w, HashedByAttester(challenge), Context(challenge))
    ensures var challenge := Challenge(nonce, [0x3C]);
            !Passes(w, challenge, HonestBody(id, challenge, kp, reply), approved)
  {
    var challenge := Challenge(nonce, [0x3C]);
    assert !WrittenAlike(challenge.request[0]);
    HashedAlikeIff(challenge);
    GenuineQuoteVerdict(w, kp, digest, w.sha256(HashedByAttester(challenge)), reply, RequestBinding(w, challenge), approved);
  }
}
