/** Symbolic messages of the cached-session attestation protocol.

    Terms carry no types: as in the symbolic model with types ignored, the
    attacker may put any term anywhere, including in the place of a key. */
module Terms {

  /** Owners of the five private signing keys. */
  datatype KeyOwner = TdxAttestation | TdxVerifier | ImaVerifier | TarakoSigner | RelyingVerifier

  /** Public reference values. */
  datatype ReferenceValue =
    | Network
    | ApprovedTaDigest
    | UnapprovedTaDigest
    | ApprovedTdxMeasurement
    | ApprovedImaPolicyState
    | UnapprovedImaPolicyState

  datatype Term =
    | SigningKey(owner: KeyOwner)
    | Reference(value: ReferenceValue)
    | Fresh(id: nat)
      // One-way constructors.
    | PublicKey(key: Term)
    | Sign(message: Term, key: Term)
    | Hash(preimage: Term)
    | ImaRoot(measuredKey: Term, policyState: Term)
      // Data constructors, which anybody can take apart.
    | VerificationRequest(request: Term)
    | SessionContext(sessionId: Term, verifierNonce: Term)
    | RequestContext(request: Term, requestNonce: Term)
    | TdxRequest(challenge: Term)
    | TdxClaim(challenge: Term, measurement: Term, rtmr: Term)
    | TdxAppraisalRequest(quote: Term)
    | TdxAppraisalAnswer(quoteBinding: Term, challenge: Term, rtmr: Term)
    | ImaRequest(tdxBinding: Term)
    | ImaEvidence(tdxBinding: Term, root: Term, tarakoKey: Term)
    | ImaAppraisalRequest(tdxAnswer: Term, evidence: Term)
    | ImaAppraisalAnswer(tdxBinding: Term, evidenceBinding: Term, tarakoKey: Term)
    | TarakoRequest(binding: Term)
    | UntrustedTarakoRequest(binding: Term)
    | TarakoClaim(binding: Term, digest: Term)
    | IntegrityVerdict(request: Term, digest: Term)
    | ImaKeyEntry(tarakoKey: Term)
    | RtmrWithIma(root: Term)

  /** The immediate subterms. */
  function Children(t: Term): (children: seq<Term>)
    ensures forall c :: c in children ==> c < t
  {
    match t
    case SigningKey(_) => []
    case Reference(_) => []
    case Fresh(_) => []
    case PublicKey(a) => [a]
    case Sign(a, b) => [a, b]
    case Hash(a) => [a]
    case ImaRoot(a, b) => [a, b]
    case VerificationRequest(a) => [a]
    case SessionContext(a, b) => [a, b]
    case RequestContext(a, b) => [a, b]
    case TdxRequest(a) => [a]
    case TdxClaim(a, b, c) => [a, b, c]
    case TdxAppraisalRequest(a) => [a]
    case TdxAppraisalAnswer(a, b, c) => [a, b, c]
    case ImaRequest(a) => [a]
    case ImaEvidence(a, b, c) => [a, b, c]
    case ImaAppraisalRequest(a, b) => [a, b]
    case ImaAppraisalAnswer(a, b, c) => [a, b, c]
    case TarakoRequest(a) => [a]
    case UntrustedTarakoRequest(a) => [a]
    case TarakoClaim(a, b) => [a, b]
    case IntegrityVerdict(a, b) => [a, b]
    case ImaKeyEntry(a) => [a]
    case RtmrWithIma(a) => [a]
  }

  /** Terms whose arguments can be projected out. */
  predicate IsData(t: Term) {
    !t.SigningKey? && !t.Reference? && !t.Fresh? && !t.PublicKey? && !t.Sign? && !t.Hash? && !t.ImaRoot?
  }

  /** Terms anybody can build from their arguments: everything but private names. */
  predicate IsConstructible(t: Term) {
    !t.SigningKey? && !t.Fresh?
  }

  /** The rewrite rule verify(sign(m, k), public_key(k)) = m, in the form of a guard. */
  predicate Verifies(signed: Term, publicKey: Term) {
    signed.Sign? && publicKey == PublicKey(signed.key)
  }

  /** x occurs somewhere inside t, key positions included. */
  ghost predicate Subterm(x: Term, t: Term)
    decreases t
  {
    x == t || exists c :: c in Children(t) && Subterm(x, c)
  }

  const APPROVED_DIGEST := Reference(ApprovedTaDigest)
  const UNAPPROVED_DIGEST := Reference(UnapprovedTaDigest)
  const APPROVED_MEASUREMENT := Reference(ApprovedTdxMeasurement)
  const TARAKO_PUBLIC_KEY := PublicKey(SigningKey(TarakoSigner))
  const APPROVED_ROOT := ImaRoot(TARAKO_PUBLIC_KEY, Reference(ApprovedImaPolicyState))
  const UNAPPROVED_ROOT := ImaRoot(TARAKO_PUBLIC_KEY, Reference(UnapprovedImaPolicyState))
}
