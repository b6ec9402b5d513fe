/** Establishment of cached sessions, repeated requests under them, and a
    network wholly controlled by an attacker. One action is one role's
    receive-check-send step, or one deduction by the attacker. */
module Protocol {
  import opened Terms

  datatype Event =
    | TdxQuoteIssued(challenge: Term, measurement: Term, rtmr: Term)
    | TdxQuoteVerified(challenge: Term, measurement: Term, rtmr: Term)
    | TdxAnswerIssued(answerBinding: Term, quoteBinding: Term, challenge: Term, rtmr: Term)
    | TdxAnswerAccepted(answerBinding: Term, quoteBinding: Term, challenge: Term, rtmr: Term)
    | ImaLogCommitted(root: Term, key: Term)
    | ImaEvidenceVerified(tdxBinding: Term, root: Term, key: Term)
    | ImaAnswerIssued(answerBinding: Term, tdxBinding: Term, evidenceBinding: Term, key: Term)
    | ImaAnswerAccepted(answerBinding: Term, tdxBinding: Term, evidenceBinding: Term, key: Term)
    | TarakoQuoteIssued(binding: Term, digest: Term)
    | TarakoQuoteAccepted(cache: Term, binding: Term, digest: Term)
    | IntegrityVerdictIssued(request: Term, digest: Term)
    | ClientAcceptedIntegrity(request: Term, digest: Term)

  /** One relying-verifier instance, by how far its establishment has come. */
  datatype Session =
    | AwaitingQuote(sessionId: nat, nonce: nat)
    | AwaitingTdxAnswer(sessionId: nat, nonce: nat, quote: Term)
    | AwaitingEvidence(sessionId: nat, nonce: nat, quote: Term, tdxAnswer: Term, rtmr: Term)
    | AwaitingImaAnswer(sessionId: nat, nonce: nat, quote: Term, tdxAnswer: Term, rtmr: Term, evidence: Term)
    | Established(sessionId: nat, nonce: nat, quote: Term, tdxAnswer: Term, rtmr: Term, evidence: Term,
                  imaAnswer: Term, key: Term)

  function Challenge(session: Session): Term {
    Hash(SessionContext(Fresh(session.sessionId), Fresh(session.nonce)))
  }

  /** One copy of the replicated request handler inside an established session. */
  datatype Request = Request(session: nat, clientRequest: Term, nonce: nat, accepted: bool)

  function Binding(request: Request): Term {
    Hash(RequestContext(request.clientRequest, Fresh(request.nonce)))
  }

  datatype Client = Client(request: nat, accepted: bool)

  datatype State = State(
    knowledge: set<Term>,          // what the attacker has; every message passes through it
    next: nat,                     // all names below have been generated
    imaLog: set<(Term, Term)>,
    sessions: seq<Session>,
    requests: seq<Request>,
    clients: seq<Client>,
    log: seq<Event>)

  function Initial(): State {
    State({}, 0, {(APPROVED_ROOT, ImaKeyEntry(TARAKO_PUBLIC_KEY))}, [], [], [],
          [ImaLogCommitted(APPROVED_ROOT, TARAKO_PUBLIC_KEY)])
  }

  datatype Action =
      // Attacker deductions.
    | GenerateName
    | Construct(term: Term)
    | Project(term: Term, part: Term)
    | OpenSignature(signed: Term, publicKey: Term)
      // Evidence sources and appraisal services.
    | QuoteTdx(challenge: Term, root: Term)
    | AppraiseTdx(quote: Term)
    | SendImaLog(tdxBinding: Term)
    | AppraiseIma(tdxAnswer: Term, evidence: Term)
    | SignTarako(binding: Term)
    | SignUntrusted(binding: Term)
      // Relying verifier.
    | StartSession
    | ReceiveQuote(session: nat, quote: Term)
    | ReceiveTdxAnswer(session: nat, tdxAnswer: Term)
    | ReceiveEvidence(session: nat, evidence: Term)
    | ReceiveImaAnswer(session: nat, imaAnswer: Term)
    | StartRequest(session: nat, clientRequest: Term)
    | ReceiveTarakoQuote(request: nat, quote: Term)
      // Client.
    | StartClient
    | ReceiveVerdict(client: nat, verdict: Term)

  /** The checks a role makes before it answers; every input comes from the network. */
  predicate Enabled(s: State, a: Action) {
    match a
    case GenerateName => true
    case Construct(t) => IsConstructible(t) && forall c :: c in Children(t) ==> c in s.knowledge
    case Project(t, part) => t in s.knowledge && IsData(t) && part in Children(t)
    case OpenSignature(signed, pk) => signed in s.knowledge && pk in s.knowledge && Verifies(signed, pk)
    case QuoteTdx(challenge, root) =>
      TdxRequest(challenge) in s.knowledge && (root == APPROVED_ROOT || root == UNAPPROVED_ROOT)
    case AppraiseTdx(quote) =>
      && TdxAppraisalRequest(quote) in s.knowledge
      && Verifies(quote, PublicKey(SigningKey(TdxAttestation)))
      && quote.message.TdxClaim?
      && quote.message.measurement == APPROVED_MEASUREMENT
    case SendImaLog(tdxBinding) => ImaRequest(tdxBinding) in s.knowledge
    case AppraiseIma(tdxAnswer, evidence) =>
      && ImaAppraisalRequest(tdxAnswer, evidence) in s.knowledge
      && Verifies(tdxAnswer, PublicKey(SigningKey(TdxVerifier)))
      && tdxAnswer.message.TdxAppraisalAnswer?
      && evidence.ImaEvidence?
      && evidence.tdxBinding == Hash(tdxAnswer)
      && tdxAnswer.message.rtmr == RtmrWithIma(evidence.root)
      && (evidence.root, ImaKeyEntry(evidence.tarakoKey)) in s.imaLog
    case SignTarako(binding) => TarakoRequest(binding) in s.knowledge
    case SignUntrusted(binding) => UntrustedTarakoRequest(binding) in s.knowledge
    case StartSession => true
    case ReceiveQuote(i, quote) =>
      i < |s.sessions| && s.sessions[i].AwaitingQuote? && quote in s.knowledge
    case ReceiveTdxAnswer(i, answer) =>
      && i < |s.sessions| && s.sessions[i].AwaitingTdxAnswer?
      && answer in s.knowledge
      && Verifies(answer, PublicKey(SigningKey(TdxVerifier)))
      && answer.message.TdxAppraisalAnswer?
      && answer.message.quoteBinding == Hash(s.sessions[i].quote)
      && answer.message.challenge == Challenge(s.sessions[i])
    case ReceiveEvidence(i, evidence) =>
      i < |s.sessions| && s.sessions[i].AwaitingEvidence? && evidence in s.knowledge
    case ReceiveImaAnswer(i, answer) =>
      && i < |s.sessions| && s.sessions[i].AwaitingImaAnswer?
      && answer in s.knowledge
      && Verifies(answer, PublicKey(SigningKey(ImaVerifier)))
      && answer.message.ImaAppraisalAnswer?
      && answer.message.tdxBinding == Hash(s.sessions[i].tdxAnswer)
      && answer.message.evidenceBinding == Hash(s.sessions[i].evidence)
    case StartRequest(i, clientRequest) =>
      i < |s.sessions| && s.sessions[i].Established? && VerificationRequest(clientRequest) in s.knowledge
    case ReceiveTarakoQuote(k, quote) =>
      && k < |s.requests| && !s.requests[k].accepted
      && s.requests[k].session < |s.sessions| && s.sessions[s.requests[k].session].Established?
      && quote in s.knowledge
      && Verifies(quote, s.sessions[s.requests[k].session].key)
      && quote.message.TarakoClaim?
      && quote.message.binding == Binding(s.requests[k])
      && quote.message.digest == APPROVED_DIGEST
    case StartClient => true
    case ReceiveVerdict(c, verdict) =>
      && c < |s.clients| && !s.clients[c].accepted
      && verdict in s.knowledge
      && Verifies(verdict, PublicKey(SigningKey(RelyingVerifier)))
      && verdict.message.IntegrityVerdict?
      && verdict.message.request == Fresh(s.clients[c].request)
  }

  /** Put a message on the network and record events. */
  function Emit(s: State, message: Term, events: seq<Event>): State {
    s.(knowledge := s.knowledge + {message}, log := s.log + events)
  }

  function TdxAnswerFor(quote: Term): Term
    requires quote.Sign? && quote.message.TdxClaim?
  {
    Sign(TdxAppraisalAnswer(Hash(quote), quote.message.challenge, quote.message.rtmr), SigningKey(TdxVerifier))
  }

  function ImaAnswerFor(tdxAnswer: Term, evidence: Term): Term
    requires evidence.ImaEvidence?
  {
    Sign(ImaAppraisalAnswer(Hash(tdxAnswer), Hash(evidence), evidence.tarakoKey), SigningKey(ImaVerifier))
  }

  function Apply(s: State, a: Action): State
    requires Enabled(s, a)
  {
    match a
    case GenerateName => s.(knowledge := s.knowledge + {Fresh(s.next)}, next := s.next + 1)
    case Construct(t) => Emit(s, t, [])
    case Project(_, part) => Emit(s, part, [])
    case OpenSignature(signed, _) => Emit(s, signed.message, [])
    case QuoteTdx(challenge, root) =>
      Emit(s, Sign(TdxClaim(challenge, APPROVED_MEASUREMENT, RtmrWithIma(root)), SigningKey(TdxAttestation)),
           [TdxQuoteIssued(challenge, APPROVED_MEASUREMENT, RtmrWithIma(root))])
    case AppraiseTdx(quote) =>
      var claim := quote.message;
      var answer := TdxAnswerFor(quote);
      Emit(s, answer,
           [TdxQuoteVerified(claim.challenge, APPROVED_MEASUREMENT, claim.rtmr),
            TdxAnswerIssued(Hash(answer), Hash(quote), claim.challenge, claim.rtmr)])
    case SendImaLog(tdxBinding) =>
      Emit(s, ImaEvidence(tdxBinding, APPROVED_ROOT, TARAKO_PUBLIC_KEY), [])
    case AppraiseIma(tdxAnswer, evidence) =>
      var answer := ImaAnswerFor(tdxAnswer, evidence);
      Emit(s, answer,
           [ImaEvidenceVerified(Hash(tdxAnswer), evidence.root, evidence.tarakoKey),
            ImaAnswerIssued(Hash(answer), Hash(tdxAnswer), Hash(evidence), evidence.tarakoKey)])
    case SignTarako(binding) =>
      Emit(s, Sign(TarakoClaim(binding, APPROVED_DIGEST), SigningKey(TarakoSigner)),
           [TarakoQuoteIssued(binding, APPROVED_DIGEST)])
    case SignUntrusted(binding) =>
      Emit(s, Sign(TarakoClaim(binding, UNAPPROVED_DIGEST), SigningKey(TarakoSigner)),
           [TarakoQuoteIssued(binding, UNAPPROVED_DIGEST)])
    case StartSession =>
      var session := AwaitingQuote(s.next, s.next + 1);
      Emit(s, TdxRequest(Challenge(session)), []).(next := s.next + 2, sessions := s.sessions + [session])
    case ReceiveQuote(i, quote) =>
      var was := s.sessions[i];
      Emit(s, TdxAppraisalRequest(quote), [])
      .(sessions := s.sessions[i := AwaitingTdxAnswer(was.sessionId, was.nonce, quote)])
    case ReceiveTdxAnswer(i, answer) =>
      var was := s.sessions[i];
      Emit(s, ImaRequest(Hash(answer)),
           [TdxAnswerAccepted(Hash(answer), Hash(was.quote), Challenge(was), answer.message.rtmr)])
      .(sessions := s.sessions[i := AwaitingEvidence(was.sessionId, was.nonce, was.quote, answer,
                                                     answer.message.rtmr)])
    case ReceiveEvidence(i, evidence) =>
      var was := s.sessions[i];
      Emit(s, ImaAppraisalRequest(was.tdxAnswer, evidence), [])
      .(sessions := s.sessions[i := AwaitingImaAnswer(was.sessionId, was.nonce, was.quote, was.tdxAnswer,
                                                      was.rtmr, evidence)])
    case ReceiveImaAnswer(i, answer) =>
      var was := s.sessions[i];
      s.(log := s.log + [ImaAnswerAccepted(Hash(answer), Hash(was.tdxAnswer), Hash(was.evidence),
                                           answer.message.tarakoKey)],
         sessions := s.sessions[i := Established(was.sessionId, was.nonce, was.quote, was.tdxAnswer, was.rtmr,
                                                 was.evidence, answer, answer.message.tarakoKey)])
    case StartRequest(i, clientRequest) =>
      var request := Request(i, clientRequest, s.next, false);
      Emit(s, TarakoRequest(Binding(request)), []).(next := s.next + 1, requests := s.requests + [request])
    case ReceiveTarakoQuote(k, quote) =>
      var request := s.requests[k];
      var digest := quote.message.digest;
      Emit(s, Sign(IntegrityVerdict(request.clientRequest, digest), SigningKey(RelyingVerifier)),
           [TarakoQuoteAccepted(Hash(s.sessions[request.session].imaAnswer), Binding(request), digest),
            IntegrityVerdictIssued(request.clientRequest, digest)])
      .(requests := s.requests[k := request.(accepted := true)])
    case StartClient =>
      Emit(s, VerificationRequest(Fresh(s.next)), [])
      .(next := s.next + 1, clients := s.clients + [Client(s.next, false)])
    case ReceiveVerdict(c, verdict) =>
      s.(log := s.log + [ClientAcceptedIntegrity(verdict.message.request, verdict.message.digest)],
         clients := s.clients[c := s.clients[c].(accepted := true)])
  }

  /** s is the state after performing actions, in order, from the start. */
  ghost predicate Run(actions: seq<Action>, s: State) {
    if actions == [] then s == Initial()
    else
      var last := |actions| - 1;
      exists before: State ::
        Run(actions[..last], before) && Enabled(before, actions[last]) && s == Apply(before, actions[last])
  }

  ghost predicate Reachable(s: State) {
    exists actions :: Run(actions, s)
  }
}
