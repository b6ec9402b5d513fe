/** What every run of the protocol keeps: an inductive invariant over the
    attacker's knowledge, the event log and the roles' state, and the
    correspondences that follow from it. */
module ProtocolSafety {
  import opened Terms
  import opened Protocol

  /** The owner of a signing key issued exactly this message. */
  ghost predicate Issued(owner: KeyOwner, m: Term, log: seq<Event>) {
    match owner
    case TdxAttestation => m.TdxClaim? && TdxQuoteIssued(m.challenge, m.measurement, m.rtmr) in log
    case TdxVerifier =>
      && m.TdxAppraisalAnswer?
      && TdxAnswerIssued(Hash(Sign(m, SigningKey(TdxVerifier))), m.quoteBinding, m.challenge, m.rtmr) in log
    case ImaVerifier =>
      && m.ImaAppraisalAnswer?
      && ImaAnswerIssued(Hash(Sign(m, SigningKey(ImaVerifier))), m.tdxBinding, m.evidenceBinding, m.tarakoKey) in log
    case TarakoSigner => m.TarakoClaim? && TarakoQuoteIssued(m.binding, m.digest) in log
    case RelyingVerifier => m.IntegrityVerdict? && IntegrityVerdictIssued(m.request, m.digest) in log
  }

  /** No private key can be pulled out of t, and honest signatures in t are genuine. */
  ghost predicate Clean(t: Term, log: seq<Event>)
    decreases t
  {
    match t
    case SigningKey(_) => false
    case PublicKey(k) => k.SigningKey? || Clean(k, log)
    case Sign(m, k) => Clean(m, log) && (if k.SigningKey? then Issued(k.owner, m, log) else Clean(k, log))
    case Reference(_) => true
    case Fresh(_) => true
    case Hash(a) => Clean(a, log)
    case ImaRoot(a, b) => Clean(a, log) && Clean(b, log)
    case VerificationRequest(a) => Clean(a, log)
    case SessionContext(a, b) => Clean(a, log) && Clean(b, log)
    case RequestContext(a, b) => Clean(a, log) && Clean(b, log)
    case TdxRequest(a) => Clean(a, log)
    case TdxClaim(a, b, c) => Clean(a, log) && Clean(b, log) && Clean(c, log)
    case TdxAppraisalRequest(a) => Clean(a, log)
    case TdxAppraisalAnswer(a, b, c) => Clean(a, log) && Clean(b, log) && Clean(c, log)
    case ImaRequest(a) => Clean(a, log)
    case ImaEvidence(a, b, c) => Clean(a, log) && Clean(b, log) && Clean(c, log)
    case ImaAppraisalRequest(a, b) => Clean(a, log) && Clean(b, log)
    case ImaAppraisalAnswer(a, b, c) => Clean(a, log) && Clean(b, log) && Clean(c, log)
    case TarakoRequest(a) => Clean(a, log)
    case UntrustedTarakoRequest(a) => Clean(a, log)
    case TarakoClaim(a, b) => Clean(a, log) && Clean(b, log)
    case IntegrityVerdict(a, b) => Clean(a, log) && Clean(b, log)
    case ImaKeyEntry(a) => Clean(a, log)
    case RtmrWithIma(a) => Clean(a, log)
  }

  lemma {:induction false} CleanGrows(t: Term, log: seq<Event>, events: seq<Event>)
    requires Clean(t, log)
    ensures Clean(t, log + events)
    decreases t
  {
    forall c | c in Children(t) && Clean(c, log) ensures Clean(c, log + events) {
      CleanGrows(c, log, events);
    }
  }

  /** Inside a clean term every honest signature, at any depth, is genuine. */
  lemma {:induction false} CleanSignatures(t: Term, m: Term, owner: KeyOwner, log: seq<Event>)
    requires Clean(t, log)
    requires Subterm(Sign(m, SigningKey(owner)), t)
    ensures Issued(owner, m, log)
    decreases t
  {
    if t != Sign(m, SigningKey(owner)) {
      var c :| c in Children(t) && Subterm(Sign(m, SigningKey(owner)), c);
      CleanSignatures(c, m, owner, log);
    }
  }

  /** What must already have happened when an event is recorded. */
  ghost predicate Justified(e: Event, before: seq<Event>) {
    match e
    case TdxQuoteIssued(_, measurement, rtmr) =>
      measurement == APPROVED_MEASUREMENT && (rtmr == RtmrWithIma(APPROVED_ROOT) || rtmr == RtmrWithIma(UNAPPROVED_ROOT))
    case TdxQuoteVerified(challenge, measurement, rtmr) =>
      measurement == APPROVED_MEASUREMENT && TdxQuoteIssued(challenge, measurement, rtmr) in before
    case TdxAnswerIssued(answerBinding, quoteBinding, challenge, rtmr) =>
      && answerBinding == Hash(Sign(TdxAppraisalAnswer(quoteBinding, challenge, rtmr), SigningKey(TdxVerifier)))
      && quoteBinding == Hash(Sign(TdxClaim(challenge, APPROVED_MEASUREMENT, rtmr), SigningKey(TdxAttestation)))
      && TdxQuoteVerified(challenge, APPROVED_MEASUREMENT, rtmr) in before
    case TdxAnswerAccepted(answerBinding, quoteBinding, challenge, rtmr) =>
      TdxAnswerIssued(answerBinding, quoteBinding, challenge, rtmr) in before
    case ImaLogCommitted(root, key) => root == APPROVED_ROOT && key == TARAKO_PUBLIC_KEY
    case ImaEvidenceVerified(tdxBinding, root, key) =>
      && ImaLogCommitted(root, key) in before
      && exists quoteBinding, challenge ::
           TdxAnswerIssued(tdxBinding, quoteBinding, challenge, RtmrWithIma(root)) in before
    case ImaAnswerIssued(answerBinding, tdxBinding, evidenceBinding, key) =>
      && answerBinding == Hash(Sign(ImaAppraisalAnswer(tdxBinding, evidenceBinding, key), SigningKey(ImaVerifier)))
      && exists root ::
           ImaEvidenceVerified(tdxBinding, root, key) in before && evidenceBinding == Hash(ImaEvidence(tdxBinding, root, key))
    case ImaAnswerAccepted(answerBinding, tdxBinding, evidenceBinding, key) =>
      ImaAnswerIssued(answerBinding, tdxBinding, evidenceBinding, key) in before
    case TarakoQuoteIssued(_, digest) => digest == APPROVED_DIGEST || digest == UNAPPROVED_DIGEST
    case TarakoQuoteAccepted(cache, binding, digest) =>
      && digest == APPROVED_DIGEST
      && TarakoQuoteIssued(binding, digest) in before
      && exists tdxBinding, evidenceBinding, key :: ImaAnswerIssued(cache, tdxBinding, evidenceBinding, key) in before
    case IntegrityVerdictIssued(request, digest) =>
      exists cache, nonce :: TarakoQuoteAccepted(cache, Hash(RequestContext(request, Fresh(nonce))), digest) in before
    case ClientAcceptedIntegrity(request, digest) =>
      IntegrityVerdictIssued(request, digest) in before
  }

  ghost predicate LogJustified(log: seq<Event>) {
    forall i {:trigger Justified(log[i], log[..i])} :: 0 <= i < |log| ==> Justified(log[i], log[..i])
  }

  lemma LogExtends(log: seq<Event>, e: Event)
    requires LogJustified(log) && Justified(e, log)
    ensures LogJustified(log + [e])
  {
    forall i | 0 <= i < |log + [e]| ensures Justified((log + [e])[i], (log + [e])[..i]) {
      assert (log + [e])[..i] == log[..i];
      assert i == |log| ==> log[..i] == log;
    }
  }

  /** A recorded event was justified, also by the whole log. */
  lemma RecordedIsJustified(log: seq<Event>, e: Event)
    requires LogJustified(log) && e in log
    ensures Justified(e, log)
  {
    var i :| 0 <= i < |log| && log[i] == e;
    assert Justified(e, log[..i]);
    assert forall x :: x in log[..i] ==> x in log;
  }

  lemma LogExtendsBy(log: seq<Event>, e1: Event, e2: Event)
    requires LogJustified(log) && Justified(e1, log) && Justified(e2, log + [e1])
    ensures LogJustified(log + [e1, e2])
  {
    LogExtends(log, e1);
    LogExtends(log + [e1], e2);
    assert log + [e1] + [e2] == log + [e1, e2];
  }

  ghost predicate KnowledgeClean(knowledge: set<Term>, log: seq<Event>) {
    forall t :: t in knowledge ==> Clean(t, log)
  }

  lemma KnowledgeGrows(knowledge: set<Term>, log: seq<Event>, message: Term, events: seq<Event>)
    requires KnowledgeClean(knowledge, log) && Clean(message, log + events)
    ensures KnowledgeClean(knowledge + {message}, log + events)
  {
    forall t | t in knowledge ensures Clean(t, log + events) { CleanGrows(t, log, events); }
  }

  /** A session's stored inputs came from the network and its checks have passed. */
  ghost predicate SessionSound(session: Session, knowledge: set<Term>, log: seq<Event>) {
    && (session.AwaitingTdxAnswer? ==> session.quote in knowledge)
    && (session.AwaitingEvidence? || session.AwaitingImaAnswer? || session.Established? ==>
          && session.tdxAnswer in knowledge
          && TdxAnswerAccepted(Hash(session.tdxAnswer), Hash(session.quote), Challenge(session), session.rtmr) in log)
    && (session.AwaitingImaAnswer? ==> session.evidence in knowledge)
    && (session.Established? ==>
          ImaAnswerAccepted(Hash(session.imaAnswer), Hash(session.tdxAnswer), Hash(session.evidence), session.key)
          in log)
  }

  ghost predicate SessionsSound(sessions: seq<Session>, knowledge: set<Term>, log: seq<Event>) {
    forall i :: 0 <= i < |sessions| ==> SessionSound(sessions[i], knowledge, log)
  }

  lemma SessionsGrow(sessions: seq<Session>, knowledge: set<Term>, log: seq<Event>, message: Term, events: seq<Event>)
    requires SessionsSound(sessions, knowledge, log)
    ensures SessionsSound(sessions, knowledge + {message}, log + events)
  {
  }

  ghost predicate RequestsSound(requests: seq<Request>, next: nat) {
    && (forall k :: 0 <= k < |requests| ==> requests[k].nonce < next)
    && (forall j, k :: 0 <= j < k < |requests| ==> requests[j].nonce < requests[k].nonce)
  }

  /** Acceptances in the log come from accepted requests, no two with the same binding. */
  ghost predicate AcceptancesSound(requests: seq<Request>, log: seq<Event>) {
    && (forall i :: AcceptedAt(log, i) ==> HasAcceptedRequest(requests, log[i].binding))
    && DistinctAcceptances(log)
  }

  ghost predicate HasAcceptedRequest(requests: seq<Request>, binding: Term) {
    exists k :: 0 <= k < |requests| && requests[k].accepted && Binding(requests[k]) == binding
  }

  ghost predicate AcceptedAt(log: seq<Event>, i: int) {
    0 <= i < |log| && log[i].TarakoQuoteAccepted?
  }

  ghost predicate DistinctAcceptances(log: seq<Event>) {
    forall i, j :: AcceptedAt(log, i) && AcceptedAt(log, j) && i < j ==> log[i].binding != log[j].binding
  }

  ghost predicate Inv(s: State) {
    && KnowledgeClean(s.knowledge, s.log)
    && s.imaLog == Initial().imaLog
    && ImaLogCommitted(APPROVED_ROOT, TARAKO_PUBLIC_KEY) in s.log
    && LogJustified(s.log)
    && SessionsSound(s.sessions, s.knowledge, s.log)
    && RequestsSound(s.requests, s.next)
    && AcceptancesSound(s.requests, s.log)
  }

  lemma AcceptancesUnaffected(requests: seq<Request>, log: seq<Event>, events: seq<Event>)
    requires AcceptancesSound(requests, log)
    requires forall e :: e in events ==> !e.TarakoQuoteAccepted?
    ensures AcceptancesSound(requests, log + events)
  {
    assert forall i :: |log| <= i < |log + events| ==> (log + events)[i] in events;
    forall i | AcceptedAt(log + events, i) ensures AcceptedAt(log, i) {}
  }

  /** Sending a clean message with justified events, none an acceptance, keeps Inv. */
  lemma EmitKeepsInv(s: State, message: Term, events: seq<Event>)
    requires Inv(s)
    requires LogJustified(s.log + events) && (forall e :: e in events ==> !e.TarakoQuoteAccepted?)
    requires Clean(message, s.log + events)
    ensures Inv(Emit(s, message, events))
  {
    KnowledgeGrows(s.knowledge, s.log, message, events);
    SessionsGrow(s.sessions, s.knowledge, s.log, message, events);
    AcceptancesUnaffected(s.requests, s.log, events);
  }

  lemma SendKeepsInv(s: State, message: Term)
    requires Inv(s) && Clean(message, s.log)
    ensures Inv(Emit(s, message, []))
  {
    assert s.log + [] == s.log;
  }

  lemma PartsAreClean(t: Term, part: Term, log: seq<Event>)
    requires Clean(t, log) && IsData(t) && part in Children(t)
    ensures Clean(part, log)
  {
  }

  lemma ConstructedIsClean(t: Term, log: seq<Event>)
    requires IsConstructible(t) && forall c :: c in Children(t) ==> Clean(c, log)
    ensures Clean(t, log)
  {
    assert t.Sign? ==> t.message in Children(t) && t.key in Children(t);
    assert t.PublicKey? ==> t.key in Children(t);
  }

  lemma AttackerKeepsInv(s: State, a: Action)
    requires Inv(s) && Enabled(s, a)
    requires a.GenerateName? || a.Construct? || a.Project? || a.OpenSignature?
    ensures Inv(Apply(s, a))
  {
    match a
    case GenerateName =>
      SendKeepsInv(s, Fresh(s.next));
      assert Apply(s, a) == Emit(s, Fresh(s.next), []).(next := s.next + 1);
    case Construct(t) => ConstructedIsClean(t, s.log); SendKeepsInv(s, t);
    case Project(t, part) => PartsAreClean(t, part, s.log); SendKeepsInv(s, part);
    case OpenSignature(signed, pk) => SendKeepsInv(s, signed.message);
  }

  lemma AppraiseTdxKeepsInv(s: State, quote: Term)
    requires Inv(s) && Enabled(s, AppraiseTdx(quote))
    ensures Inv(Apply(s, AppraiseTdx(quote)))
  {
    var claim, answer := quote.message, TdxAnswerFor(quote);
    var verified := TdxQuoteVerified(claim.challenge, APPROVED_MEASUREMENT, claim.rtmr);
    var issued := TdxAnswerIssued(Hash(answer), Hash(quote), claim.challenge, claim.rtmr);
    PartsAreClean(TdxAppraisalRequest(quote), quote, s.log);
    LogExtendsBy(s.log, verified, issued);
    CleanGrows(quote, s.log, [verified, issued]);
    EmitKeepsInv(s, answer, [verified, issued]);
  }

  /** The IMA service's checks tie its evidence to the committed log and to a genuine TDX answer. */
  lemma AppraisedImaEvidence(s: State, tdxAnswer: Term, evidence: Term)
    requires Inv(s) && Enabled(s, AppraiseIma(tdxAnswer, evidence))
    ensures Clean(tdxAnswer, s.log) && Clean(evidence, s.log) && LogJustified(s.log)
    ensures Justified(ImaEvidenceVerified(Hash(tdxAnswer), evidence.root, evidence.tarakoKey), s.log)
    ensures evidence == ImaEvidence(Hash(tdxAnswer), evidence.root, evidence.tarakoKey)
  {
    PartsAreClean(ImaAppraisalRequest(tdxAnswer, evidence), tdxAnswer, s.log);
    PartsAreClean(ImaAppraisalRequest(tdxAnswer, evidence), evidence, s.log);
    assert Issued(TdxVerifier, tdxAnswer.message, s.log);
  }

  lemma ImaAnswerIsJustified(verified: Event, issued: Event, log: seq<Event>)
    requires LogJustified(log) && Justified(verified, log) && verified.ImaEvidenceVerified? && issued.ImaAnswerIssued?
    requires issued.tdxBinding == verified.tdxBinding && issued.key == verified.key
    requires issued.evidenceBinding == Hash(ImaEvidence(verified.tdxBinding, verified.root, verified.key))
    requires issued.answerBinding
          == Hash(Sign(ImaAppraisalAnswer(issued.tdxBinding, issued.evidenceBinding, issued.key), SigningKey(ImaVerifier)))
    ensures LogJustified(log + [verified, issued])
  {
    assert verified in log + [verified];
    LogExtendsBy(log, verified, issued);
  }

  /** A binding of clean parts under a private signing key is clean once its issue is recorded. */
  lemma ImaAnswerIsClean(tdxAnswer: Term, evidence: Term, log: seq<Event>, events: seq<Event>)
    requires Clean(tdxAnswer, log) && Clean(evidence, log) && evidence.ImaEvidence?
    requires Issued(ImaVerifier, ImaAnswerFor(tdxAnswer, evidence).message, log + events)
    ensures Clean(ImaAnswerFor(tdxAnswer, evidence), log + events)
  {
    CleanGrows(tdxAnswer, log, events);
    CleanGrows(evidence, log, events);
    assert Clean(Hash(tdxAnswer), log + events) && Clean(Hash(evidence), log + events);
  }

  lemma AppraiseImaKeepsInv(s: State, tdxAnswer: Term, evidence: Term)
    requires Inv(s) && Enabled(s, AppraiseIma(tdxAnswer, evidence))
    ensures Inv(Apply(s, AppraiseIma(tdxAnswer, evidence)))
  {
    hide Justified, LogJustified, Inv;
    var answer := ImaAnswerFor(tdxAnswer, evidence);
    var verified := ImaEvidenceVerified(Hash(tdxAnswer), evidence.root, evidence.tarakoKey);
    var issued := ImaAnswerIssued(Hash(answer), Hash(tdxAnswer), Hash(evidence), evidence.tarakoKey);
    AppraisedImaEvidence(s, tdxAnswer, evidence);
    ImaAnswerIsJustified(verified, issued, s.log);
    assert issued in s.log + [verified, issued];
    ImaAnswerIsClean(tdxAnswer, evidence, s.log, [verified, issued]);
    EmitKeepsInv(s, answer, [verified, issued]);
  }

  lemma QuoteTdxKeepsInv(s: State, challenge: Term, root: Term)
    requires Inv(s) && Enabled(s, QuoteTdx(challenge, root))
    ensures Inv(Apply(s, QuoteTdx(challenge, root)))
  {
    var claim := TdxClaim(challenge, APPROVED_MEASUREMENT, RtmrWithIma(root));
    var e := TdxQuoteIssued(challenge, APPROVED_MEASUREMENT, RtmrWithIma(root));
    PartsAreClean(TdxRequest(challenge), challenge, s.log);
    CleanGrows(challenge, s.log, [e]);
    LogExtends(s.log, e);
    assert Clean(RtmrWithIma(root), s.log + [e]);
    EmitKeepsInv(s, Sign(claim, SigningKey(TdxAttestation)), [e]);
  }

  lemma SourceKeepsInv(s: State, a: Action)
    requires Inv(s) && Enabled(s, a)
    requires a.SendImaLog? || a.SignTarako? || a.SignUntrusted?
    ensures Inv(Apply(s, a))
  {
    match a
    case SendImaLog(tdxBinding) =>
      PartsAreClean(ImaRequest(tdxBinding), tdxBinding, s.log);
      SendKeepsInv(s, ImaEvidence(tdxBinding, APPROVED_ROOT, TARAKO_PUBLIC_KEY));
    case SignTarako(binding) =>
      PartsAreClean(TarakoRequest(binding), binding, s.log);
      SignerKeepsInv(s, binding, APPROVED_DIGEST);
    case SignUntrusted(binding) =>
      PartsAreClean(UntrustedTarakoRequest(binding), binding, s.log);
      SignerKeepsInv(s, binding, UNAPPROVED_DIGEST);
  }

  lemma SignerKeepsInv(s: State, binding: Term, digest: Term)
    requires Inv(s) && Clean(binding, s.log) && (digest == APPROVED_DIGEST || digest == UNAPPROVED_DIGEST)
    ensures Inv(Emit(s, Sign(TarakoClaim(binding, digest), SigningKey(TarakoSigner)),
                     [TarakoQuoteIssued(binding, digest)]))
  {
    var e := TarakoQuoteIssued(binding, digest);
    LogExtends(s.log, e);
    CleanGrows(binding, s.log, [e]);
    assert e in s.log + [e];
    EmitKeepsInv(s, Sign(TarakoClaim(binding, digest), SigningKey(TarakoSigner)), [e]);
  }

  lemma StartSessionKeepsInv(s: State)
    requires Inv(s)
    ensures Inv(Apply(s, StartSession))
  {
    assert Clean(Fresh(s.next), s.log) && Clean(Fresh(s.next + 1), s.log);
    assert Clean(SessionContext(Fresh(s.next), Fresh(s.next + 1)), s.log);
    SendKeepsInv(s, TdxRequest(Challenge(AwaitingQuote(s.next, s.next + 1))));
  }

  lemma SessionInputKeepsInv(s: State, a: Action)
    requires Inv(s) && Enabled(s, a)
    requires a.ReceiveQuote? || a.ReceiveEvidence?
    ensures Inv(Apply(s, a))
  {
    match a
    case ReceiveQuote(i, quote) => SendKeepsInv(s, TdxAppraisalRequest(quote));
    case ReceiveEvidence(i, evidence) => SendKeepsInv(s, ImaAppraisalRequest(s.sessions[i].tdxAnswer, evidence));
  }

  lemma TdxAnswerKeepsInv(s: State, i: nat, answer: Term)
    requires Inv(s) && Enabled(s, ReceiveTdxAnswer(i, answer))
    ensures Inv(Apply(s, ReceiveTdxAnswer(i, answer)))
  {
    var session := s.sessions[i];
    var e := TdxAnswerAccepted(Hash(answer), Hash(session.quote), Challenge(session), answer.message.rtmr);
    assert Justified(e, s.log) by { assert Issued(TdxVerifier, answer.message, s.log); }
    LogExtends(s.log, e);
    CleanGrows(answer, s.log, [e]);
    EmitKeepsInv(s, ImaRequest(Hash(answer)), [e]);
    assert e in s.log + [e];
  }

  lemma ImaAnswerKeepsInv(s: State, i: nat, answer: Term)
    requires Inv(s) && Enabled(s, ReceiveImaAnswer(i, answer))
    ensures Inv(Apply(s, ReceiveImaAnswer(i, answer)))
  {
    var session := s.sessions[i];
    var e := ImaAnswerAccepted(Hash(answer), Hash(session.tdxAnswer), Hash(session.evidence), answer.message.tarakoKey);
    assert Justified(e, s.log) by { assert Issued(ImaVerifier, answer.message, s.log); }
    LogExtends(s.log, e);
    CleanGrows(answer, s.log, [e]);
    EmitKeepsInv(s, answer, [e]);
    assert s.knowledge + {answer} == s.knowledge;
    assert e in s.log + [e];
  }

  lemma StartClientKeepsInv(s: State)
    requires Inv(s)
    ensures Inv(Apply(s, StartClient))
  {
    assert Clean(Fresh(s.next), s.log);
    SendKeepsInv(s, VerificationRequest(Fresh(s.next)));
  }

  lemma VerdictKeepsInv(s: State, c: nat, verdict: Term)
    requires Inv(s) && Enabled(s, ReceiveVerdict(c, verdict))
    ensures Inv(Apply(s, ReceiveVerdict(c, verdict)))
  {
    var e := ClientAcceptedIntegrity(verdict.message.request, verdict.message.digest);
    assert Issued(RelyingVerifier, verdict.message, s.log);
    LogExtends(s.log, e);
    CleanGrows(verdict, s.log, [e]);
    EmitKeepsInv(s, verdict, [e]);
    assert s.knowledge + {verdict} == s.knowledge;
  }

  lemma StartRequestKeepsInv(s: State, i: nat, clientRequest: Term)
    requires Inv(s) && Enabled(s, StartRequest(i, clientRequest))
    ensures Inv(Apply(s, StartRequest(i, clientRequest)))
  {
    var request := Request(i, clientRequest, s.next, false);
    assert Clean(RequestContext(clientRequest, Fresh(s.next)), s.log) by {
      PartsAreClean(VerificationRequest(clientRequest), clientRequest, s.log);
    }
    SendKeepsInv(s, TarakoRequest(Binding(request)));
    AcceptancesKeptByRequest(s.requests, request, s.log);
  }

  lemma AcceptancesKeptByRequest(requests: seq<Request>, request: Request, log: seq<Event>)
    requires AcceptancesSound(requests, log)
    ensures AcceptancesSound(requests + [request], log)
  {
    forall i | AcceptedAt(log, i)
      ensures HasAcceptedRequest(requests + [request], log[i].binding)
    {
      var k :| 0 <= k < |requests| && requests[k].accepted && Binding(requests[k]) == log[i].binding;
      assert (requests + [request])[k] == requests[k];
    }
  }

  /** The key a session trusts is the measured one: its appraisal chain ends in the IMA log. */
  lemma EstablishedKey(s: State, i: nat)
    requires Inv(s) && i < |s.sessions| && s.sessions[i].Established?
    ensures s.sessions[i].key == TARAKO_PUBLIC_KEY
    ensures exists tdxBinding, evidenceBinding, key ::
              ImaAnswerIssued(Hash(s.sessions[i].imaAnswer), tdxBinding, evidenceBinding, key) in s.log
  {
    var session := s.sessions[i];
    RecordedIsJustified(s.log, ImaAnswerAccepted(Hash(session.imaAnswer), Hash(session.tdxAnswer),
                                                 Hash(session.evidence), session.key));
    RecordedIsJustified(s.log, ImaAnswerIssued(Hash(session.imaAnswer), Hash(session.tdxAnswer),
                                               Hash(session.evidence), session.key));
    var root :| ImaEvidenceVerified(Hash(session.tdxAnswer), root, session.key) in s.log;
    RecordedIsJustified(s.log, ImaEvidenceVerified(Hash(session.tdxAnswer), root, session.key));
    RecordedIsJustified(s.log, ImaLogCommitted(root, session.key));
  }

  /** The accepted request's nonce is new to the log, so its binding is too. */
  lemma AcceptanceIsNew(s: State, k: nat)
    requires Inv(s) && k < |s.requests| && !s.requests[k].accepted
    ensures !HasAcceptedRequest(s.requests, Binding(s.requests[k]))
  {
    forall j | 0 <= j < |s.requests| && j != k ensures Binding(s.requests[j]) != Binding(s.requests[k]) {
      assert s.requests[j].nonce != s.requests[k].nonce;
    }
  }

  lemma AcceptancesExtended(requests: seq<Request>, k: nat, log: seq<Event>, accepted: Event, verdict: Event)
    requires AcceptancesSound(requests, log) && k < |requests|
    requires accepted.TarakoQuoteAccepted? && accepted.binding == Binding(requests[k])
    requires !verdict.TarakoQuoteAccepted? && !HasAcceptedRequest(requests, Binding(requests[k]))
    ensures AcceptancesSound(requests[k := requests[k].(accepted := true)], log + [accepted, verdict])
  {
    var requests' := requests[k := requests[k].(accepted := true)];
    assert requests'[k].accepted && Binding(requests'[k]) == accepted.binding;
    forall i | AcceptedAt(log, i)
      ensures HasAcceptedRequest(requests', log[i].binding) && log[i].binding != accepted.binding
    {
      var j :| 0 <= j < |requests| && requests[j].accepted && Binding(requests[j]) == log[i].binding;
      assert requests'[j].accepted && Binding(requests'[j]) == log[i].binding;
    }
    var log' := log + [accepted, verdict];
    forall i | AcceptedAt(log', i) ensures i < |log| ==> AcceptedAt(log, i) {}
  }

  lemma BindingPartsAreClean(request: Request, log: seq<Event>)
    requires Clean(Binding(request), log)
    ensures Clean(request.clientRequest, log)
  {
    assert Clean(RequestContext(request.clientRequest, Fresh(request.nonce)), log);
  }

  lemma AcceptedQuoteIsJustified(s: State, k: nat, quote: Term)
    requires Inv(s) && Enabled(s, ReceiveTarakoQuote(k, quote))
    ensures Justified(TarakoQuoteAccepted(Hash(s.sessions[s.requests[k].session].imaAnswer), Binding(s.requests[k]),
                                          APPROVED_DIGEST), s.log)
    ensures Clean(s.requests[k].clientRequest, s.log) && LogJustified(s.log)
  {
    EstablishedKey(s, s.requests[k].session);
    assert Clean(quote, s.log);
    assert Issued(TarakoSigner, quote.message, s.log);
    PartsAreClean(quote.message, quote.message.binding, s.log);
    BindingPartsAreClean(s.requests[k], s.log);
  }

  /** The verdict follows from the acceptance recorded just before it. */
  lemma VerdictIsJustified(request: Request, accepted: Event, log: seq<Event>)
    requires LogJustified(log) && Justified(accepted, log) && Clean(request.clientRequest, log)
    requires accepted.TarakoQuoteAccepted? && accepted.binding == Binding(request)
    ensures var verdict := IntegrityVerdictIssued(request.clientRequest, accepted.digest);
            && LogJustified(log + [accepted, verdict])
            && Clean(IntegrityVerdict(request.clientRequest, accepted.digest), log + [accepted, verdict])
  {
    var verdict := IntegrityVerdictIssued(request.clientRequest, accepted.digest);
    assert accepted in log + [accepted];
    LogExtendsBy(log, accepted, verdict);
    CleanGrows(request.clientRequest, log, [accepted, verdict]);
  }

  /** Recording an acceptance of request k and its verdict keeps Inv. */
  lemma RecordingKeepsInv(s: State, k: nat, accepted: Event, verdict: Event, message: Term)
    requires Inv(s) && k < |s.requests| && !s.requests[k].accepted
    requires accepted.TarakoQuoteAccepted? && accepted.binding == Binding(s.requests[k]) && !verdict.TarakoQuoteAccepted?
    requires LogJustified(s.log + [accepted, verdict]) && Clean(message, s.log + [accepted, verdict])
    ensures Inv(Emit(s, message, [accepted, verdict]).(requests := s.requests[k := s.requests[k].(accepted := true)]))
  {
    hide Justified, Clean, LogJustified, SessionSound, HasAcceptedRequest;
    AcceptanceIsNew(s, k);
    AcceptancesExtended(s.requests, k, s.log, accepted, verdict);
    KnowledgeGrows(s.knowledge, s.log, message, [accepted, verdict]);
    SessionsGrow(s.sessions, s.knowledge, s.log, message, [accepted, verdict]);
  }

  lemma TarakoQuoteKeepsInv(s: State, k: nat, quote: Term)
    requires Inv(s) && Enabled(s, ReceiveTarakoQuote(k, quote))
    ensures Inv(Apply(s, ReceiveTarakoQuote(k, quote)))
  {
    hide Justified, LogJustified, Inv;
    var request := s.requests[k];
    var accepted := TarakoQuoteAccepted(Hash(s.sessions[request.session].imaAnswer), Binding(request), APPROVED_DIGEST);
    var verdict := IntegrityVerdictIssued(request.clientRequest, APPROVED_DIGEST);
    var signed := Sign(IntegrityVerdict(request.clientRequest, APPROVED_DIGEST), SigningKey(RelyingVerifier));
    AcceptedQuoteIsJustified(s, k, quote);
    VerdictIsJustified(request, accepted, s.log);
    assert verdict in s.log + [accepted, verdict];
    RecordingKeepsInv(s, k, accepted, verdict, signed);
  }

  lemma InitialInv()
    ensures Inv(Initial())
  {
    assert LogJustified(Initial().log);
  }

  /** Every action of every role and of the attacker keeps Inv. */
  lemma StepKeepsInv(s: State, a: Action)
    requires Inv(s) && Enabled(s, a)
    ensures Inv(Apply(s, a))
  {
    match a
    case AppraiseTdx(quote) => AppraiseTdxKeepsInv(s, quote);
    case AppraiseIma(tdxAnswer, evidence) => AppraiseImaKeepsInv(s, tdxAnswer, evidence);
    case QuoteTdx(challenge, root) => QuoteTdxKeepsInv(s, challenge, root);
    case SendImaLog(_) => SourceKeepsInv(s, a);
    case SignTarako(_) => SourceKeepsInv(s, a);
    case SignUntrusted(_) => SourceKeepsInv(s, a);
    case StartSession => StartSessionKeepsInv(s);
    case ReceiveQuote(_, _) => SessionInputKeepsInv(s, a);
    case ReceiveEvidence(_, _) => SessionInputKeepsInv(s, a);
    case ReceiveTdxAnswer(i, answer) => TdxAnswerKeepsInv(s, i, answer);
    case ReceiveImaAnswer(i, answer) => ImaAnswerKeepsInv(s, i, answer);
    case StartRequest(i, clientRequest) => StartRequestKeepsInv(s, i, clientRequest);
    case ReceiveTarakoQuote(k, quote) => TarakoQuoteKeepsInv(s, k, quote);
    case StartClient => StartClientKeepsInv(s);
    case ReceiveVerdict(c, verdict) => VerdictKeepsInv(s, c, verdict);
    case _ => AttackerKeepsInv(s, a);
  }

  lemma {:induction false} RunKeepsInv(actions: seq<Action>, s: State)
    requires Run(actions, s)
    ensures Inv(s)
  {
    if actions == [] {
      InitialInv();
    } else {
      var last := |actions| - 1;
      var before: State :|
        Run(actions[..last], before) && Enabled(before, actions[last]) && s == Apply(before, actions[last]);
      RunKeepsInv(actions[..last], before);
      StepKeepsInv(before, actions[last]);
    }
  }
}
