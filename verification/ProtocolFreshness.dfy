/** Nothing can be quoted before it is asked for: a session's hardware quote and a request's
    application quote are younger than the session and the request. */
module ProtocolFreshness {
  import opened Terms
  import opened Protocol
  import opened ProtocolSafety
  import opened ProtocolTheorems

  /** Every name in t was generated before name n. */
  ghost predicate Below(t: Term, n: nat)
    decreases t
  {
    (t.Fresh? ==> t.id < n) && forall c :: c in Children(t) ==> Below(c, n)
  }

  lemma {:induction false} BelowGrows(t: Term, n: nat, m: nat)
    requires Below(t, n) && n <= m
    ensures Below(t, m)
    decreases t
  {
    forall c | c in Children(t) ensures Below(c, m) { BelowGrows(c, n, m); }
  }

  /** Wrapping and unwrapping generate no names. */
  lemma PartBelow(t: Term, part: Term, n: nat)
    requires Below(t, n) && part in Children(t)
    ensures Below(part, n)
  {
  }

  lemma BuiltBelow(t: Term, n: nat)
    requires !t.Fresh? && forall c :: c in Children(t) ==> Below(c, n)
    ensures Below(t, n)
  {
  }

  ghost predicate KnowledgeBelow(knowledge: set<Term>, n: nat) {
    forall t :: t in knowledge ==> Below(t, n)
  }

  /** Quotes speak only of names already generated. */
  ghost predicate QuotesBelow(log: seq<Event>, n: nat) {
    forall e :: e in log ==>
      (e.TdxQuoteIssued? ==> Below(e.challenge, n)) && (e.TarakoQuoteIssued? ==> Below(e.binding, n))
  }

  ghost predicate RequestsBelow(requests: seq<Request>, n: nat) {
    forall k :: 0 <= k < |requests| ==> Below(requests[k].clientRequest, n)
  }

  ghost predicate NamesInv(s: State) {
    KnowledgeBelow(s.knowledge, s.next) && QuotesBelow(s.log, s.next) && RequestsBelow(s.requests, s.next)
  }

  lemma NamesGrow(s: State, n: nat)
    requires NamesInv(s) && s.next <= n
    ensures KnowledgeBelow(s.knowledge, n) && QuotesBelow(s.log, n) && RequestsBelow(s.requests, n)
  {
    forall t | t in s.knowledge ensures Below(t, n) { BelowGrows(t, s.next, n); }
    forall e | e in s.log && e.TdxQuoteIssued? ensures Below(e.challenge, n) { BelowGrows(e.challenge, s.next, n); }
    forall e | e in s.log && e.TarakoQuoteIssued? ensures Below(e.binding, n) { BelowGrows(e.binding, s.next, n); }
    forall k | 0 <= k < |s.requests| ensures Below(s.requests[k].clientRequest, n) {
      BelowGrows(s.requests[k].clientRequest, s.next, n);
    }
  }

  /** The message an action sends mentions only names generated by then. */
  ghost predicate SendsBelow(s: State, s': State) {
    s'.next >= s.next && forall t :: t in s'.knowledge && t !in s.knowledge ==> Below(t, s'.next)
  }

  lemma AttackerSendsBelow(s: State, a: Action)
    requires NamesInv(s) && Enabled(s, a) && (a.GenerateName? || a.Construct? || a.Project? || a.OpenSignature?)
    ensures SendsBelow(s, Apply(s, a))
  {
    match a
    case Project(t, part) => PartBelow(t, part, s.next);
    case OpenSignature(signed, _) => PartBelow(signed, signed.message, s.next);
    case _ =>
  }

  lemma RootsBelow(n: nat)
    ensures Below(APPROVED_MEASUREMENT, n) && Below(APPROVED_DIGEST, n) && Below(UNAPPROVED_DIGEST, n)
    ensures Below(TARAKO_PUBLIC_KEY, n) && Below(APPROVED_ROOT, n) && Below(UNAPPROVED_ROOT, n)
    ensures forall owner :: Below(SigningKey(owner), n)
  {
  }

  lemma TdxQuoteBelow(challenge: Term, root: Term, n: nat)
    requires Below(TdxRequest(challenge), n) && (root == APPROVED_ROOT || root == UNAPPROVED_ROOT)
    ensures Below(challenge, n)
    ensures Below(Sign(TdxClaim(challenge, APPROVED_MEASUREMENT, RtmrWithIma(root)), SigningKey(TdxAttestation)), n)
  {
    hide Below;
    RootsBelow(n);
    PartBelow(TdxRequest(challenge), challenge, n);
    BuiltBelow(RtmrWithIma(root), n);
    var claim := TdxClaim(challenge, APPROVED_MEASUREMENT, RtmrWithIma(root));
    BuiltBelow(claim, n);
    BuiltBelow(Sign(claim, SigningKey(TdxAttestation)), n);
  }

  lemma TarakoQuoteBelow(request: Term, binding: Term, digest: Term, n: nat)
    requires Below(request, n) && (request == TarakoRequest(binding) || request == UntrustedTarakoRequest(binding))
    requires digest == APPROVED_DIGEST || digest == UNAPPROVED_DIGEST
    ensures Below(binding, n) && Below(Sign(TarakoClaim(binding, digest), SigningKey(TarakoSigner)), n)
  {
    hide Below;
    RootsBelow(n);
    PartBelow(request, binding, n);
    BuiltBelow(TarakoClaim(binding, digest), n);
    BuiltBelow(Sign(TarakoClaim(binding, digest), SigningKey(TarakoSigner)), n);
  }

  lemma EvidenceBelow(tdxBinding: Term, n: nat)
    requires Below(ImaRequest(tdxBinding), n)
    ensures Below(ImaEvidence(tdxBinding, APPROVED_ROOT, TARAKO_PUBLIC_KEY), n)
  {
    hide Below;
    RootsBelow(n);
    PartBelow(ImaRequest(tdxBinding), tdxBinding, n);
    BuiltBelow(ImaEvidence(tdxBinding, APPROVED_ROOT, TARAKO_PUBLIC_KEY), n);
  }

  lemma TdxAnswerBelow(quote: Term, n: nat)
    requires Below(TdxAppraisalRequest(quote), n) && quote.Sign? && quote.message.TdxClaim?
    ensures Below(TdxAnswerFor(quote), n)
  {
    hide Below;
    RootsBelow(n);
    PartBelow(TdxAppraisalRequest(quote), quote, n);
    PartBelow(quote, quote.message, n);
    PartBelow(quote.message, quote.message.challenge, n);
    PartBelow(quote.message, quote.message.rtmr, n);
    BuiltBelow(Hash(quote), n);
    BuiltBelow(TdxAnswerFor(quote).message, n);
    BuiltBelow(TdxAnswerFor(quote), n);
  }

  lemma ImaAnswerBelow(tdxAnswer: Term, evidence: Term, n: nat)
    requires Below(ImaAppraisalRequest(tdxAnswer, evidence), n) && evidence.ImaEvidence?
    ensures Below(ImaAnswerFor(tdxAnswer, evidence), n)
  {
    hide Below;
    RootsBelow(n);
    PartBelow(ImaAppraisalRequest(tdxAnswer, evidence), tdxAnswer, n);
    PartBelow(ImaAppraisalRequest(tdxAnswer, evidence), evidence, n);
    PartBelow(evidence, evidence.tarakoKey, n);
    BuiltBelow(Hash(tdxAnswer), n);
    BuiltBelow(Hash(evidence), n);
    BuiltBelow(ImaAnswerFor(tdxAnswer, evidence).message, n);
    BuiltBelow(ImaAnswerFor(tdxAnswer, evidence), n);
  }

  lemma ChallengeBelow(session: Session, n: nat)
    requires session.sessionId < n && session.nonce < n
    ensures Below(TdxRequest(Challenge(session)), n)
  {
    assert Below(SessionContext(Fresh(session.sessionId), Fresh(session.nonce)), n);
    assert Below(Challenge(session), n);
  }

  lemma BindingBelow(request: Request, n: nat)
    requires Below(request.clientRequest, n) && request.nonce < n
    ensures Below(TarakoRequest(Binding(request)), n)
  {
    assert Below(RequestContext(request.clientRequest, Fresh(request.nonce)), n);
    assert Below(Binding(request), n);
  }

  lemma VerdictBelow(clientRequest: Term, n: nat)
    requires Below(clientRequest, n)
    ensures Below(Sign(IntegrityVerdict(clientRequest, APPROVED_DIGEST), SigningKey(RelyingVerifier)), n)
  {
    hide Below;
    RootsBelow(n);
    BuiltBelow(IntegrityVerdict(clientRequest, APPROVED_DIGEST), n);
    BuiltBelow(Sign(IntegrityVerdict(clientRequest, APPROVED_DIGEST), SigningKey(RelyingVerifier)), n);
  }

  lemma WrappedBelow(a: Term, b: Term, n: nat)
    requires Below(a, n) && Below(b, n)
    ensures Below(TdxAppraisalRequest(a), n) && Below(ImaRequest(Hash(a)), n) && Below(ImaAppraisalRequest(a, b), n)
  {
    hide Below;
    BuiltBelow(Hash(a), n);
    BuiltBelow(TdxAppraisalRequest(a), n);
    BuiltBelow(ImaRequest(Hash(a)), n);
    BuiltBelow(ImaAppraisalRequest(a, b), n);
  }

  lemma SourceSendsBelow(s: State, a: Action)
    requires NamesInv(s) && Enabled(s, a) && (a.QuoteTdx? || a.SendImaLog? || a.SignTarako? || a.SignUntrusted?)
    ensures SendsBelow(s, Apply(s, a)) && QuotesBelow(Apply(s, a).log, s.next)
  {
    hide Below;
    match a
    case QuoteTdx(challenge, root) => TdxQuoteBelow(challenge, root, s.next);
    case SendImaLog(tdxBinding) => EvidenceBelow(tdxBinding, s.next);
    case SignTarako(binding) => TarakoQuoteBelow(TarakoRequest(binding), binding, APPROVED_DIGEST, s.next);
    case SignUntrusted(binding) => TarakoQuoteBelow(UntrustedTarakoRequest(binding), binding, UNAPPROVED_DIGEST, s.next);
  }

  lemma ServiceSendsBelow(s: State, a: Action)
    requires NamesInv(s) && Enabled(s, a) && (a.AppraiseTdx? || a.AppraiseIma?)
    ensures SendsBelow(s, Apply(s, a))
  {
    hide Below;
    match a
    case AppraiseTdx(quote) => TdxAnswerBelow(quote, s.next);
    case AppraiseIma(tdxAnswer, evidence) => ImaAnswerBelow(tdxAnswer, evidence, s.next);
  }

  lemma SessionSendsBelow(s: State, a: Action)
    requires SessionsSound(s.sessions, s.knowledge, s.log) && NamesInv(s) && Enabled(s, a)
    requires a.StartSession? || a.ReceiveQuote? || a.ReceiveTdxAnswer? || a.ReceiveEvidence? || a.ReceiveImaAnswer?
    ensures SendsBelow(s, Apply(s, a))
  {
    hide Below;
    match a
    case StartSession => ChallengeBelow(AwaitingQuote(s.next, s.next + 1), s.next + 2);
    case ReceiveQuote(_, quote) => WrappedBelow(quote, quote, s.next);
    case ReceiveTdxAnswer(_, answer) => WrappedBelow(answer, answer, s.next);
    case ReceiveEvidence(i, evidence) => WrappedBelow(s.sessions[i].tdxAnswer, evidence, s.next);
    case ReceiveImaAnswer(_, _) =>
  }

  lemma RequestSendsBelow(s: State, a: Action)
    requires NamesInv(s) && Enabled(s, a) && (a.StartRequest? || a.ReceiveTarakoQuote?)
    ensures SendsBelow(s, Apply(s, a)) && RequestsBelow(Apply(s, a).requests, Apply(s, a).next)
  {
    hide Below;
    NamesGrow(s, Apply(s, a).next);
    match a
    case StartRequest(i, clientRequest) =>
      PartBelow(VerificationRequest(clientRequest), clientRequest, s.next + 1);
      BindingBelow(Request(i, clientRequest, s.next, false), s.next + 1);
    case ReceiveTarakoQuote(k, quote) => VerdictBelow(s.requests[k].clientRequest, s.next);
  }

  lemma ClientSendsBelow(s: State, a: Action)
    requires NamesInv(s) && Enabled(s, a) && (a.StartClient? || a.ReceiveVerdict?)
    ensures SendsBelow(s, Apply(s, a))
  {
    assert Below(Fresh(s.next), s.next + 1);
  }

  /** Only the sources issue quotes, and only the request handler adds requests. */
  lemma OtherStepsQuoteNothing(s: State, a: Action)
    requires Enabled(s, a) && !a.QuoteTdx? && !a.SignTarako? && !a.SignUntrusted?
    ensures forall e :: e in Apply(s, a).log && (e.TdxQuoteIssued? || e.TarakoQuoteIssued?) ==> e in s.log
  {
  }

  lemma StepKeepsNames(s: State, a: Action)
    requires Inv(s) && NamesInv(s) && Enabled(s, a)
    ensures NamesInv(Apply(s, a))
  {
    hide Inv, Below;
    var s' := Apply(s, a);
    StepSendsBelow(s, a);
    NamesGrow(s, s'.next);
    if a.QuoteTdx? || a.SignTarako? || a.SignUntrusted? {
      SourceSendsBelow(s, a);
    } else {
      OtherStepsQuoteNothing(s, a);
    }
    if a.StartRequest? || a.ReceiveTarakoQuote? {
      RequestSendsBelow(s, a);
    } else {
      assert s'.requests == s.requests;
    }
  }

  lemma StepSendsBelow(s: State, a: Action)
    requires Inv(s) && NamesInv(s) && Enabled(s, a)
    ensures SendsBelow(s, Apply(s, a))
  {
    hide NamesInv, SendsBelow, Enabled, Apply;
    match a
    case GenerateName => AttackerSendsBelow(s, a);
    case Construct(_) => AttackerSendsBelow(s, a);
    case Project(_, _) => AttackerSendsBelow(s, a);
    case OpenSignature(_, _) => AttackerSendsBelow(s, a);
    case QuoteTdx(_, _) => SourceSendsBelow(s, a);
    case SendImaLog(_) => SourceSendsBelow(s, a);
    case SignTarako(_) => SourceSendsBelow(s, a);
    case SignUntrusted(_) => SourceSendsBelow(s, a);
    case AppraiseTdx(_) => ServiceSendsBelow(s, a);
    case AppraiseIma(_, _) => ServiceSendsBelow(s, a);
    case StartRequest(_, _) => RequestSendsBelow(s, a);
    case ReceiveTarakoQuote(_, _) => RequestSendsBelow(s, a);
    case StartClient => ClientSendsBelow(s, a);
    case ReceiveVerdict(_, _) => ClientSendsBelow(s, a);
    case _ => SessionSendsBelow(s, a);
  }

  lemma {:induction false} RunKeepsNames(actions: seq<Action>, s: State)
    requires Run(actions, s)
    ensures NamesInv(s)
  {
    if actions != [] {
      var last := |actions| - 1;
      var before: State :|
        Run(actions[..last], before) && Enabled(before, actions[last]) && s == Apply(before, actions[last]);
      RunKeepsNames(actions[..last], before);
      RunKeepsInv(actions[..last], before);
      StepKeepsNames(before, actions[last]);
    }
  }

  // ----- Later states -----

  /** s comes after s0 in some run. */
  ghost predicate Continues(s0: State, actions: seq<Action>, s: State) {
    if actions == [] then s == s0
    else
      var last := |actions| - 1;
      exists before: State ::
        Continues(s0, actions[..last], before) && Enabled(before, actions[last]) && s == Apply(before, actions[last])
  }

  /** Sessions and requests started since s0 use names generated since s0. */
  ghost predicate NewNames(s0: State, s: State) {
    && s0.next <= s.next && |s0.sessions| <= |s.sessions| && |s0.requests| <= |s.requests|
    && (forall i :: |s0.sessions| <= i < |s.sessions| ==> s0.next <= s.sessions[i].sessionId)
    && (forall k :: |s0.requests| <= k < |s.requests| ==> s0.next <= s.requests[k].nonce)
  }

  lemma StepKeepsNewNames(s0: State, s: State, a: Action)
    requires NewNames(s0, s) && Enabled(s, a)
    ensures NewNames(s0, Apply(s, a))
  {
  }

  lemma {:induction false} ContinuationHasNewNames(s0: State, actions: seq<Action>, s: State)
    requires Continues(s0, actions, s)
    ensures NewNames(s0, s)
  {
    if actions != [] {
      var last := |actions| - 1;
      var before: State :|
        Continues(s0, actions[..last], before) && Enabled(before, actions[last]) && s == Apply(before, actions[last]);
      ContinuationHasNewNames(s0, actions[..last], before);
      StepKeepsNewNames(s0, before, actions[last]);
    }
  }

  lemma ReachableNames(s: State)
    requires Reachable(s)
    ensures NamesInv(s)
  {
    var actions :| Run(actions, s);
    RunKeepsNames(actions, s);
  }

  /** In no run has a hardware quote for a session's challenge been issued before the session began. */
  lemma HardwareQuoteIsYounger(s0: State, actions: seq<Action>, s: State, i: nat, measurement: Term, rtmr: Term)
    requires Reachable(s0) && Continues(s0, actions, s) && |s0.sessions| <= i < |s.sessions|
    ensures TdxQuoteIssued(Challenge(s.sessions[i]), measurement, rtmr) !in s0.log
  {
    ReachableNames(s0);
    ContinuationHasNewNames(s0, actions, s);
    var context := SessionContext(Fresh(s.sessions[i].sessionId), Fresh(s.sessions[i].nonce));
    assert !Below(Fresh(s.sessions[i].sessionId), s0.next);
    assert Fresh(s.sessions[i].sessionId) in Children(context);
    assert !Below(context, s0.next) && context in Children(Hash(context));
    assert !Below(Challenge(s.sessions[i]), s0.next);
  }

  /** Nor has the application quoted a request's binding before the request was made. */
  lemma ApplicationQuoteIsYounger(s0: State, actions: seq<Action>, s: State, k: nat, digest: Term)
    requires Reachable(s0) && Continues(s0, actions, s) && |s0.requests| <= k < |s.requests|
    ensures TarakoQuoteIssued(Binding(s.requests[k]), digest) !in s0.log
  {
    ReachableNames(s0);
    ContinuationHasNewNames(s0, actions, s);
    var context := RequestContext(s.requests[k].clientRequest, Fresh(s.requests[k].nonce));
    assert !Below(Fresh(s.requests[k].nonce), s0.next);
    assert Fresh(s.requests[k].nonce) in Children(context);
    assert !Below(context, s0.next) && context in Children(Hash(context));
    assert !Below(Binding(s.requests[k]), s0.next);
  }
}
