/** Runs that do happen, from every reachable state: a new session can be established whatever the
    attacker has done, its cached appraisal serves any number of distinct acceptances, and the
    attacker can do all that the network allows. So the safety theorems are not vacuous. */
module ProtocolRuns {
  import opened Terms
  import opened Protocol
  import opened ProtocolSafety
  import opened ProtocolTheorems

  lemma InitialReachable()
    ensures Reachable(Initial())
  {
    assert Run([], Initial());
  }

  lemma Step(s: State, a: Action)
    requires Reachable(s) && Enabled(s, a)
    ensures Reachable(Apply(s, a))
  {
    hide Enabled, Apply;
    var actions :| Run(actions, s);
    assert (actions + [a])[..|actions|] == actions;
    assert Run(actions + [a], Apply(s, a));
  }

  /** s comes later than s0 and has only added to what was there. */
  ghost predicate Extends(s0: State, s: State) {
    s0.knowledge <= s.knowledge && s0.log <= s.log && s0.requests <= s.requests && s0.clients <= s.clients
  }

  /** The i-th session has sent a genuine quote of the approved root to be appraised. */
  ghost predicate Quoted(s: State, i: nat, quote: Term) {
    && Reachable(s) && s.imaLog == Initial().imaLog
    && |s.sessions| == i + 1 && s.sessions[i].AwaitingTdxAnswer? && s.sessions[i].quote == quote
    && quote == Sign(TdxClaim(Challenge(s.sessions[i]), APPROVED_MEASUREMENT, RtmrWithIma(APPROVED_ROOT)),
                     SigningKey(TdxAttestation))
    && TdxAppraisalRequest(quote) in s.knowledge
  }

  lemma QuoteHappens(s0: State)
    requires Reachable(s0)
    ensures exists s, quote :: Quoted(s, |s0.sessions|, quote) && Extends(s0, s)
  {
    hide Reachable;
    ReachableInv(s0);
    var i, challenge := |s0.sessions|, Challenge(AwaitingQuote(s0.next, s0.next + 1));
    var quote := Sign(TdxClaim(challenge, APPROVED_MEASUREMENT, RtmrWithIma(APPROVED_ROOT)), SigningKey(TdxAttestation));
    Step(s0, StartSession);
    var s1 := Apply(s0, StartSession);
    Step(s1, QuoteTdx(challenge, APPROVED_ROOT));
    var s2 := Apply(s1, QuoteTdx(challenge, APPROVED_ROOT));
    Step(s2, ReceiveQuote(i, quote));
    assert Quoted(Apply(s2, ReceiveQuote(i, quote)), i, quote);
  }

  /** The i-th session has accepted the TDX answer and asked for the IMA log. */
  ghost predicate TdxAppraised(s: State, i: nat, answer: Term) {
    && Reachable(s) && s.imaLog == Initial().imaLog
    && |s.sessions| == i + 1 && s.sessions[i].AwaitingEvidence? && s.sessions[i].tdxAnswer == answer
    && Verifies(answer, PublicKey(SigningKey(TdxVerifier))) && answer.message.TdxAppraisalAnswer?
    && answer.message.rtmr == RtmrWithIma(APPROVED_ROOT)
    && ImaRequest(Hash(answer)) in s.knowledge
  }

  /** The TDX service has answered the i-th session. */
  ghost predicate TdxAnswered(s: State, i: nat, answer: Term) {
    && Reachable(s) && s.imaLog == Initial().imaLog
    && |s.sessions| == i + 1 && s.sessions[i].AwaitingTdxAnswer?
    && answer == Sign(TdxAppraisalAnswer(Hash(s.sessions[i].quote), Challenge(s.sessions[i]), RtmrWithIma(APPROVED_ROOT)),
                      SigningKey(TdxVerifier))
    && answer in s.knowledge
  }

  lemma TdxAnswerHappens(s: State, i: nat, quote: Term)
    requires Quoted(s, i, quote)
    ensures exists s', answer :: TdxAnswered(s', i, answer) && Extends(s, s')
  {
    hide Reachable;
    Step(s, AppraiseTdx(quote));
    assert TdxAnswered(Apply(s, AppraiseTdx(quote)), i, TdxAnswerFor(quote));
  }

  lemma TdxAppraisalHappens(s: State, i: nat, answer: Term)
    requires TdxAnswered(s, i, answer)
    ensures exists s', answer' :: TdxAppraised(s', i, answer') && Extends(s, s')
  {
    hide Reachable;
    Step(s, ReceiveTdxAnswer(i, answer));
    assert TdxAppraised(Apply(s, ReceiveTdxAnswer(i, answer)), i, answer);
  }

  /** The i-th session has sent its evidence to the IMA service. */
  ghost predicate EvidenceSent(s: State, i: nat, answer: Term, evidence: Term) {
    && Reachable(s) && s.imaLog == Initial().imaLog
    && |s.sessions| == i + 1 && s.sessions[i].AwaitingImaAnswer?
    && s.sessions[i].tdxAnswer == answer && s.sessions[i].evidence == evidence
    && Verifies(answer, PublicKey(SigningKey(TdxVerifier))) && answer.message.TdxAppraisalAnswer?
    && answer.message.rtmr == RtmrWithIma(APPROVED_ROOT)
    && evidence == ImaEvidence(Hash(answer), APPROVED_ROOT, TARAKO_PUBLIC_KEY)
    && ImaAppraisalRequest(answer, evidence) in s.knowledge
  }

  lemma EvidenceHappens(s: State, i: nat, answer: Term)
    requires TdxAppraised(s, i, answer)
    ensures exists s', evidence :: EvidenceSent(s', i, answer, evidence) && Extends(s, s')
  {
    hide Reachable;
    var evidence := ImaEvidence(Hash(answer), APPROVED_ROOT, TARAKO_PUBLIC_KEY);
    Step(s, SendImaLog(Hash(answer)));
    var s1 := Apply(s, SendImaLog(Hash(answer)));
    Step(s1, ReceiveEvidence(i, evidence));
    assert EvidenceSent(Apply(s1, ReceiveEvidence(i, evidence)), i, answer, evidence);
  }

  /** The IMA service has answered the i-th session. */
  ghost predicate ImaAppraised(s: State, i: nat, imaAnswer: Term) {
    && Reachable(s) && |s.sessions| == i + 1 && s.sessions[i].AwaitingImaAnswer?
    && imaAnswer in s.knowledge
    && imaAnswer == Sign(ImaAppraisalAnswer(Hash(s.sessions[i].tdxAnswer), Hash(s.sessions[i].evidence),
                                            TARAKO_PUBLIC_KEY), SigningKey(ImaVerifier))
  }

  lemma ImaAppraisalHappens(s: State, i: nat, answer: Term, evidence: Term)
    requires EvidenceSent(s, i, answer, evidence)
    ensures exists s', imaAnswer :: ImaAppraised(s', i, imaAnswer) && Extends(s, s')
  {
    hide Reachable;
    Step(s, AppraiseIma(answer, evidence));
    assert ImaAppraised(Apply(s, AppraiseIma(answer, evidence)), i, ImaAnswerFor(answer, evidence));
  }

  /** The i-th session is established on the measured key, under the given cached appraisal. */
  ghost predicate Serving(s: State, i: nat, cache: Term) {
    && Reachable(s) && |s.sessions| == i + 1 && s.sessions[i].Established?
    && s.sessions[i].key == TARAKO_PUBLIC_KEY
    && cache == Hash(s.sessions[i].imaAnswer)
  }

  lemma SessionIsEstablished(s: State, i: nat, imaAnswer: Term)
    requires ImaAppraised(s, i, imaAnswer)
    ensures exists s', cache :: Serving(s', i, cache) && Extends(s, s')
  {
    hide Reachable;
    Step(s, ReceiveImaAnswer(i, imaAnswer));
    assert Serving(Apply(s, ReceiveImaAnswer(i, imaAnswer)), i, Hash(imaAnswer));
  }

  /** In every reachable state, with whatever sessions, a further session can be established. */
  lemma EstablishmentHappens(s0: State)
    requires Reachable(s0)
    ensures exists s, cache :: Serving(s, |s0.sessions|, cache) && Extends(s0, s)
  {
    hide Reachable, Quoted, TdxAnswered, TdxAppraised, EvidenceSent, ImaAppraised, Serving;
    var i := |s0.sessions|;
    QuoteHappens(s0);
    var s1, quote :| Quoted(s1, i, quote) && Extends(s0, s1);
    TdxAnswerHappens(s1, i, quote);
    var s1', tdxAnswer :| TdxAnswered(s1', i, tdxAnswer) && Extends(s1, s1');
    TdxAppraisalHappens(s1', i, tdxAnswer);
    var s2, answer :| TdxAppraised(s2, i, answer) && Extends(s1', s2);
    EvidenceHappens(s2, i, answer);
    var s3, evidence :| EvidenceSent(s3, i, answer, evidence) && Extends(s2, s3);
    ImaAppraisalHappens(s3, i, answer, evidence);
    var s4, imaAnswer :| ImaAppraised(s4, i, imaAnswer) && Extends(s3, s4);
    SessionIsEstablished(s4, i, imaAnswer);
  }

  // ----- Serving requests -----

  /** The bindings accepted under one cached appraisal. */
  ghost function AcceptedBindings(log: seq<Event>, cache: Term): set<Term> {
    set e | e in log && e.TarakoQuoteAccepted? && e.cache == cache :: e.binding
  }

  /** How many times clients have accepted. */
  function ClientAcceptances(log: seq<Event>): nat {
    if log == [] then 0
    else ClientAcceptances(log[..|log| - 1]) + if log[|log| - 1].ClientAcceptedIntegrity? then 1 else 0
  }

  /** A client asks, and the session has drawn the nonce for its request. */
  ghost predicate Asked(s: State, i: nat, cache: Term, k: nat) {
    && Serving(s, i, cache) && k < |s.requests| && !s.requests[k].accepted && s.requests[k].session == i
    && TarakoRequest(Binding(s.requests[k])) in s.knowledge
    && |s.clients| > 0 && !s.clients[|s.clients| - 1].accepted
    && s.requests[k].clientRequest == Fresh(s.clients[|s.clients| - 1].request)
  }

  lemma RequestHappens(s: State, i: nat, cache: Term)
    requires Serving(s, i, cache)
    ensures exists s', k :: Asked(s', i, cache, k) && s'.log == s.log
  {
    hide Reachable;
    Step(s, StartClient);
    var s1 := Apply(s, StartClient);
    Step(s1, StartRequest(i, Fresh(s.next)));
    var s2 := Apply(s1, StartRequest(i, Fresh(s.next)));
    assert Asked(s2, i, cache, |s.requests|);
    assert s2.log == s.log;
  }

  /** The verifier has accepted the quote for the client's request and sent its verdict. */
  ghost predicate Judged(s: State, i: nat, cache: Term, request: Term) {
    && Serving(s, i, cache)
    && |s.clients| > 0 && !s.clients[|s.clients| - 1].accepted && request == Fresh(s.clients[|s.clients| - 1].request)
    && Sign(IntegrityVerdict(request, APPROVED_DIGEST), SigningKey(RelyingVerifier)) in s.knowledge
  }

  /** What a served request leaves in the log. */
  function RoundEvents(cache: Term, binding: Term, request: Term): seq<Event> {
    [TarakoQuoteIssued(binding, APPROVED_DIGEST), TarakoQuoteAccepted(cache, binding, APPROVED_DIGEST),
     IntegrityVerdictIssued(request, APPROVED_DIGEST)]
  }

  lemma JudgementHappens(s: State, i: nat, cache: Term, k: nat)
    requires Asked(s, i, cache, k)
    ensures exists s' ::
              && Judged(s', i, cache, s.requests[k].clientRequest)
              && s'.log == s.log + RoundEvents(cache, Binding(s.requests[k]), s.requests[k].clientRequest)
  {
    hide Reachable;
    var binding := Binding(s.requests[k]);
    var quote := Sign(TarakoClaim(binding, APPROVED_DIGEST), SigningKey(TarakoSigner));
    Step(s, SignTarako(binding));
    var s1 := Apply(s, SignTarako(binding));
    Step(s1, ReceiveTarakoQuote(k, quote));
    var s2 := Apply(s1, ReceiveTarakoQuote(k, quote));
    assert Judged(s2, i, cache, s.requests[k].clientRequest);
    assert s2.log == s.log + RoundEvents(cache, binding, s.requests[k].clientRequest);
  }

  lemma AcceptanceHappens(s: State, i: nat, cache: Term, k: nat)
    requires Asked(s, i, cache, k)
    ensures exists s' ::
              && Serving(s', i, cache) && ClientAcceptances(s'.log) == ClientAcceptances(s.log) + 1
              && AcceptedBindings(s'.log, cache) == AcceptedBindings(s.log, cache) + {Binding(s.requests[k])}
  {
    hide Reachable, ClientAcceptances;
    var binding, request := Binding(s.requests[k]), s.requests[k].clientRequest;
    JudgementHappens(s, i, cache, k);
    var s1 :| Judged(s1, i, cache, request) && s1.log == s.log + RoundEvents(cache, binding, request);
    var verdict := Sign(IntegrityVerdict(request, APPROVED_DIGEST), SigningKey(RelyingVerifier));
    Step(s1, ReceiveVerdict(|s1.clients| - 1, verdict));
    var s2 := Apply(s1, ReceiveVerdict(|s1.clients| - 1, verdict));
    RoundLog(s.log, s2.log, cache, binding, request);
    assert Serving(s2, i, cache);
  }

  lemma {:induction false} CountConcat(a: seq<Event>, b: seq<Event>)
    ensures ClientAcceptances(a + b) == ClientAcceptances(a) + ClientAcceptances(b)
  {
    if b == [] {
      assert a + b == a;
    } else {
      assert (a + b)[..|a + b| - 1] == a + b[..|b| - 1];
      CountConcat(a, b[..|b| - 1]);
    }
  }

  lemma RoundLog(log: seq<Event>, log': seq<Event>, cache: Term, binding: Term, request: Term)
    requires log' == log + RoundEvents(cache, binding, request) + [ClientAcceptedIntegrity(request, APPROVED_DIGEST)]
    ensures ClientAcceptances(log') == ClientAcceptances(log) + 1
    ensures AcceptedBindings(log', cache) == AcceptedBindings(log, cache) + {binding}
  {
    var round, end := RoundEvents(cache, binding, request), [ClientAcceptedIntegrity(request, APPROVED_DIGEST)];
    CountConcat(log + round, end);
    CountConcat(log, round);
    assert ClientAcceptances(round[..2]) == 0 by { assert round[..2][..1][..0] == []; }
    assert ClientAcceptances(end) == 1 by { assert end[..0] == []; }
    assert TarakoQuoteAccepted(cache, binding, APPROVED_DIGEST) in log';
  }

  /** An unaccepted request's binding has not been accepted under any cache. */
  lemma PendingBindingIsNew(s: State, cache: Term, k: nat)
    requires Reachable(s) && k < |s.requests| && !s.requests[k].accepted
    ensures Binding(s.requests[k]) !in AcceptedBindings(s.log, cache)
  {
    ReachableInv(s);
    AcceptanceIsNew(s, k);
    forall e | e in s.log && e.TarakoQuoteAccepted? ensures e.binding != Binding(s.requests[k]) {
      var i :| 0 <= i < |s.log| && s.log[i] == e;
      assert AcceptedAt(s.log, i);
    }
  }

  /** A serving session can always accept once more under the same cache. */
  lemma OneMoreAcceptance(s: State, i: nat, cache: Term)
    requires Serving(s, i, cache)
    ensures exists s' ::
              && Serving(s', i, cache) && ClientAcceptances(s'.log) == ClientAcceptances(s.log) + 1
              && |AcceptedBindings(s'.log, cache)| == |AcceptedBindings(s.log, cache)| + 1
  {
    hide Reachable, ClientAcceptances;
    RequestHappens(s, i, cache);
    var s1, k :| Asked(s1, i, cache, k) && s1.log == s.log;
    PendingBindingIsNew(s1, cache, k);
    AcceptanceHappens(s1, i, cache, k);
  }

  /** From every reachable state, and for every n, a new session can be established whose one cached
      appraisal then serves n further acceptances, each for a client that accepts too. */
  lemma {:induction false} CacheServesAnyNumber(s0: State, n: nat)
    requires Reachable(s0)
    ensures exists s, cache ::
              && Serving(s, |s0.sessions|, cache)
              && |AcceptedBindings(s.log, cache)| >= n && ClientAcceptances(s.log) >= n
  {
    hide Serving;
    if n == 0 {
      EstablishmentHappens(s0);
    } else {
      CacheServesAnyNumber(s0, n - 1);
      var s, cache :| Serving(s, |s0.sessions|, cache)
                      && |AcceptedBindings(s.log, cache)| >= n - 1 && ClientAcceptances(s.log) >= n - 1;
      OneMoreAcceptance(s, |s0.sessions|, cache);
    }
  }

  // ----- What the attacker can do, and what the sources do for it -----

  /** The attacker can come to know t without anything else happening. */
  ghost predicate Learns(s: State, t: Term) {
    exists s' :: Reachable(s') && t in s'.knowledge && s'.log == s.log && s'.sessions == s.sessions
  }

  lemma LearnsByConstruction(s: State, t: Term)
    requires Reachable(s) && IsConstructible(t) && forall c :: c in Children(t) ==> c in s.knowledge
    ensures Learns(s, t)
  {
    Step(s, Construct(t));
    assert Apply(s, Construct(t)).log == s.log;
  }

  lemma LearnsByProjection(s: State, t: Term, part: Term)
    requires Reachable(s) && t in s.knowledge && IsData(t) && part in Children(t)
    ensures Learns(s, part)
  {
    Step(s, Project(t, part));
    assert Apply(s, Project(t, part)).log == s.log;
  }

  /** Every function symbol is public: the attacker applies it to whatever it knows. */
  lemma AttackerHashes(s: State, a: Term)
    requires Reachable(s) && a in s.knowledge
    ensures forall value :: Learns(s, Reference(value))
    ensures Learns(s, PublicKey(a)) && Learns(s, Hash(a))
  {
    hide Reachable, Learns;
    forall value ensures Learns(s, Reference(value)) { LearnsByConstruction(s, Reference(value)); }
    LearnsByConstruction(s, PublicKey(a));
    LearnsByConstruction(s, Hash(a));
  }

  lemma AttackerAppliesToOne(s: State, a: Term)
    requires Reachable(s) && a in s.knowledge
    ensures Learns(s, VerificationRequest(a)) && Learns(s, TdxRequest(a))
    ensures Learns(s, TdxAppraisalRequest(a)) && Learns(s, ImaRequest(a)) && Learns(s, TarakoRequest(a))
    ensures Learns(s, UntrustedTarakoRequest(a)) && Learns(s, ImaKeyEntry(a)) && Learns(s, RtmrWithIma(a))
  {
    hide Reachable, Learns;
    LearnsByConstruction(s, VerificationRequest(a));
    LearnsByConstruction(s, TdxRequest(a));
    LearnsByConstruction(s, TdxAppraisalRequest(a));
    LearnsByConstruction(s, ImaRequest(a));
    LearnsByConstruction(s, TarakoRequest(a));
    LearnsByConstruction(s, UntrustedTarakoRequest(a));
    LearnsByConstruction(s, ImaKeyEntry(a));
    LearnsByConstruction(s, RtmrWithIma(a));
  }

  lemma AttackerAppliesToTwo(s: State, a: Term, b: Term)
    requires Reachable(s) && a in s.knowledge && b in s.knowledge
    ensures Learns(s, Sign(a, b)) && Learns(s, ImaRoot(a, b)) && Learns(s, SessionContext(a, b))
    ensures Learns(s, RequestContext(a, b)) && Learns(s, ImaAppraisalRequest(a, b)) && Learns(s, TarakoClaim(a, b))
    ensures Learns(s, IntegrityVerdict(a, b))
  {
    hide Reachable, Learns;
    LearnsByConstruction(s, Sign(a, b));
    LearnsByConstruction(s, ImaRoot(a, b));
    LearnsByConstruction(s, SessionContext(a, b));
    LearnsByConstruction(s, RequestContext(a, b));
    LearnsByConstruction(s, ImaAppraisalRequest(a, b));
    LearnsByConstruction(s, TarakoClaim(a, b));
    LearnsByConstruction(s, IntegrityVerdict(a, b));
  }

  lemma AttackerAppliesToThree(s: State, a: Term, b: Term, c: Term)
    requires Reachable(s) && a in s.knowledge && b in s.knowledge && c in s.knowledge
    ensures Learns(s, TdxClaim(a, b, c)) && Learns(s, TdxAppraisalAnswer(a, b, c))
    ensures Learns(s, ImaEvidence(a, b, c)) && Learns(s, ImaAppraisalAnswer(a, b, c))
  {
    hide Reachable, Learns;
    LearnsByConstruction(s, TdxClaim(a, b, c));
    LearnsByConstruction(s, TdxAppraisalAnswer(a, b, c));
    LearnsByConstruction(s, ImaEvidence(a, b, c));
    LearnsByConstruction(s, ImaAppraisalAnswer(a, b, c));
  }

  /** Data messages hide nothing: the attacker reads every field of every message it knows. */
  lemma AttackerReads(s: State, t: Term, a: Term, b: Term, c: Term)
    requires Reachable(s) && t in s.knowledge
    ensures || t == VerificationRequest(a) || t == TdxRequest(a) || t == TdxAppraisalRequest(a) || t == ImaRequest(a)
            || t == TarakoRequest(a) || t == UntrustedTarakoRequest(a) || t == ImaKeyEntry(a) || t == RtmrWithIma(a)
            ==> Learns(s, a)
    ensures || t == SessionContext(a, b) || t == RequestContext(a, b) || t == ImaAppraisalRequest(a, b)
            || t == TarakoClaim(a, b) || t == IntegrityVerdict(a, b)
            ==> Learns(s, a) && Learns(s, b)
    ensures || t == TdxClaim(a, b, c) || t == TdxAppraisalAnswer(a, b, c)
            || t == ImaEvidence(a, b, c) || t == ImaAppraisalAnswer(a, b, c)
            ==> Learns(s, a) && Learns(s, b) && Learns(s, c)
  {
    hide Reachable, Learns;
    if IsData(t) {
      forall part | part in Children(t) ensures Learns(s, part) { LearnsByProjection(s, t, part); }
    }
  }

  /** With the public key of its signer, the attacker reads a signed message; and it has names of its own. */
  lemma AttackerOpensAndGenerates(s: State, m: Term, k: Term)
    requires Reachable(s)
    ensures Sign(m, k) in s.knowledge && PublicKey(k) in s.knowledge ==> Learns(s, m)
    ensures Learns(s, Fresh(s.next))
  {
    if Sign(m, k) in s.knowledge && PublicKey(k) in s.knowledge {
      Step(s, OpenSignature(Sign(m, k), PublicKey(k)));
      assert Apply(s, OpenSignature(Sign(m, k), PublicKey(k))).log == s.log;
    }
    Step(s, GenerateName);
    assert Apply(s, GenerateName).log == s.log;
  }

  /** The hardware quotes the unapproved root too, and the signer serves unapproved callers, on any
      challenge or binding the attacker knows. */
  lemma UnapprovedEvidenceCirculates(s: State, t: Term)
    requires Reachable(s) && t in s.knowledge
    ensures exists s' ::
              && Reachable(s')
              && Sign(TdxClaim(t, APPROVED_MEASUREMENT, RtmrWithIma(UNAPPROVED_ROOT)), SigningKey(TdxAttestation))
                 in s'.knowledge
              && Sign(TarakoClaim(t, UNAPPROVED_DIGEST), SigningKey(TarakoSigner)) in s'.knowledge
  {
    hide Reachable;
    Step(s, Construct(TdxRequest(t)));
    var s1 := Apply(s, Construct(TdxRequest(t)));
    Step(s1, QuoteTdx(t, UNAPPROVED_ROOT));
    var s2 := Apply(s1, QuoteTdx(t, UNAPPROVED_ROOT));
    Step(s2, Construct(UntrustedTarakoRequest(t)));
    var s3 := Apply(s2, Construct(UntrustedTarakoRequest(t)));
    Step(s3, SignUntrusted(t));
    var s4 := Apply(s3, SignUntrusted(t));
    assert Sign(TarakoClaim(t, UNAPPROVED_DIGEST), SigningKey(TarakoSigner)) in s4.knowledge;
  }
}
