/** The protocol's security queries, over every run with any number of
    sessions, requests, clients and attacker steps. */
module ProtocolTheorems {
  import opened Terms
  import opened Protocol
  import opened ProtocolSafety

  ghost predicate HappenedBefore(e: Event, log: seq<Event>, i: nat)
    requires i <= |log|
  {
    e in log[..i]
  }

  /** The correspondence queries for the event at position i of a log. */
  ghost predicate Corresponds(log: seq<Event>, i: nat)
    requires i < |log|
  {
    match log[i]
    case TdxQuoteVerified(challenge, measurement, rtmr) =>
      HappenedBefore(TdxQuoteIssued(challenge, measurement, rtmr), log, i)
    case TdxAnswerAccepted(answerBinding, quoteBinding, challenge, rtmr) =>
      HappenedBefore(TdxAnswerIssued(answerBinding, quoteBinding, challenge, rtmr), log, i)
    case ImaEvidenceVerified(tdxBinding, root, key) =>
      && HappenedBefore(ImaLogCommitted(root, key), log, i)
      && exists quoteBinding, challenge ::
           HappenedBefore(TdxAnswerIssued(tdxBinding, quoteBinding, challenge, RtmrWithIma(root)), log, i)
    case ImaAnswerAccepted(answerBinding, tdxBinding, evidenceBinding, key) =>
      HappenedBefore(ImaAnswerIssued(answerBinding, tdxBinding, evidenceBinding, key), log, i)
    case TarakoQuoteAccepted(cache, binding, digest) =>
      && HappenedBefore(TarakoQuoteIssued(binding, digest), log, i)
      && exists tdxBinding, evidenceBinding, key ::
           HappenedBefore(ImaAnswerIssued(cache, tdxBinding, evidenceBinding, key), log, i)
    case ClientAcceptedIntegrity(request, digest) =>
      digest == APPROVED_DIGEST && HappenedBefore(IntegrityVerdictIssued(request, digest), log, i)
    case _ => true
  }

  lemma ReachableInv(s: State)
    requires Reachable(s)
    ensures Inv(s)
  {
    var actions :| Run(actions, s);
    RunKeepsInv(actions, s);
  }

  /** Queries 1-7, 9 and 10: every verification or acceptance in every run was
      preceded by the matching genuine event, and a client only ever accepts the
      approved digest, although it compares nothing and the signer also serves
      unapproved callers. */
  lemma EveryEventCorresponds(s: State, i: nat)
    requires Reachable(s) && i < |s.log|
    ensures Corresponds(s.log, i)
  {
    ReachableInv(s);
    assert Justified(s.log[i], s.log[..i]);
    match s.log[i]
    case ImaEvidenceVerified(tdxBinding, root, key) =>
      var quoteBinding, challenge :|
        TdxAnswerIssued(tdxBinding, quoteBinding, challenge, RtmrWithIma(root)) in s.log[..i];
      assert HappenedBefore(TdxAnswerIssued(tdxBinding, quoteBinding, challenge, RtmrWithIma(root)), s.log, i);
    case TarakoQuoteAccepted(cache, binding, digest) =>
      var tdxBinding, evidenceBinding, key :|
        ImaAnswerIssued(cache, tdxBinding, evidenceBinding, key) in s.log[..i];
      assert HappenedBefore(ImaAnswerIssued(cache, tdxBinding, evidenceBinding, key), s.log, i);
    case ClientAcceptedIntegrity(request, digest) => VerdictsApprove(s.log, request, digest);
    case _ =>
  }

  /** A verdict can only name the digest its acceptance was checked against. */
  lemma VerdictsApprove(log: seq<Event>, request: Term, digest: Term)
    requires LogJustified(log) && IntegrityVerdictIssued(request, digest) in log
    ensures digest == APPROVED_DIGEST
  {
    RecordedIsJustified(log, IntegrityVerdictIssued(request, digest));
    var cache, nonce :| TarakoQuoteAccepted(cache, Hash(RequestContext(request, Fresh(nonce))), digest) in log;
    RecordedIsJustified(log, TarakoQuoteAccepted(cache, Hash(RequestContext(request, Fresh(nonce))), digest));
  }

  /** Sends each acceptance to an earlier issue of the same binding and digest, no two to the same one. */
  ghost predicate InjectiveAgreement(log: seq<Event>, issue: map<int, int>) {
    && (forall i :: AcceptedAt(log, i) ==>
          && i in issue
          && 0 <= issue[i] < i
          && log[issue[i]] == TarakoQuoteIssued(log[i].binding, log[i].digest))
    && (forall i, j :: AcceptedAt(log, i) && AcceptedAt(log, j) && i != j ==> issue[i] != issue[j])
  }

  ghost function IssueOf(log: seq<Event>, i: int): (j: int)
    requires LogJustified(log) && AcceptedAt(log, i)
    ensures 0 <= j < i && log[j] == TarakoQuoteIssued(log[i].binding, log[i].digest)
  {
    assert Justified(log[i], log[..i]);
    var j :| 0 <= j < i && log[j] == TarakoQuoteIssued(log[i].binding, log[i].digest);
    j
  }

  /** Query 8, request freshness: in every run distinct acceptances have distinct
      genuine issuing events, also within one cached appraisal and when a client
      request is repeated. */
  lemma AcceptanceIsInjective(s: State)
    requires Reachable(s)
    ensures exists issue :: InjectiveAgreement(s.log, issue)
  {
    hide Reachable, Justified;
    ReachableInv(s);
    BuildAgreement(s.log);
  }

  lemma BuildAgreement(log: seq<Event>)
    requires LogJustified(log) && DistinctAcceptances(log)
    ensures exists issue :: InjectiveAgreement(log, issue)
  {
    hide Justified, LogJustified;
    var issue := map i | 0 <= i < |log| && AcceptedAt(log, i) :: IssueOf(log, i);
    forall i, j | AcceptedAt(log, i) && AcceptedAt(log, j) && i != j ensures issue[i] != issue[j] {
      assert i < j || j < i;
    }
    assert InjectiveAgreement(log, issue);
  }

  /** Queries 11 and 12, and for the other keys too: no private key is ever derivable. */
  lemma SigningKeysStaySecret(s: State, owner: KeyOwner)
    requires Reachable(s)
    ensures SigningKey(owner) !in s.knowledge
  {
    ReachableInv(s);
  }

  /** Any honest-key signature occurring anywhere in any term the attacker has derived
      is on a message its owner issued. */
  lemma HonestSignaturesAreGenuine(s: State, t: Term, m: Term, owner: KeyOwner)
    requires Reachable(s) && t in s.knowledge && Subterm(Sign(m, SigningKey(owner)), t)
    ensures Issued(owner, m, s.log)
  {
    ReachableInv(s);
    CleanSignatures(t, m, owner, s.log);
  }

  /** Establishment: the key a session caches is committed in the IMA log under a root
      whose RTMR the genuine TDX source quoted, with the approved measurement, for that
      session's own challenge. */
  lemma EstablishedSessionIsAppraised(s: State, i: nat)
    requires Reachable(s) && i < |s.sessions| && s.sessions[i].Established?
    ensures exists root ::
              && ImaLogCommitted(root, s.sessions[i].key) in s.log
              && TdxQuoteIssued(Challenge(s.sessions[i]), APPROVED_MEASUREMENT, RtmrWithIma(root)) in s.log
  {
    ReachableInv(s);
    var session := s.sessions[i];
    var tdxBinding := Hash(session.tdxAnswer);
    RecordedIsJustified(s.log, ImaAnswerAccepted(Hash(session.imaAnswer), tdxBinding, Hash(session.evidence), session.key));
    RecordedIsJustified(s.log, ImaAnswerIssued(Hash(session.imaAnswer), tdxBinding, Hash(session.evidence), session.key));
    var root :| ImaEvidenceVerified(tdxBinding, root, session.key) in s.log;
    RecordedIsJustified(s.log, ImaEvidenceVerified(tdxBinding, root, session.key));
    AnswerBindingDetermines(s.log, session, root);
    var quoteBinding := Hash(session.quote);
    RecordedIsJustified(s.log, TdxAnswerIssued(tdxBinding, quoteBinding, Challenge(session), RtmrWithIma(root)));
    RecordedIsJustified(s.log, TdxQuoteVerified(Challenge(session), APPROVED_MEASUREMENT, RtmrWithIma(root)));
    assert ImaLogCommitted(root, session.key) in s.log;
  }

  /** The hash of a TDX answer fixes its challenge and RTMR, so the IMA service and the
      session appraised the same quote. */
  lemma AnswerBindingDetermines(log: seq<Event>, session: Session, root: Term)
    requires LogJustified(log) && session.Established?
    requires TdxAnswerAccepted(Hash(session.tdxAnswer), Hash(session.quote), Challenge(session), session.rtmr) in log
    requires exists quoteBinding, challenge ::
               TdxAnswerIssued(Hash(session.tdxAnswer), quoteBinding, challenge, RtmrWithIma(root)) in log
    ensures TdxAnswerIssued(Hash(session.tdxAnswer), Hash(session.quote), Challenge(session), RtmrWithIma(root)) in log
  {
    var accepted := TdxAnswerAccepted(Hash(session.tdxAnswer), Hash(session.quote), Challenge(session), session.rtmr);
    RecordedIsJustified(log, accepted);
    RecordedIsJustified(log, TdxAnswerIssued(Hash(session.tdxAnswer), Hash(session.quote), Challenge(session),
                                             session.rtmr));
    var quoteBinding, challenge :|
      TdxAnswerIssued(Hash(session.tdxAnswer), quoteBinding, challenge, RtmrWithIma(root)) in log;
    RecordedIsJustified(log, TdxAnswerIssued(Hash(session.tdxAnswer), quoteBinding, challenge, RtmrWithIma(root)));
  }

  /** The IMA service signs only for evidence made for the TDX answer it was sent with, about a key
      committed under that evidence's root. */
  lemma ImaAnswersAreBound(s: State, i: nat)
    requires Reachable(s) && i < |s.log| && s.log[i].ImaAnswerIssued?
    ensures exists root ::
              && s.log[i].evidenceBinding == Hash(ImaEvidence(s.log[i].tdxBinding, root, s.log[i].key))
              && ImaLogCommitted(root, s.log[i].key) in s.log[..i]
  {
    ReachableInv(s);
    var e := s.log[i];
    assert Justified(e, s.log[..i]);
    var root :| ImaEvidenceVerified(e.tdxBinding, root, e.key) in s.log[..i]
                && e.evidenceBinding == Hash(ImaEvidence(e.tdxBinding, root, e.key));
    var j :| 0 <= j < i && s.log[j] == ImaEvidenceVerified(e.tdxBinding, root, e.key);
    assert Justified(s.log[j], s.log[..j]);
    assert forall x :: x in s.log[..j] ==> x in s.log[..i];
  }

  /** Whatever the network delivered as evidence, an established session's evidence is the log snapshot
      of the approved root, made for the session's own TDX answer. */
  lemma EstablishedEvidence(s: State, i: nat)
    requires Reachable(s) && i < |s.sessions| && s.sessions[i].Established?
    ensures s.sessions[i].evidence == ImaEvidence(Hash(s.sessions[i].tdxAnswer), APPROVED_ROOT, s.sessions[i].key)
  {
    ReachableInv(s);
    var session := s.sessions[i];
    var tdxBinding, evidenceBinding := Hash(session.tdxAnswer), Hash(session.evidence);
    RecordedIsJustified(s.log, ImaAnswerAccepted(Hash(session.imaAnswer), tdxBinding, evidenceBinding, session.key));
    RecordedIsJustified(s.log, ImaAnswerIssued(Hash(session.imaAnswer), tdxBinding, evidenceBinding, session.key));
    var root :| ImaEvidenceVerified(tdxBinding, root, session.key) in s.log
                && evidenceBinding == Hash(ImaEvidence(tdxBinding, root, session.key));
    RecordedIsJustified(s.log, ImaEvidenceVerified(tdxBinding, root, session.key));
    RecordedIsJustified(s.log, ImaLogCommitted(root, session.key));
  }
}
