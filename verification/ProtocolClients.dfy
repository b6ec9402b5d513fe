/** What a client's acceptance rests on, end to end: the client sees only a signed verdict, yet
    a chain of genuine events leads from it back to the hardware quote, and no two clients
    share a signature of the measured application. */
module ProtocolClients {
  import opened Terms
  import opened Protocol
  import opened ProtocolSafety
  import opened ProtocolTheorems

  ghost predicate ClientAcceptedAt(log: seq<Event>, i: int) {
    0 <= i < |log| && log[i].ClientAcceptedIntegrity?
  }

  ghost predicate HasAcceptedClient(clients: seq<Client>, request: Term) {
    exists c :: 0 <= c < |clients| && clients[c].accepted && Fresh(clients[c].request) == request
  }

  /** Clients draw fresh requests. */
  ghost predicate ClientsFresh(clients: seq<Client>, next: nat) {
    && (forall c :: 0 <= c < |clients| ==> clients[c].request < next)
    && (forall b, c :: 0 <= b < c < |clients| ==> clients[b].request < clients[c].request)
  }

  /** Acceptances in the log come from clients that accepted, no two for the same request. */
  ghost predicate ClientsSound(clients: seq<Client>, log: seq<Event>) {
    && (forall i :: ClientAcceptedAt(log, i) ==> HasAcceptedClient(clients, log[i].request))
    && (forall i, j :: ClientAcceptedAt(log, i) && ClientAcceptedAt(log, j) && i < j ==> log[i].request != log[j].request)
  }

  ghost predicate ClientInv(s: State) {
    ClientsFresh(s.clients, s.next) && ClientsSound(s.clients, s.log)
  }

  lemma ClientsUnaffected(clients: seq<Client>, log: seq<Event>, events: seq<Event>)
    requires ClientsSound(clients, log)
    requires forall e :: e in events ==> !e.ClientAcceptedIntegrity?
    ensures ClientsSound(clients, log + events)
  {
    assert forall i :: |log| <= i < |log + events| ==> (log + events)[i] in events;
    assert forall i :: ClientAcceptedAt(log + events, i) ==> ClientAcceptedAt(log, i);
  }

  lemma StartClientKeepsClients(clients: seq<Client>, client: Client, log: seq<Event>)
    requires ClientsSound(clients, log)
    ensures ClientsSound(clients + [client], log)
  {
    forall i | ClientAcceptedAt(log, i) ensures HasAcceptedClient(clients + [client], log[i].request) {
      var c :| 0 <= c < |clients| && clients[c].accepted && Fresh(clients[c].request) == log[i].request;
      assert (clients + [client])[c] == clients[c];
    }
  }

  /** A client that has not accepted yet has a request nobody accepted. */
  lemma AcceptingKeepsClients(clients: seq<Client>, next: nat, c: nat, log: seq<Event>, e: Event)
    requires ClientsFresh(clients, next) && ClientsSound(clients, log) && c < |clients| && !clients[c].accepted
    requires e.ClientAcceptedIntegrity? && e.request == Fresh(clients[c].request)
    ensures ClientsSound(clients[c := clients[c].(accepted := true)], log + [e])
  {
    var clients', log' := clients[c := clients[c].(accepted := true)], log + [e];
    assert clients'[c].accepted && Fresh(clients'[c].request) == e.request;
    forall i | ClientAcceptedAt(log, i)
      ensures HasAcceptedClient(clients', log[i].request) && log[i].request != e.request
    {
      var b :| 0 <= b < |clients| && clients[b].accepted && Fresh(clients[b].request) == log[i].request;
      assert clients'[b].accepted && Fresh(clients'[b].request) == log[i].request;
    }
    assert forall i :: ClientAcceptedAt(log', i) && i < |log| ==> ClientAcceptedAt(log, i);
  }

  /** Every other action records no client acceptance. */
  lemma OtherStepEvents(s: State, a: Action) returns (events: seq<Event>)
    requires Enabled(s, a) && !a.StartClient? && !a.ReceiveVerdict?
    ensures Apply(s, a).log == s.log + events && forall e :: e in events ==> !e.ClientAcceptedIntegrity?
    ensures Apply(s, a).clients == s.clients && Apply(s, a).next >= s.next
  {
    events := Apply(s, a).log[|s.log|..];
  }

  lemma StepKeepsClientInv(s: State, a: Action)
    requires ClientInv(s) && Enabled(s, a)
    ensures ClientInv(Apply(s, a))
  {
    if a.StartClient? {
      assert Apply(s, a).log == s.log;
      StartClientKeepsClients(s.clients, Client(s.next, false), s.log);
    } else if a.ReceiveVerdict? {
      var m := a.verdict.message;
      AcceptingKeepsClients(s.clients, s.next, a.client, s.log, ClientAcceptedIntegrity(m.request, m.digest));
    } else {
      var events := OtherStepEvents(s, a);
      ClientsUnaffected(s.clients, s.log, events);
    }
  }

  lemma {:induction false} RunKeepsClientInv(actions: seq<Action>, s: State)
    requires Run(actions, s)
    ensures ClientInv(s)
  {
    if actions != [] {
      var last := |actions| - 1;
      var before: State :|
        Run(actions[..last], before) && Enabled(before, actions[last]) && s == Apply(before, actions[last]);
      RunKeepsClientInv(actions[..last], before);
      StepKeepsClientInv(before, actions[last]);
    }
  }

  // ----- The chain behind an acceptance -----

  /** The names that tie one acceptance to its quote, its cached appraisal and its hardware quote. */
  datatype Chain = Chain(nonce: nat, cache: Term, tdxBinding: Term, evidenceBinding: Term, quoteBinding: Term,
                         challenge: Term)

  function RequestBinding(chain: Chain, request: Term): Term {
    Hash(RequestContext(request, Fresh(chain.nonce)))
  }

  /** All of this has happened: the approved application's quote was issued and accepted for this
      request under a cache; the cache is an appraisal of the measured key; and that rests on a
      genuine hardware quote of the root that commits the key, with the approved measurement. */
  ghost predicate Supports(chain: Chain, request: Term, log: seq<Event>) {
    && TarakoQuoteIssued(RequestBinding(chain, request), APPROVED_DIGEST) in log
    && TarakoQuoteAccepted(chain.cache, RequestBinding(chain, request), APPROVED_DIGEST) in log
    && ImaAnswerIssued(chain.cache, chain.tdxBinding, chain.evidenceBinding, TARAKO_PUBLIC_KEY) in log
    && ImaEvidenceVerified(chain.tdxBinding, APPROVED_ROOT, TARAKO_PUBLIC_KEY) in log
    && ImaLogCommitted(APPROVED_ROOT, TARAKO_PUBLIC_KEY) in log
    && TdxAnswerIssued(chain.tdxBinding, chain.quoteBinding, chain.challenge, RtmrWithIma(APPROVED_ROOT)) in log
    && TdxQuoteIssued(chain.challenge, APPROVED_MEASUREMENT, RtmrWithIma(APPROVED_ROOT)) in log
  }

  lemma PrefixJustified(log: seq<Event>, i: nat)
    requires LogJustified(log) && i <= |log|
    ensures LogJustified(log[..i])
  {
    forall j | 0 <= j < i ensures Justified(log[..i][j], log[..i][..j]) {
      assert log[..i][..j] == log[..j];
      assert Justified(log[j], log[..j]);
    }
  }

  /** The appraisal behind a cache. */
  lemma CacheIsAppraised(log: seq<Event>, cache: Term, tdxBinding: Term, evidenceBinding: Term, key: Term)
    returns (quoteBinding: Term, challenge: Term)
    requires LogJustified(log) && ImaAnswerIssued(cache, tdxBinding, evidenceBinding, key) in log
    ensures key == TARAKO_PUBLIC_KEY && ImaLogCommitted(APPROVED_ROOT, key) in log
    ensures ImaEvidenceVerified(tdxBinding, APPROVED_ROOT, key) in log
    ensures TdxAnswerIssued(tdxBinding, quoteBinding, challenge, RtmrWithIma(APPROVED_ROOT)) in log
    ensures TdxQuoteIssued(challenge, APPROVED_MEASUREMENT, RtmrWithIma(APPROVED_ROOT)) in log
  {
    RecordedIsJustified(log, ImaAnswerIssued(cache, tdxBinding, evidenceBinding, key));
    var root :| ImaEvidenceVerified(tdxBinding, root, key) in log;
    RecordedIsJustified(log, ImaEvidenceVerified(tdxBinding, root, key));
    RecordedIsJustified(log, ImaLogCommitted(root, key));
    quoteBinding, challenge :| TdxAnswerIssued(tdxBinding, quoteBinding, challenge, RtmrWithIma(root)) in log;
    RecordedIsJustified(log, TdxAnswerIssued(tdxBinding, quoteBinding, challenge, RtmrWithIma(root)));
    RecordedIsJustified(log, TdxQuoteVerified(challenge, APPROVED_MEASUREMENT, RtmrWithIma(root)));
  }

  /** A verdict has a whole chain behind it. */
  lemma VerdictIsSupported(log: seq<Event>, request: Term, digest: Term) returns (chain: Chain)
    requires LogJustified(log) && IntegrityVerdictIssued(request, digest) in log
    ensures Supports(chain, request, log)
  {
    VerdictsApprove(log, request, digest);
    RecordedIsJustified(log, IntegrityVerdictIssued(request, digest));
    var cache, nonce :| TarakoQuoteAccepted(cache, Hash(RequestContext(request, Fresh(nonce))), digest) in log;
    RecordedIsJustified(log, TarakoQuoteAccepted(cache, Hash(RequestContext(request, Fresh(nonce))), digest));
    var tdxBinding, evidenceBinding, key :| ImaAnswerIssued(cache, tdxBinding, evidenceBinding, key) in log;
    var quoteBinding, challenge := CacheIsAppraised(log, cache, tdxBinding, evidenceBinding, key);
    chain := Chain(nonce, cache, tdxBinding, evidenceBinding, quoteBinding, challenge);
  }

  /** An established session whose cached appraisal is this one. */
  ghost predicate Serves(sessions: seq<Session>, k: nat, cache: Term) {
    k < |sessions| && sessions[k].Established? && Hash(sessions[k].imaAnswer) == cache
  }

  /** Quotes are accepted only under the cache of an established session. */
  ghost predicate CachesSound(s: State) {
    forall i {:trigger AcceptedAt(s.log, i)} :: AcceptedAt(s.log, i) ==> exists k :: Serves(s.sessions, k, s.log[i].cache)
  }

  /** An established session stays as it is. */
  lemma EstablishedStays(s: State, a: Action, k: nat, cache: Term)
    requires Enabled(s, a) && Serves(s.sessions, k, cache)
    ensures Serves(Apply(s, a).sessions, k, cache)
  {
  }

  /** The only new acceptance is one under the cache of the session that serves the request. */
  lemma NewAcceptance(s: State, a: Action, i: int)
    requires Enabled(s, a) && AcceptedAt(Apply(s, a).log, i) && !AcceptedAt(s.log, i)
    ensures a.ReceiveTarakoQuote? && Serves(s.sessions, s.requests[a.request].session, Apply(s, a).log[i].cache)
  {
  }

  lemma OldEventsStay(s: State, a: Action, i: int)
    requires Enabled(s, a) && 0 <= i < |s.log|
    ensures i < |Apply(s, a).log| && Apply(s, a).log[i] == s.log[i]
  {
  }

  lemma StepKeepsCaches(s: State, a: Action)
    requires CachesSound(s) && Enabled(s, a)
    ensures CachesSound(Apply(s, a))
  {
    var s' := Apply(s, a);
    forall i | AcceptedAt(s'.log, i) ensures exists k :: Serves(s'.sessions, k, s'.log[i].cache) {
      var k: nat;
      if AcceptedAt(s.log, i) {
        OldEventsStay(s, a, i);
        k :| Serves(s.sessions, k, s.log[i].cache);
      } else {
        NewAcceptance(s, a, i);
        k := s.requests[a.request].session;
      }
      EstablishedStays(s, a, k, s'.log[i].cache);
    }
  }

  lemma {:induction false} RunKeepsCaches(actions: seq<Action>, s: State)
    requires Run(actions, s)
    ensures CachesSound(s)
  {
    if actions != [] {
      var last := |actions| - 1;
      var before: State :|
        Run(actions[..last], before) && Enabled(before, actions[last]) && s == Apply(before, actions[last]);
      RunKeepsCaches(actions[..last], before);
      StepKeepsCaches(before, actions[last]);
    }
  }

  /** Requests are taken only by established sessions. */
  ghost predicate RequestsServed(s: State) {
    forall k :: 0 <= k < |s.requests| ==>
      s.requests[k].session < |s.sessions| && s.sessions[s.requests[k].session].Established?
  }

  lemma StepKeepsRequestsServed(s: State, a: Action)
    requires RequestsServed(s) && Enabled(s, a)
    ensures RequestsServed(Apply(s, a))
  {
    forall k | 0 <= k < |s.requests|
      ensures Serves(Apply(s, a).sessions, s.requests[k].session, Hash(s.sessions[s.requests[k].session].imaAnswer))
    {
      EstablishedStays(s, a, s.requests[k].session, Hash(s.sessions[s.requests[k].session].imaAnswer));
    }
  }

  /** No run starts the request handler before its session is established. */
  lemma {:induction false} RequestsFollowEstablishment(actions: seq<Action>, s: State)
    requires Run(actions, s)
    ensures RequestsServed(s)
  {
    if actions != [] {
      var last := |actions| - 1;
      var before: State :|
        Run(actions[..last], before) && Enabled(before, actions[last]) && s == Apply(before, actions[last]);
      RequestsFollowEstablishment(actions[..last], before);
      StepKeepsRequestsServed(before, actions[last]);
    }
  }

  /** The hashes along a chain leave no choice: its hardware quote answers the challenge of the
      very session that served the request. */
  lemma ChainChallenge(log: seq<Event>, session: Session, chain: Chain, request: Term, before: seq<Event>)
    requires LogJustified(log) && Supports(chain, request, before) && (forall e :: e in before ==> e in log)
    requires session.Established? && SessionSound(session, {session.tdxAnswer}, log)
    requires chain.cache == Hash(session.imaAnswer)
    ensures chain.challenge == Challenge(session)
  {
    var tdxBinding := Hash(session.tdxAnswer);
    RecordedIsJustified(log, ImaAnswerAccepted(chain.cache, tdxBinding, Hash(session.evidence), session.key));
    RecordedIsJustified(log, ImaAnswerIssued(chain.cache, tdxBinding, Hash(session.evidence), session.key));
    RecordedIsJustified(log, ImaAnswerIssued(chain.cache, chain.tdxBinding, chain.evidenceBinding, TARAKO_PUBLIC_KEY));
    RecordedIsJustified(log, TdxAnswerAccepted(tdxBinding, Hash(session.quote), Challenge(session), session.rtmr));
    RecordedIsJustified(log, TdxAnswerIssued(tdxBinding, Hash(session.quote), Challenge(session), session.rtmr));
    RecordedIsJustified(log, TdxAnswerIssued(tdxBinding, chain.quoteBinding, chain.challenge, RtmrWithIma(APPROVED_ROOT)));
  }

  /** In every run, when a client accepts, the whole chain for its own request has already happened,
      and the hardware quote at its end answered the fresh challenge of the session that served it. */
  lemma ClientAcceptanceIsSupported(s: State, i: nat)
    requires Reachable(s) && ClientAcceptedAt(s.log, i)
    ensures exists chain, k: nat ::
              && Supports(chain, s.log[i].request, s.log[..i])
              && Serves(s.sessions, k, chain.cache) && chain.challenge == Challenge(s.sessions[k])
  {
    ReachableInv(s);
    ReachableCaches(s);
    assert Justified(s.log[i], s.log[..i]);
    PrefixJustified(s.log, i);
    var chain := VerdictIsSupported(s.log[..i], s.log[i].request, s.log[i].digest);
    var k := ServingSession(s, chain, s.log[i].request, s.log[..i]);
    ChainChallenge(s.log, s.sessions[k], chain, s.log[i].request, s.log[..i]);
  }

  lemma ServingSession(s: State, chain: Chain, request: Term, before: seq<Event>) returns (k: nat)
    requires CachesSound(s) && Supports(chain, request, before) && (forall e :: e in before ==> e in s.log)
    ensures Serves(s.sessions, k, chain.cache)
  {
    var accepted := TarakoQuoteAccepted(chain.cache, RequestBinding(chain, request), APPROVED_DIGEST);
    assert accepted in s.log;
    var j :| 0 <= j < |s.log| && s.log[j] == accepted;
    assert AcceptedAt(s.log, j);
    k :| Serves(s.sessions, k, s.log[j].cache);
  }

  lemma ReachableCaches(s: State)
    requires Reachable(s)
    ensures CachesSound(s)
  {
    var actions :| Run(actions, s);
    RunKeepsCaches(actions, s);
  }

  /** An issuing event for this client request, by the approved application. */
  ghost predicate IssuedFor(e: Event, request: Term) {
    e.TarakoQuoteIssued? && e.digest == APPROVED_DIGEST
    && exists nonce :: e.binding == Hash(RequestContext(request, Fresh(nonce)))
  }

  /** Sends each client acceptance to an earlier issue for that client's request, no two to the same one. */
  ghost predicate ClientAgreement(log: seq<Event>, issue: map<int, int>) {
    && (forall i :: ClientAcceptedAt(log, i) ==>
          i in issue && 0 <= issue[i] < i && IssuedFor(log[issue[i]], log[i].request))
    && (forall i, j :: ClientAcceptedAt(log, i) && ClientAcceptedAt(log, j) && i != j ==> issue[i] != issue[j])
  }

  ghost predicate IssuedBefore(log: seq<Event>, i: int, j: int) {
    0 <= j < i < |log| && ClientAcceptedAt(log, i) && IssuedFor(log[j], log[i].request)
  }

  lemma IssueInChain(log: seq<Event>, i: int, chain: Chain)
    requires ClientAcceptedAt(log, i) && Supports(chain, log[i].request, log[..i])
    ensures exists j :: IssuedBefore(log, i, j)
  {
    var issued := TarakoQuoteIssued(RequestBinding(chain, log[i].request), APPROVED_DIGEST);
    assert issued in log[..i];
    var j :| 0 <= j < i && log[j] == issued;
    assert IssuedFor(log[j], log[i].request);
    assert IssuedBefore(log, i, j);
  }

  lemma IssueExists(s: State, i: int)
    requires Reachable(s) && ClientAcceptedAt(s.log, i)
    ensures exists j :: IssuedBefore(s.log, i, j)
  {
    hide Reachable, Supports, IssuedBefore;
    ClientAcceptanceIsSupported(s, i);
    var chain, k: nat :| Supports(chain, s.log[i].request, s.log[..i]) && Serves(s.sessions, k, chain.cache);
    IssueInChain(s.log, i, chain);
  }

  ghost function IssueFor(log: seq<Event>, i: int): (j: int)
    requires exists j :: IssuedBefore(log, i, j)
    ensures IssuedBefore(log, i, j)
  {
    var j :| IssuedBefore(log, i, j);
    j
  }

  /** Distinct client acceptances rest on distinct signatures by the approved application, although
      clients and application never speak to each other. */
  lemma ClientAcceptanceIsInjective(s: State)
    requires Reachable(s)
    ensures exists issue :: ClientAgreement(s.log, issue)
  {
    hide Reachable, IssuedBefore;
    ReachableClientInv(s);
    forall i | ClientAcceptedAt(s.log, i) ensures exists j :: IssuedBefore(s.log, i, j) { IssueExists(s, i); }
    BuildClientAgreement(s.clients, s.log);
  }

  lemma BuildClientAgreement(clients: seq<Client>, log: seq<Event>)
    requires ClientsSound(clients, log)
    requires forall i {:trigger ClientAcceptedAt(log, i)} :: ClientAcceptedAt(log, i) ==> exists j :: IssuedBefore(log, i, j)
    ensures exists issue :: ClientAgreement(log, issue)
  {
    hide IssuedBefore, ClientsSound, IssuedFor;
    var issue := map i | 0 <= i < |log| && ClientAcceptedAt(log, i) :: IssueFor(log, i);
    forall i, j | ClientAcceptedAt(log, i) && ClientAcceptedAt(log, j) && i != j ensures issue[i] != issue[j] {
      IssuesDiffer(clients, log, i, j);
    }
    forall i | ClientAcceptedAt(log, i) ensures 0 <= issue[i] < i && IssuedFor(log[issue[i]], log[i].request) {
      IssuedBeforeMeans(log, i, issue[i]);
    }
    assert ClientAgreement(log, issue);
  }

  lemma IssuedBeforeMeans(log: seq<Event>, i: int, j: int)
    requires IssuedBefore(log, i, j)
    ensures 0 <= j < i < |log| && log[i].ClientAcceptedIntegrity? && IssuedFor(log[j], log[i].request)
  {
  }

  /** One issuing event serves one client request only. */
  lemma IssuesDiffer(clients: seq<Client>, log: seq<Event>, i: int, j: int)
    requires ClientsSound(clients, log) && ClientAcceptedAt(log, i) && ClientAcceptedAt(log, j) && i != j
    requires (exists h :: IssuedBefore(log, i, h)) && (exists h :: IssuedBefore(log, j, h))
    ensures IssueFor(log, i) != IssueFor(log, j)
  {
    assert log[i].request != log[j].request by { assert i < j || j < i; }
    assert IssuedBefore(log, i, IssueFor(log, i)) && IssuedBefore(log, j, IssueFor(log, j));
  }

  lemma ReachableClientInv(s: State)
    requires Reachable(s)
    ensures ClientInv(s)
  {
    var actions :| Run(actions, s);
    RunKeepsClientInv(actions, s);
  }
}
