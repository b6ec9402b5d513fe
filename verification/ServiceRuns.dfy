/** Every interleaving of challenges, verifications, kernel signatures and clients. */
module ServiceRuns {
  import opened Bytes
  import opened Outcomes
  import opened SignIoctl
  import opened RequestContext
  import opened VerifierService
  import Json
  import JsonReader

  datatype Event =
    | Issued(id: Id, challenge: Challenge)
    | KernelSigned(digest: seq<byte>, userData: seq<byte>)
    | Accepted(id: Id, challenge: Challenge, digest: seq<byte>)
    | Rejected(id: Id)
    | ClientAccepted(asked: seq<CodePoint>, givenId: Json.Value, givenNonce: Json.Value)

  /** A verification between taking its challenge out and giving its verdict. */
  datatype Verifying = Verifying(id: Id, expected: Challenge, body: Body)

  /** A client: what it asked for and, later, the id and nonce of the challenge it was given. They come
      over an unauthenticated channel and may be any values. */
  datatype Client =
    | Asking(asked: seq<CodePoint>)
    | Challenged(asked: seq<CodePoint>, givenId: Json.Value, givenNonce: Json.Value)
    | Satisfied(asked: seq<CodePoint>, givenId: Json.Value, givenNonce: Json.Value)

  datatype State = State(
    outstanding: map<Id, Challenge>, verifying: map<nat, Verifying>, clients: seq<Client>, log: seq<Event>)

  function Initial(): State {
    State(map[], map[], [], [])
  }

  datatype Action =
    | Issue(id: Id, challenge: Challenge)
    | KernelSign(digest: seq<byte>, userData: seq<byte>)
    | Take(call: nat, body: Body)
    | Finish(call: nat, policy: Option<seq<byte>>)
    | ClientAsk(request: seq<CodePoint>)
    | ClientTakeChallenge(client: nat, givenId: Json.Value, givenNonce: Json.Value)
    | ClientTakeResult(client: nat, result: Json.Value)

  /** Ids and nonces are drawn fresh. */
  ghost predicate Unused(log: seq<Event>, id: Id, nonce: seq<byte>) {
    forall e :: e in log && e.Issued? ==> e.id != id && e.challenge.nonce != nonce
  }

  ghost predicate KernelSignedMessage(log: seq<Event>, message: seq<byte>) {
    exists digest, userData :: KernelSigned(digest, userData) in log && digest + userData == message
  }

  /** Signatures under the trusted key cannot be forged: if the one at hand verifies for the message it
      is checked against, the kernel has signed that message. */
  ghost predicate Unforged(w: World, log: seq<Event>, quote: Option<Quote>, expected: Challenge, policy: Option<seq<byte>>)
    requires WorldSound(w)
  {
    quote.Some? && policy.Some? && SignatureVerifies(w, quote.value, ExpectedMessage(w, expected, policy.value)) ==>
      KernelSignedMessage(log, ExpectedMessage(w, expected, policy.value))
  }

  /** The verifier has signed these bytes: they are the result of one of its positive verdicts. */
  ghost predicate VerifierSigned(w: World, log: seq<Event>, bytes: seq<byte>)
    requires WorldSound(w)
  {
    exists id, challenge, digest ::
      Accepted(id, challenge, digest) in log && Json.Dump(ResultObject(w, id, challenge, digest)) == bytes
  }

  /** Python's comparison is exact when one side is a text. Other values, such as 1 and true, may
      compare equal without being the same. */
  predicate MayEqual(a: Json.Value, b: Json.Value) {
    a.Str? || b.Str? ==> a == b
  }

  function AcceptanceBy(client: Client): Event
    requires client.Challenged?
  {
    ClientAccepted(client.asked, client.givenId, client.givenNonce)
  }

  /** The client's four comparisons on a result whose signature it has verified. */
  predicate ClientSatisfied(client: Client, result: Json.Value)
    requires client.Challenged?
  {
    && result.Object?
    && Json.Get(result.members, Json.Text("accepted")) == Json.Bool(true)
    && MayEqual(Json.Get(result.members, Json.Text("challenge_id")), client.givenId)
    && MayEqual(Json.Get(result.members, Json.Text("nonce")), client.givenNonce)
    && MayEqual(Json.Get(result.members, Json.Text("request")), Json.Str(client.asked))
  }

  ghost predicate Enabled(w: World, s: State, a: Action)
    requires WorldSound(w)
  {
    match a
    case Issue(id, challenge) =>
      |challenge.nonce| == NONCE_BYTES && challenge.request != [] && Unused(s.log, id, challenge.nonce)
    case KernelSign(digest, userData) => 1 <= |digest| <= MAX_DIGEST_BYTES && |userData| == USER_DATA_BYTES
    case Take(call, body) => call !in s.verifying && body.challengeId in s.outstanding
    case Finish(call, policy) =>
      && call in s.verifying
      && Unforged(w, s.log, s.verifying[call].body.quote, s.verifying[call].expected, policy)
    case ClientAsk(_) => true
    case ClientTakeChallenge(c, _, _) => c < |s.clients| && s.clients[c].Asking?
    case ClientTakeResult(c, result) =>
      && c < |s.clients| && s.clients[c].Challenged?
         // Nor can signatures under the verifier's key: bytes that verify were signed by the verifier.
      && VerifierSigned(w, s.log, Json.Dump(result))
      && ClientSatisfied(s.clients[c], result)
  }

  /** The verdict a verification comes to. */
  ghost function VerdictEvent(w: World, v: Verifying, policy: Option<seq<byte>>): Event
    requires WorldSound(w)
  {
    if policy.Some? && Passes(w, v.expected, v.body, policy.value) then Accepted(v.id, v.expected, policy.value)
    else Rejected(v.id)
  }

  ghost function Apply(w: World, s: State, a: Action): State
    requires WorldSound(w) && Enabled(w, s, a)
  {
    match a
    case Issue(id, challenge) =>
      s.(outstanding := s.outstanding[id := challenge], log := s.log + [Issued(id, challenge)])
    case KernelSign(digest, userData) => s.(log := s.log + [KernelSigned(digest, userData)])
    case Take(call, body) =>
      s.(verifying := s.verifying[call := Verifying(body.challengeId, s.outstanding[body.challengeId], body)],
         outstanding := s.outstanding - {body.challengeId})
    case Finish(call, policy) =>
      var v := s.verifying[call];
      s.(verifying := s.verifying - {call},
         log := s.log + [VerdictEvent(w, v, policy)])
    case ClientAsk(request) => s.(clients := s.clients + [Asking(request)])
    case ClientTakeChallenge(c, id, nonce) => s.(clients := s.clients[c := Challenged(s.clients[c].asked, id, nonce)])
    case ClientTakeResult(c, _) =>
      var was := s.clients[c];
      s.(clients := s.clients[c := Satisfied(was.asked, was.givenId, was.givenNonce)],
         log := s.log + [AcceptanceBy(was)])
  }

  ghost predicate Run(w: World, actions: seq<Action>, s: State)
    requires WorldSound(w)
  {
    if actions == [] then s == Initial()
    else
      var last := |actions| - 1;
      exists before ::
        Run(w, actions[..last], before) && Enabled(w, before, actions[last]) && s == Apply(w, before, actions[last])
  }

  ghost predicate Reachable(w: World, s: State)
    requires WorldSound(w)
  {
    exists actions :: Run(w, actions, s)
  }

  // ----- Invariant -----

  predicate VerdictOn(e: Event, id: Id) {
    (e.Accepted? || e.Rejected?) && e.id == id
  }

  ghost predicate Settled(log: seq<Event>, id: Id) {
    exists e :: e in log && VerdictOn(e, id)
  }

  ghost predicate WasIssued(log: seq<Event>, id: Id) {
    exists challenge :: Issued(id, challenge) in log
  }

  /** A positive verdict on exactly what the client asked for, under the id and nonce it was given. */
  predicate Backs(verdict: Event, e: Event)
    requires e.ClientAccepted?
  {
    && verdict.Accepted?
    && e.givenId == Json.Str(verdict.id)
    && e.givenNonce == Json.Str(Hex(verdict.challenge.nonce))
    && e.asked == verdict.challenge.request
  }

  ghost predicate EventSound(w: World, e: Event, before: seq<Event>)
    requires WorldSound(w)
  {
    match e
    case Issued(id, challenge) =>
      |challenge.nonce| == NONCE_BYTES && challenge.request != [] && Unused(before, id, challenge.nonce)
    case KernelSigned(digest, userData) => 1 <= |digest| <= MAX_DIGEST_BYTES && |userData| == USER_DATA_BYTES
    case Accepted(id, challenge, digest) =>
      && !Settled(before, id)
      && Issued(id, challenge) in before
      && KernelSigned(digest, PaddedUserData(RequestBinding(w, challenge))) in before
    case Rejected(id) => !Settled(before, id) && WasIssued(before, id)
    case ClientAccepted(_, _, _) => exists verdict :: verdict in before && Backs(verdict, e)
  }

  ghost predicate LogSound(w: World, log: seq<Event>)
    requires WorldSound(w)
  {
    forall i {:trigger EventSound(w, log[i], log[..i])} :: 0 <= i < |log| ==> EventSound(w, log[i], log[..i])
  }

  ghost predicate BeingVerified(s: State, id: Id) {
    exists c :: c in s.verifying && s.verifying[c].id == id
  }

  ghost predicate NothingLost(s: State) {
    forall id :: WasIssued(s.log, id) ==> id in s.outstanding || BeingVerified(s, id) || Settled(s.log, id)
  }

  /** A challenge is outstanding, being verified, or settled: exactly one of the three. */
  ghost predicate Inv(w: World, s: State)
    requires WorldSound(w)
  {
    && LogSound(w, s.log)
    && (forall id :: id in s.outstanding ==> Issued(id, s.outstanding[id]) in s.log && !Settled(s.log, id))
    && (forall c :: c in s.verifying ==>
          && Issued(s.verifying[c].id, s.verifying[c].expected) in s.log
          && !Settled(s.log, s.verifying[c].id)
          && s.verifying[c].id !in s.outstanding)
    && (forall c, d :: c in s.verifying && d in s.verifying && s.verifying[c].id == s.verifying[d].id ==> c == d)
    && NothingLost(s)
  }

  lemma LogExtends(w: World, log: seq<Event>, e: Event)
    requires WorldSound(w) && LogSound(w, log) && EventSound(w, e, log)
    ensures LogSound(w, log + [e])
    ensures forall id :: Settled(log + [e], id) <==> Settled(log, id) || VerdictOn(e, id)
    ensures forall id :: WasIssued(log + [e], id) <==> WasIssued(log, id) || (e.Issued? && e.id == id)
  {
    var log' := log + [e];
    forall i | 0 <= i < |log'| ensures EventSound(w, log'[i], log'[..i]) {
      assert log'[..i] == log[..i];
      assert i < |log| ==> EventSound(w, log[i], log[..i]);
      assert i == |log| ==> log[..i] == log;
    }
  }

  lemma SignedWithTheseParts(w: World, log: seq<Event>, digest: seq<byte>, userData: seq<byte>)
    requires WorldSound(w) && LogSound(w, log) && |userData| == USER_DATA_BYTES
    requires KernelSignedMessage(log, digest + userData)
    ensures KernelSigned(digest, userData) in log
  {
    var d, u :| KernelSigned(d, u) in log && d + u == digest + userData;
    var i :| 0 <= i < |log| && log[i] == KernelSigned(d, u);
    assert EventSound(w, log[i], log[..i]);
    MessageParts(d, u, digest, userData);
  }

  lemma IssueKeepsInv(w: World, s: State, id: Id, challenge: Challenge)
    requires WorldSound(w) && Inv(w, s) && Enabled(w, s, Issue(id, challenge))
    ensures Inv(w, Apply(w, s, Issue(id, challenge)))
  {
    LogExtends(w, s.log, Issued(id, challenge));
    SettledWasIssued(w, s.log, id);
  }

  /** Only issued challenges get verdicts. */
  lemma SettledWasIssued(w: World, log: seq<Event>, id: Id)
    requires WorldSound(w) && LogSound(w, log)
    ensures Settled(log, id) ==> WasIssued(log, id)
  {
    if Settled(log, id) {
      var e :| e in log && VerdictOn(e, id);
      var i :| 0 <= i < |log| && log[i] == e;
      assert EventSound(w, log[i], log[..i]);
      assert WasIssued(log[..i], id);
      var challenge :| Issued(id, challenge) in log[..i];
      assert Issued(id, challenge) in log;
    }
  }

  lemma SignKeepsInv(w: World, s: State, digest: seq<byte>, userData: seq<byte>)
    requires WorldSound(w) && Inv(w, s) && Enabled(w, s, KernelSign(digest, userData))
    ensures Inv(w, Apply(w, s, KernelSign(digest, userData)))
  {
    LogExtends(w, s.log, KernelSigned(digest, userData));
  }

  lemma TakeLosesNothing(w: World, s: State, call: nat, body: Body)
    requires WorldSound(w) && NothingLost(s) && Enabled(w, s, Take(call, body))
    ensures NothingLost(Apply(w, s, Take(call, body)))
  {
    var s' := Apply(w, s, Take(call, body));
    assert BeingVerified(s', body.challengeId) by { assert s'.verifying[call].id == body.challengeId; }
    forall id | BeingVerified(s, id) ensures BeingVerified(s', id) {
      var c :| c in s.verifying && s.verifying[c].id == id;
      assert s'.verifying[c].id == id;
    }
  }

  lemma TakeKeepsInv(w: World, s: State, call: nat, body: Body)
    requires WorldSound(w) && Inv(w, s) && Enabled(w, s, Take(call, body))
    ensures Inv(w, Apply(w, s, Take(call, body)))
  {
    hide NothingLost, LogSound;
    TakeLosesNothing(w, s, call, body);
  }

  /** The verification that ends leaves a verdict behind; the others stay. */
  lemma FinishLosesNothing(s: State, s': State, call: nat, e: Event)
    requires NothingLost(s) && call in s.verifying && VerdictOn(e, s.verifying[call].id)
    requires s' == s.(verifying := s.verifying - {call}, log := s.log + [e])
    ensures NothingLost(s')
  {
    assert e in s'.log;
    forall id | WasIssued(s'.log, id) ensures id in s'.outstanding || BeingVerified(s', id) || Settled(s'.log, id) {
      var challenge :| Issued(id, challenge) in s'.log;
      assert WasIssued(s.log, id);
      if BeingVerified(s, id) {
        var c :| c in s.verifying && s.verifying[c].id == id;
        assert c != call ==> s'.verifying[c].id == id;
      } else if Settled(s.log, id) {
        var v :| v in s.log && VerdictOn(v, id);
        assert v in s'.log;
      }
    }
  }

  lemma VerdictIsSound(w: World, s: State, call: nat, policy: Option<seq<byte>>)
    requires WorldSound(w) && Inv(w, s) && Enabled(w, s, Finish(call, policy))
    ensures EventSound(w, VerdictEvent(w, s.verifying[call], policy), s.log)
  {
    var v := s.verifying[call];
    if policy.Some? && Passes(w, v.expected, v.body, policy.value) {
      SignedWithTheseParts(w, s.log, policy.value, PaddedUserData(RequestBinding(w, v.expected)));
    } else {
      assert WasIssued(s.log, v.id);
    }
  }

  lemma FinishKeepsInv(w: World, s: State, call: nat, policy: Option<seq<byte>>)
    requires WorldSound(w) && Inv(w, s) && Enabled(w, s, Finish(call, policy))
    ensures Inv(w, Apply(w, s, Finish(call, policy)))
  {
    hide NothingLost, LogSound, EventSound;
    var e := VerdictEvent(w, s.verifying[call], policy);
    VerdictIsSound(w, s, call, policy);
    LogExtends(w, s.log, e);
    FinishLosesNothing(s, Apply(w, s, Finish(call, policy)), call, e);
  }

  /** What the client compared was a result the verifier signed, so its values are the verdict's. */
  lemma SatisfiedClientIsBacked(w: World, s: State, c: nat, result: Json.Value)
    requires WorldSound(w) && Enabled(w, s, ClientTakeResult(c, result))
    ensures exists verdict :: verdict in s.log && Backs(verdict, AcceptanceBy(s.clients[c]))
  {
    hide Json.Dump, Json.Get;
    var id, challenge, digest :|
      Accepted(id, challenge, digest) in s.log && Json.Dump(ResultObject(w, id, challenge, digest)) == Json.Dump(result);
    JsonReader.DumpInjective(ResultObject(w, id, challenge, digest), result);
    ResultFields(w, id, challenge, digest);
    assert Backs(Accepted(id, challenge, digest), AcceptanceBy(s.clients[c]));
  }

  lemma ClientKeepsInv(w: World, s: State, a: Action)
    requires WorldSound(w) && Inv(w, s) && Enabled(w, s, a)
    requires a.ClientAsk? || a.ClientTakeChallenge? || a.ClientTakeResult?
    ensures Inv(w, Apply(w, s, a))
  {
    var s' := Apply(w, s, a);
    if a.ClientTakeResult? {
      SatisfiedClientIsBacked(w, s, a.client, a.result);
      LogExtends(w, s.log, AcceptanceBy(s.clients[a.client]));
    }
    forall id ensures BeingVerified(s', id) <==> BeingVerified(s, id) {
      assert s'.verifying == s.verifying;
    }
  }

  lemma {:induction false} RunKeepsInv(w: World, actions: seq<Action>, s: State)
    requires WorldSound(w) && Run(w, actions, s)
    ensures Inv(w, s)
  {
    if actions != [] {
      var last := |actions| - 1;
      var before :|
        Run(w, actions[..last], before) && Enabled(w, before, actions[last]) && s == Apply(w, before, actions[last]);
      RunKeepsInv(w, actions[..last], before);
      match actions[last]
      case Issue(id, challenge) => IssueKeepsInv(w, before, id, challenge);
      case KernelSign(digest, userData) => SignKeepsInv(w, before, digest, userData);
      case Take(call, body) => TakeKeepsInv(w, before, call, body);
      case Finish(call, policy) => FinishKeepsInv(w, before, call, policy);
      case _ => ClientKeepsInv(w, before, actions[last]);
    }
  }

  lemma ReachableSound(w: World, s: State, i: nat)
    requires WorldSound(w) && Reachable(w, s) && i < |s.log|
    ensures EventSound(w, s.log[i], s.log[..i]) && LogSound(w, s.log)
  {
    var actions :| Run(w, actions, s);
    RunKeepsInv(w, actions, s);
  }

  // ----- What every run guarantees -----

  /** Every issued challenge, and no other, is outstanding, being verified or settled, and never two
      of these; no two verifications hold the same one. */
  lemma ChallengeIsInOnePlace(w: World, s: State, id: Id)
    requires WorldSound(w) && Reachable(w, s)
    ensures WasIssued(s.log, id) <==> id in s.outstanding || BeingVerified(s, id) || Settled(s.log, id)
    ensures !(id in s.outstanding && BeingVerified(s, id))
    ensures !(id in s.outstanding && Settled(s.log, id))
    ensures !(BeingVerified(s, id) && Settled(s.log, id))
    ensures forall c, d :: c in s.verifying && d in s.verifying && s.verifying[c].id == s.verifying[d].id ==> c == d
  {
    var actions :| Run(w, actions, s);
    RunKeepsInv(w, actions, s);
    SettledWasIssued(w, s.log, id);
  }

  /** Each challenge gets at most one verdict, so a failed attempt uses it up for good. */
  lemma AtMostOneVerdict(w: World, s: State, i: nat, j: nat, id: Id)
    requires WorldSound(w) && Reachable(w, s) && i < j < |s.log| && VerdictOn(s.log[i], id)
    ensures !VerdictOn(s.log[j], id)
  {
    ReachableSound(w, s, j);
    assert s.log[i] in s.log[..j] && Settled(s.log[..j], id);
  }

  ghost predicate AcceptedAt(log: seq<Event>, i: int) {
    0 <= i < |log| && log[i].Accepted?
  }

  /** The hash does not collide on the contexts of this run's challenges. */
  ghost predicate NoCollision(w: World, log: seq<Event>) {
    forall a, b :: a in log && b in log && a.Issued? && b.Issued?
                   && w.sha256(Context(a.challenge)) == w.sha256(Context(b.challenge)) ==>
      Context(a.challenge) == Context(b.challenge)
  }

  /** Sends each accepted verdict to an earlier kernel signature over its own digest and binding,
      no two to the same one. */
  ghost predicate InjectiveAgreement(w: World, log: seq<Event>, signing: map<int, int>)
    requires WorldSound(w)
  {
    && (forall i :: AcceptedAt(log, i) ==>
          && i in signing && 0 <= signing[i] < i
          && log[signing[i]] == KernelSigned(log[i].digest, PaddedUserData(RequestBinding(w, log[i].challenge))))
    && (forall i, j :: AcceptedAt(log, i) && AcceptedAt(log, j) && i != j ==> signing[i] != signing[j])
  }

  /** Two challenges of one run with different ids have different nonces. */
  lemma IssuedNoncesDiffer(w: World, log: seq<Event>, a: Event, b: Event)
    requires WorldSound(w) && LogSound(w, log) && a in log && b in log && a.Issued? && b.Issued? && a.id != b.id
    ensures a.challenge.nonce != b.challenge.nonce
    ensures |a.challenge.nonce| == |b.challenge.nonce| == NONCE_BYTES
  {
    var i :| 0 <= i < |log| && log[i] == a;
    var j :| 0 <= j < |log| && log[j] == b;
    assert EventSound(w, log[i], log[..i]) && EventSound(w, log[j], log[..j]);
    assert i < j ==> a in log[..j];
    assert j < i ==> b in log[..i];
  }

  /** Different challenges bind different user data. */
  lemma BindingsDiffer(w: World, log: seq<Event>, a: Event, b: Event)
    requires WorldSound(w) && LogSound(w, log) && NoCollision(w, log)
    requires a in log && b in log && a.Issued? && b.Issued? && a.id != b.id
    ensures PaddedUserData(RequestBinding(w, a.challenge)) != PaddedUserData(RequestBinding(w, b.challenge))
  {
    IssuedNoncesDiffer(w, log, a, b);
    var x, y := a.challenge, b.challenge;
    if PaddedUserData(RequestBinding(w, x)) == PaddedUserData(RequestBinding(w, y)) {
      PaddingInjective(RequestBinding(w, x), RequestBinding(w, y));
      SamePythonContext(x, y);
      ContextInjective(x.nonce, x.request, y.nonce, y.request);
    }
  }

  lemma SamePythonContext(x: Challenge, y: Challenge)
    requires Context(x) == Context(y)
    ensures PythonContext(x.nonce, x.request) == PythonContext(y.nonce, y.request)
  {
    assert PythonContext(x.nonce, x.request) == Context(x)[|DOMAIN|..];
    assert PythonContext(y.nonce, y.request) == Context(y)[|DOMAIN|..];
  }

  ghost function SigningOf(w: World, log: seq<Event>, i: int): (j: int)
    requires WorldSound(w) && LogSound(w, log) && AcceptedAt(log, i)
    ensures 0 <= j < i
    ensures log[j] == KernelSigned(log[i].digest, PaddedUserData(RequestBinding(w, log[i].challenge)))
  {
    assert EventSound(w, log[i], log[..i]);
    var j :| 0 <= j < i && log[j] == KernelSigned(log[i].digest, PaddedUserData(RequestBinding(w, log[i].challenge)));
    j
  }

  /** Two accepted verdicts are for different challenges, so they need different signatures. */
  lemma AcceptedBindingsDiffer(w: World, log: seq<Event>, i: int, j: int)
    requires WorldSound(w) && LogSound(w, log) && NoCollision(w, log)
    requires AcceptedAt(log, i) && AcceptedAt(log, j) && i < j
    ensures PaddedUserData(RequestBinding(w, log[i].challenge)) != PaddedUserData(RequestBinding(w, log[j].challenge))
  {
    assert EventSound(w, log[i], log[..i]) && EventSound(w, log[j], log[..j]);
    assert log[i] in log[..j] && VerdictOn(log[i], log[i].id);
    BindingsDiffer(w, log, Issued(log[i].id, log[i].challenge), Issued(log[j].id, log[j].challenge));
  }

  /** Accepted verdicts map one-to-one into kernel signatures whose caller digest is the approved
      one and whose user data is the binding of that very challenge. */
  lemma AcceptanceIsInjective(w: World, s: State)
    requires WorldSound(w) && Reachable(w, s) && NoCollision(w, s.log)
    ensures exists signing :: InjectiveAgreement(w, s.log, signing)
  {
    var actions :| Run(w, actions, s);
    RunKeepsInv(w, actions, s);
    BuildAgreement(w, s.log);
  }

  lemma BuildAgreement(w: World, log: seq<Event>)
    requires WorldSound(w) && LogSound(w, log) && NoCollision(w, log)
    ensures exists signing :: InjectiveAgreement(w, log, signing)
  {
    hide LogSound, NoCollision;
    var signing := map i | 0 <= i < |log| && AcceptedAt(log, i) :: SigningOf(w, log, i);
    forall i, j | AcceptedAt(log, i) && AcceptedAt(log, j) && i < j ensures signing[i] != signing[j] {
      AcceptedBindingsDiffer(w, log, i, j);
    }
    assert InjectiveAgreement(w, log, signing);
  }

  // ----- Runs that do happen -----

  lemma Step(w: World, s: State, a: Action)
    requires WorldSound(w) && Reachable(w, s) && Enabled(w, s, a)
    ensures Reachable(w, Apply(w, s, a))
  {
    var actions :| Run(w, actions, s);
    assert (actions + [a])[..|actions|] == actions;
    assert Run(w, actions + [a], Apply(w, s, a));
  }

  /** The challenge is being verified against this body, right after the kernel signed for it. */
  ghost predicate Judging(w: World, s: State, call: nat, id: Id, challenge: Challenge, body: Body, digest: seq<byte>)
    requires WorldSound(w)
  {
    && Reachable(w, s) && call in s.verifying && s.verifying[call] == Verifying(id, challenge, body)
    && KernelSigned(digest, PaddedUserData(RequestBinding(w, challenge))) in s.log
  }

  function HonestEvents(w: World, id: Id, challenge: Challenge, digest: seq<byte>): seq<Event>
    requires |RequestBinding(w, challenge)| <= USER_DATA_BYTES
  {
    [Issued(id, challenge), KernelSigned(digest, PaddedUserData(RequestBinding(w, challenge)))]
  }

  lemma JudgingHappens(w: World, s: State, call: nat, id: Id, challenge: Challenge, body: Body, digest: seq<byte>)
    requires WorldSound(w) && Reachable(w, s) && Enabled(w, s, Issue(id, challenge))
    requires call !in s.verifying && body.challengeId == id && 1 <= |digest| <= MAX_DIGEST_BYTES
    ensures exists s' ::
              Judging(w, s', call, id, challenge, body, digest) && s'.log == s.log + HonestEvents(w, id, challenge, digest)
  {
    hide Reachable;
    var userData := PaddedUserData(RequestBinding(w, challenge));
    Step(w, s, Issue(id, challenge));
    var s1 := Apply(w, s, Issue(id, challenge));
    Step(w, s1, KernelSign(digest, userData));
    var s2 := Apply(w, s1, KernelSign(digest, userData));
    Step(w, s2, Take(call, body));
    var s3 := Apply(w, s2, Take(call, body));
    assert KernelSigned(digest, userData) in s3.log;
    assert s3.log == s.log + HonestEvents(w, id, challenge, digest);
    assert Judging(w, s3, call, id, challenge, body, digest);
  }

  /** From any reachable state a fresh challenge can be issued, signed for by the approved caller
      and accepted, whenever both encoders write its request alike. */
  lemma HonestRunIsAccepted(w: World, kp: KeyPair, s: State, call: nat, id: Id, challenge: Challenge, digest: seq<byte>,
                            reply: SignDataReq)
    requires WorldSound(w) && Trusts(w, kp) && Reachable(w, s) && Enabled(w, s, Issue(id, challenge))
    requires call !in s.verifying && 1 <= |digest| <= MAX_DIGEST_BYTES
    requires AllWrittenAlike(challenge.request) && RepliesToAttester(w, kp, challenge, digest, reply)
    ensures exists s' ::
              && Reachable(w, s')
              && s'.log == s.log + HonestEvents(w, id, challenge, digest) + [Accepted(id, challenge, digest)]
  {
    hide Reachable;
    var body := HonestBody(id, challenge, kp, reply);
    HonestFlowIsAccepted(w, kp, id, challenge, digest, reply);
    JudgingHappens(w, s, call, id, challenge, body, digest);
    var s1 :|
      Judging(w, s1, call, id, challenge, body, digest) && s1.log == s.log + HonestEvents(w, id, challenge, digest);
    Step(w, s1, Finish(call, Some(digest)));
    assert Apply(w, s1, Finish(call, Some(digest))).log == s1.log + [Accepted(id, challenge, digest)];
  }
}
