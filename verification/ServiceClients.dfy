/** What a client can conclude when it accepts a signed result, and what it cannot. */
module ServiceClients {
  import opened Bytes
  import opened RequestContext
  import opened VerifierService
  import opened ServiceRuns
  import Json

  ghost predicate ClientAcceptedAt(log: seq<Event>, i: int) {
    0 <= i < |log| && log[i].ClientAccepted?
  }

  /** When a client accepts, a challenge was issued for exactly what it asked, under the very id and
      nonce it was given, and the kernel signed the approved digest with that challenge's binding. */
  lemma ClientAcceptanceIsBacked(w: World, s: State, i: nat)
    requires WorldSound(w) && Reachable(w, s) && ClientAcceptedAt(s.log, i)
    ensures exists id, nonce, digest ::
              && s.log[i].givenId == Json.Str(id) && s.log[i].givenNonce == Json.Str(Hex(nonce))
              && Issued(id, Challenge(nonce, s.log[i].asked)) in s.log[..i]
              && Accepted(id, Challenge(nonce, s.log[i].asked), digest) in s.log[..i]
              && KernelSigned(digest, PaddedUserData(RequestBinding(w, Challenge(nonce, s.log[i].asked)))) in s.log[..i]
    ensures s.log[i].asked != []
  {
    ReachableSound(w, s, i);
    var verdict :| verdict in s.log[..i] && Backs(verdict, s.log[i]);
    var j :| 0 <= j < i && s.log[j] == verdict;
    ReachableSound(w, s, j);
    assert verdict.challenge == Challenge(verdict.challenge.nonce, s.log[i].asked);
    assert forall e :: e in s.log[..j] ==> e in s.log[..i];
    var h :| 0 <= h < j && s.log[h] == Issued(verdict.id, verdict.challenge);
    ReachableSound(w, s, h);
  }

  /** A positive verdict the client could be shown. */
  ghost predicate VerdictFor(log: seq<Event>, client: Client, verdict: Event)
    requires client.Challenged?
  {
    verdict in log && Backs(verdict, AcceptanceBy(client))
  }

  /** A challenged client can be brought to accept exactly when there is a positive verdict on what
      it asked for, under the id and nonce it was given. */
  lemma ClientAcceptsIff(w: World, s: State, c: nat)
    requires WorldSound(w) && c < |s.clients| && s.clients[c].Challenged?
    ensures (exists result :: Enabled(w, s, ClientTakeResult(c, result)))
       <==> (exists verdict :: VerdictFor(s.log, s.clients[c], verdict))
  {
    if result :| Enabled(w, s, ClientTakeResult(c, result)) {
      SatisfiedClientIsBacked(w, s, c, result);
      var verdict :| verdict in s.log && Backs(verdict, AcceptanceBy(s.clients[c]));
      assert VerdictFor(s.log, s.clients[c], verdict);
    }
    if verdict :| VerdictFor(s.log, s.clients[c], verdict) {
      VerdictConvinces(w, s, c, verdict);
    }
  }

  /** The result of that verdict passes all the client's checks. */
  lemma VerdictConvinces(w: World, s: State, c: nat, verdict: Event)
    requires WorldSound(w) && c < |s.clients| && s.clients[c].Challenged? && VerdictFor(s.log, s.clients[c], verdict)
    ensures Enabled(w, s, ClientTakeResult(c, ResultObject(w, verdict.id, verdict.challenge, verdict.digest)))
  {
    hide Json.Dump, Json.Get;
    assert verdict == Accepted(verdict.id, verdict.challenge, verdict.digest);
    ResultFields(w, verdict.id, verdict.challenge, verdict.digest);
  }

  // ----- Freshness is not the client's -----

  /** The acceptance of a client that was given this verdict's own id and nonce. */
  function AcceptanceOf(verdict: Event): Event
    requires verdict.Accepted?
  {
    ClientAccepted(verdict.challenge.request, Json.Str(verdict.id), Json.Str(Hex(verdict.challenge.nonce)))
  }

  lemma OneMoreClient(w: World, s: State, verdict: Event)
    requires WorldSound(w) && Reachable(w, s) && verdict in s.log && verdict.Accepted?
    ensures exists s' :: Reachable(w, s') && s'.log == s.log + [AcceptanceOf(verdict)]
  {
    hide Reachable, Json.Dump, Json.Get;
    var c, e := |s.clients|, AcceptanceOf(verdict);
    Step(w, s, ClientAsk(e.asked));
    var s1 := Apply(w, s, ClientAsk(e.asked));
    Step(w, s1, ClientTakeChallenge(c, e.givenId, e.givenNonce));
    var s2 := Apply(w, s1, ClientTakeChallenge(c, e.givenId, e.givenNonce));
    assert VerdictFor(s2.log, s2.clients[c], verdict);
    VerdictConvinces(w, s2, c, verdict);
    var result := ResultObject(w, verdict.id, verdict.challenge, verdict.digest);
    Step(w, s2, ClientTakeResult(c, result));
    assert Apply(w, s2, ClientTakeResult(c, result)).log == s.log + [e];
  }

  /** One verdict can be shown to any number of clients, if all are given its id and nonce: the client
      adds nothing fresh of its own. */
  lemma {:induction false} VerdictIsReplayed(w: World, s: State, verdict: Event, n: nat)
    requires WorldSound(w) && Reachable(w, s) && verdict in s.log && verdict.Accepted?
    ensures exists s' :: Reachable(w, s') && s'.log == s.log + seq(n, _ => AcceptanceOf(verdict))
  {
    if n == 0 {
      assert s.log == s.log + seq(0, _ => AcceptanceOf(verdict));
    } else {
      VerdictIsReplayed(w, s, verdict, n - 1);
      var s1 :| Reachable(w, s1) && s1.log == s.log + seq(n - 1, _ => AcceptanceOf(verdict));
      OneMoreClient(w, s1, verdict);
      assert s.log + seq(n - 1, _ => AcceptanceOf(verdict)) + [AcceptanceOf(verdict)]
          == s.log + seq(n, _ => AcceptanceOf(verdict));
    }
  }

  /** Sends each client acceptance to an earlier verdict that backs it, no two to the same one. */
  ghost predicate InjectiveBacking(log: seq<Event>, verdicts: map<int, int>) {
    && (forall i :: ClientAcceptedAt(log, i) ==>
          i in verdicts && 0 <= verdicts[i] < i && Backs(log[verdicts[i]], log[i]))
    && (forall i, j :: ClientAcceptedAt(log, i) && ClientAcceptedAt(log, j) && i != j ==> verdicts[i] != verdicts[j])
  }

  /** No two clients that accepted were given the same id. */
  ghost predicate IdsDiffer(log: seq<Event>) {
    forall i, j :: ClientAcceptedAt(log, i) && ClientAcceptedAt(log, j) && i < j ==> log[i].givenId != log[j].givenId
  }

  ghost function BackingOf(w: World, s: State, i: int): (j: int)
    requires WorldSound(w) && Reachable(w, s) && ClientAcceptedAt(s.log, i)
    ensures 0 <= j < i && Backs(s.log[j], s.log[i])
  {
    ReachableSound(w, s, i);
    var verdict :| verdict in s.log[..i] && Backs(verdict, s.log[i]);
    var j :| 0 <= j < i && s.log[j] == verdict;
    j
  }

  /** Distinct client acceptances rest on distinct verdicts exactly when the clients were given
      distinct ids. */
  lemma BackingIsInjectiveIff(w: World, s: State)
    requires WorldSound(w) && Reachable(w, s)
    ensures (exists verdicts :: InjectiveBacking(s.log, verdicts)) <==> IdsDiffer(s.log)
  {
    if verdicts :| InjectiveBacking(s.log, verdicts) {
      InjectiveNeedsIds(w, s, verdicts);
    }
    if IdsDiffer(s.log) {
      IdsSuffice(w, s);
    }
  }

  lemma InjectiveNeedsIds(w: World, s: State, verdicts: map<int, int>)
    requires WorldSound(w) && Reachable(w, s) && InjectiveBacking(s.log, verdicts)
    ensures IdsDiffer(s.log)
  {
    hide Reachable;
    forall i, j | ClientAcceptedAt(s.log, i) && ClientAcceptedAt(s.log, j) && i < j
      ensures s.log[i].givenId != s.log[j].givenId
    {
      if s.log[i].givenId == s.log[j].givenId { SameIdSameVerdict(w, s, verdicts[i], verdicts[j]); }
    }
  }

  lemma IdsSuffice(w: World, s: State)
    requires WorldSound(w) && Reachable(w, s) && IdsDiffer(s.log)
    ensures exists verdicts :: InjectiveBacking(s.log, verdicts)
  {
    hide Reachable;
    var verdicts := map i | 0 <= i < |s.log| && ClientAcceptedAt(s.log, i) :: BackingOf(w, s, i);
    forall i, j | ClientAcceptedAt(s.log, i) && ClientAcceptedAt(s.log, j) && i != j ensures verdicts[i] != verdicts[j] {
      assert i < j || j < i;
    }
    assert InjectiveBacking(s.log, verdicts);
  }

  lemma SameIdSameVerdict(w: World, s: State, i: int, j: int)
    requires WorldSound(w) && Reachable(w, s) && 0 <= i < |s.log| && 0 <= j < |s.log|
    requires s.log[i].Accepted? && s.log[j].Accepted? && s.log[i].id == s.log[j].id
    ensures i == j
  {
    if i < j { AtMostOneVerdict(w, s, i, j, s.log[i].id); }
    if j < i { AtMostOneVerdict(w, s, j, i, s.log[i].id); }
  }
}
