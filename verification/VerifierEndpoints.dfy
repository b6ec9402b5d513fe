/** The verifier's two endpoints on its table of outstanding challenges, each a run of the service. */
module VerifierEndpoints {
  import opened Bytes
  import opened Outcomes
  import opened RequestContext
  import opened VerifierService
  import opened ServiceRuns

  datatype Verdict = Unknown | Refused | Positive(challenge: Challenge, digest: seq<byte>)

  class Verifier {
    var outstanding: map<Id, Challenge>
    ghost var service: State

    /** The table is the table of a service that has come this far in some run. */
    ghost predicate Valid(w: World)
      requires WorldSound(w)
      reads this
    {
      Reachable(w, service) && outstanding == service.outstanding
    }

    constructor (ghost w: World)
      requires WorldSound(w)
      ensures Valid(w) && service == Initial()
    {
      outstanding := map[];
      service := Initial();
      assert Run(w, [], Initial());
    }

    /** Issue a challenge; id and nonce come from the random source. */
    method IssueChallenge(ghost w: World, request: seq<CodePoint>, id: Id, nonce: seq<byte>)
      returns (challenge: Option<Challenge>)
      requires WorldSound(w) && Valid(w)
      requires |nonce| == NONCE_BYTES && Unused(service.log, id, nonce)
      modifies this
      ensures Valid(w)
      ensures request == [] ==> challenge.None? && service == old(service)
      ensures request != [] ==>
                && challenge == Some(Challenge(nonce, request))
                && service == Apply(w, old(service), Issue(id, Challenge(nonce, request)))
                && !Settled(service.log, id)
    {
      if request == [] {
        return None;
      }
      challenge := Some(Challenge(nonce, request));
      outstanding := outstanding[id := challenge.value];
      Step(w, service, Issue(id, challenge.value));
      service := Apply(w, service, Issue(id, challenge.value));
      ChallengeIsInOnePlace(w, service, id);
    }

    /** Take the challenge out of the table under the lock. Nothing is found exactly when no such
        challenge was issued, or it is being verified elsewhere, or it has its verdict. */
    method TakeChallenge(ghost w: World, body: Body, ghost call: nat) returns (expected: Option<Challenge>)
      requires WorldSound(w) && Valid(w) && call !in service.verifying
      modifies this
      ensures Valid(w) && body.challengeId !in outstanding
      ensures expected.None? <==>
              || !WasIssued(old(service).log, body.challengeId)
              || BeingVerified(old(service), body.challengeId)
              || Settled(old(service).log, body.challengeId)
      ensures expected.None? ==> service == old(service)
      ensures expected.Some? ==>
                && Enabled(w, old(service), Take(call, body))
                && service == Apply(w, old(service), Take(call, body))
                && service.verifying[call] == Verifying(body.challengeId, expected.value, body)
                && Issued(body.challengeId, expected.value) in service.log
    {
      ChallengeIsInOnePlace(w, service, body.challengeId);
      if body.challengeId !in outstanding {
        return None;
      }
      expected := Some(outstanding[body.challengeId]);
      OutstandingWasIssued(w, service, body.challengeId);
      outstanding := outstanding - {body.challengeId};
      Step(w, service, Take(call, body));
      service := Apply(w, service, Take(call, body));
    }

    /** Answer a verification request: take the challenge first, whatever the evidence is worth, then
        check the evidence point by point. Signatures under the trusted key are unforgeable. */
    method Verify(w: World, body: Body, policy: Option<seq<byte>>, ghost call: nat) returns (verdict: Verdict)
      requires WorldSound(w) && Valid(w) && call !in service.verifying
      requires body.challengeId in outstanding ==>
                 Unforged(w, service.log, body.quote, outstanding[body.challengeId], policy)
      modifies this
      ensures Valid(w) && body.challengeId !in outstanding
      ensures verdict.Unknown? <==>
              || !WasIssued(old(service).log, body.challengeId)
              || BeingVerified(old(service), body.challengeId)
              || Settled(old(service).log, body.challengeId)
      ensures verdict.Unknown? ==> service == old(service)
      ensures !verdict.Unknown? ==>
                && Settled(service.log, body.challengeId)
                && service.log == old(service).log + [if verdict.Positive?
                                                      then Accepted(body.challengeId, verdict.challenge, verdict.digest)
                                                      else Rejected(body.challengeId)]
                && service.verifying == old(service).verifying && service.clients == old(service).clients
      ensures verdict.Positive? ==>
                && policy == Some(verdict.digest) && Established(w, verdict.challenge, verdict.digest, body)
                && Issued(body.challengeId, verdict.challenge) in old(service).log
                && KernelSigned(verdict.digest, PaddedUserData(RequestBinding(w, verdict.challenge))) in old(service).log
      ensures verdict.Refused? ==>
                exists expected :: Issued(body.challengeId, expected) in old(service).log
                                   && (policy.None? || !Established(w, expected, policy.value, body))
    {
      hide Reachable, Passes, QuoteVerifies, Unforged, Established;
      var taken := TakeChallenge(w, body, call);
      if taken.None? {
        return Unknown;
      }
      verdict := Judge(w, taken.value, body, policy);
      FinishSettles(w, service, call, policy);
      service := Apply(w, service, Finish(call, policy));
    }
  }

  /** The checks on the evidence, point by point. */
  method Judge(w: World, expected: Challenge, body: Body, policy: Option<seq<byte>>) returns (verdict: Verdict)
    requires WorldSound(w)
    ensures policy.Some? && Passes(w, expected, body, policy.value) ==> verdict == Positive(expected, policy.value)
    ensures policy.None? || !Passes(w, expected, body, policy.value) ==> verdict == Refused
    ensures verdict.Positive? <==> policy.Some? && Established(w, expected, policy.value, body)
  {
    if body.request != Some(expected.request) {
      return Refused;
    }
    if body.nonceText != Some(Hex(expected.nonce)) {
      return Refused;
    }
    if body.quote.None? {
      return Refused;
    }
    if policy.None? {
      return Refused;
    }
    if !QuoteVerifies(w, body.quote.value, RequestBinding(w, expected), policy.value) {
      return Refused;
    }
    verdict := Positive(expected, policy.value);
  }

  /** Everything a positive verdict has established about the request it answers. */
  ghost predicate Established(w: World, challenge: Challenge, digest: seq<byte>, body: Body)
    requires WorldSound(w)
  {
    && body.request == Some(challenge.request) && body.nonceText == Some(Hex(challenge.nonce))
    && body.quote.Some?
    && body.quote.value.publicKey == w.trustedKey
    && body.quote.value.userData == PaddedUserData(RequestBinding(w, challenge))
    && body.quote.value.hash == w.sha256(ExpectedMessage(w, challenge, digest))
    && SignatureVerifies(w, body.quote.value, ExpectedMessage(w, challenge, digest))
  }

  /** The last step of a verification leaves its verdict, and a positive one has its kernel signature. */
  lemma FinishSettles(w: World, s: State, call: nat, policy: Option<seq<byte>>)
    requires WorldSound(w) && Reachable(w, s) && Enabled(w, s, Finish(call, policy))
    ensures var e := VerdictEvent(w, s.verifying[call], policy);
            && Reachable(w, Apply(w, s, Finish(call, policy)))
            && Settled(s.log + [e], s.verifying[call].id)
            && (e.Accepted? ==> KernelSigned(e.digest, PaddedUserData(RequestBinding(w, e.challenge))) in s.log)
  {
    var e := VerdictEvent(w, s.verifying[call], policy);
    Step(w, s, Finish(call, policy));
    assert e in s.log + [e] && VerdictOn(e, s.verifying[call].id);
    ReachableSound(w, Apply(w, s, Finish(call, policy)), |s.log|);
    assert (s.log + [e])[..|s.log|] == s.log;
  }

  lemma OutstandingWasIssued(w: World, s: State, id: Id)
    requires WorldSound(w) && Reachable(w, s) && id in s.outstanding
    ensures Issued(id, s.outstanding[id]) in s.log
  {
    var actions :| Run(w, actions, s);
    RunKeepsInv(w, actions, s);
  }
}
