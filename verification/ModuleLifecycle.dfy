/** The kernel module through any number of load, serve and unload cycles, with ioctls
    interleaved with every atomic step on the global key cell. */
module ModuleLifecycle {
  import opened Bytes
  import opened Outcomes
  import opened Ecdsa
  import opened SignIoctl
  import Vli
  import S = SetOnce

  /** The thread that loads and unloads; call c runs as thread c + 1. */
  const LOADER: S.Thread := 0

  datatype Phase =
    | Unloaded
    | Generated(key: nat)      // key pair made, device not yet registered
    | Registered(key: nat)     // device visible, cell not yet populated
    | Populating               // inside populate
    | Live
    | Unregistered             // device gone, cell not yet cleared
    | Clearing                 // inside clear

  /** The curve and the hash the module computes with. */
  datatype Platform = Platform(curve: Curve, sha256: seq<byte> -> seq<byte>)

  /** How a call ends once it has the key pair: an error of some helper, or a reply. */
  datatype Outcome = Failed | GotPubkey | Signed(digest: seq<byte>, userData: seq<byte>, reply: SignDataReq)

  datatype Call = Call(fd: nat, sign: bool)

  datatype Event =
    | Measured(pubkey: seq<byte>)
    | PubkeyReply(fd: nat, pubkey: seq<byte>)
    | SignReply(fd: nat, pubkey: seq<byte>, digest: seq<byte>, reply: SignDataReq)
    | Refused(fd: nat)
    | LoadRefused              // populate failed: EBUSY
    | ModuleUnloaded

  datatype State = State(
    platform: Platform,
    cell: S.State,
    phase: Phase,
    keys: seq<KeyPair>,        // every key pair generated; the cell holds one by index
    files: set<nat>,           // open files
    nextFile: nat,
    calls: map<nat, Call>,     // ioctls holding a reference to the key pair
    nextCall: nat,
    log: seq<Event>)

  function Initial(platform: Platform): State {
    State(platform, S.Initial(), Unloaded, [], {}, 0, map[], 0, [])
  }

  datatype Action =
    | Generate(key: KeyPair)
    | FailToRegister
    | Register
    | StartPopulate
    | PopulateStep
    | OpenFile
    | CloseFile(fd: nat)
    | BeginCall(fd: nat, sign: bool)
    | FinishCall(call: nat, outcome: Outcome)
    | Unregister
    | StartClear
    | ClearStep

  /** What a call with the key pair may come to: the signing ioctl replies only as it can. */
  ghost predicate MayEnd(platform: Platform, sign: bool, key: KeyPair, outcome: Outcome) {
    match outcome
    case Failed => true
    case GotPubkey => !sign
    case Signed(digest, userData, reply) =>
      sign && platform.curve.order > 0 && Signs(platform.curve, platform.sha256, key, digest, userData, reply)
  }

  /** The key pair in the cell. */
  function StoredKey(s: State): Option<KeyPair> {
    if s.cell.storage.Some? && s.cell.storage.value < |s.keys| then Some(s.keys[s.cell.storage.value]) else None
  }

  /** What the module itself waits for. A generated key pair is one that key generation can make.
      Unregistering needs every file closed: an open file holds a reference on the module. */
  ghost predicate Wants(s: State, a: Action) {
    match a
    case Generate(key) => s.phase.Unloaded? && ValidKeyPair(s.platform.curve, key)
    case FailToRegister => s.phase.Generated?
    case Register => s.phase.Generated?
    case StartPopulate => s.phase.Registered?
    case PopulateStep => s.phase.Populating?
    case OpenFile => s.phase.Registered? || s.phase.Populating? || s.phase.Live?
    case CloseFile(fd) => fd in s.files && forall c :: c in s.calls ==> s.calls[c].fd != fd
    case BeginCall(fd, _) => fd in s.files
    case FinishCall(c, outcome) =>
      c in s.calls && (StoredKey(s).Some? ==> MayEnd(s.platform, s.calls[c].sign, StoredKey(s).value, outcome))
    case Unregister => s.phase.Live? && s.files == {}
    case StartClear => s.phase.Unregistered?
    case ClearStep => s.phase.Clearing?
  }

  /** The step the action takes on the cell, if any. */
  function CellStep(s: State, a: Action): Option<S.Action> {
    var pc := if LOADER in s.cell.threads then Some(s.cell.threads[LOADER]) else None;
    match a
    case StartPopulate => if s.phase.Registered? then Some(S.BeginPopulate(LOADER, s.phase.key)) else None
    case PopulateStep =>
      if pc == None then None
      else if pc.value.Exchanging? then Some(S.CompareExchange(LOADER))
      else if pc.value.Writing? then Some(S.Write(LOADER))
      else if pc.value.Publishing? then Some(S.Publish(LOADER))
      else Some(S.Discard(LOADER))
    case BeginCall(_, _) => Some(S.AsRef(s.nextCall + 1))
    case FinishCall(c, _) => Some(S.Deref(c + 1))
    case StartClear => Some(S.BeginClear(LOADER))
    case ClearStep =>
      if pc == None then None
      else if pc.value.ClearExchanging? then Some(S.ClearExchange(LOADER))
      else if pc.value.ClearDropping? then Some(S.ClearDrop(LOADER))
      else Some(S.ClearReset(LOADER))
    case _ => None
  }

  /** The cell's own conditions on that step, clear's safety contract among them. */
  predicate CellAllows(s: State, a: Action) {
    && (CellStep(s, a).Some? ==> S.Enabled(s.cell, CellStep(s, a).value))
    && (a.PopulateStep? || a.ClearStep? ==> LOADER in s.cell.threads)
    && (a.FinishCall? ==> s.cell.storage.Some? && s.cell.storage.value < |s.keys|)
  }

  ghost predicate Enabled(s: State, a: Action) {
    Wants(s, a) && CellAllows(s, a)
  }

  function CellAfter(s: State, a: Action): S.State
    requires Enabled(s, a)
  {
    if CellStep(s, a).Some? then S.Apply(s.cell, CellStep(s, a).value) else s.cell
  }

  /** The reply to a call that has reached the key pair. */
  function Reply(call: Call, key: KeyPair, outcome: Outcome): Event {
    match outcome
    case Failed => Refused(call.fd)
    case GotPubkey => PubkeyReply(call.fd, key.pubkey)
    case Signed(digest, _, reply) => SignReply(call.fd, key.pubkey, digest, reply)
  }

  function Apply(s: State, a: Action): State
    requires Enabled(s, a)
  {
    var t := s.(cell := CellAfter(s, a));
    match a
    case Generate(key) =>
      t.(keys := s.keys + [key], phase := Generated(|s.keys|),
         log := if key.imaMeasured then s.log + [Measured(key.pubkey)] else s.log)
    case FailToRegister => t.(phase := Unloaded)
    case Register => t.(phase := Registered(s.phase.key))
    case StartPopulate => t.(phase := Populating)
    case PopulateStep =>
      if LOADER in t.cell.threads then t
      else if CellStep(s, a).value.Publish? then t.(phase := Live)
      else t.(phase := Unloaded, log := s.log + [LoadRefused])
    case OpenFile => t.(files := s.files + {s.nextFile}, nextFile := s.nextFile + 1)
    case CloseFile(fd) => t.(files := s.files - {fd})
    case BeginCall(fd, sign) =>
      if s.nextCall + 1 in t.cell.threads
      then t.(calls := s.calls[s.nextCall := Call(fd, sign)], nextCall := s.nextCall + 1)
      else t.(nextCall := s.nextCall + 1, log := s.log + [Refused(fd)])
    case FinishCall(c, outcome) =>
      assert S.Enabled(t.cell, S.Release(c + 1));
      t.(cell := S.Apply(t.cell, S.Release(c + 1)), calls := s.calls - {c},
         log := s.log + [Reply(s.calls[c], s.keys[s.cell.storage.value], outcome)])
    case Unregister => t.(phase := Unregistered)
    case StartClear => t.(phase := Clearing)
    case ClearStep =>
      if LOADER in t.cell.threads then t else t.(phase := Unloaded, log := s.log + [ModuleUnloaded])
  }

  ghost predicate Run(actions: seq<Action>, s: State) {
    if actions == [] then s == Initial(s.platform)
    else
      var last := |actions| - 1;
      exists before ::
        Run(actions[..last], before) && Enabled(before, actions[last]) && s == Apply(before, actions[last])
  }

  ghost predicate Reachable(s: State) {
    exists actions :: Run(actions, s)
  }

  // ----- Invariant -----

  predicate IsReply(e: Event) {
    e.PubkeyReply? || e.SignReply?
  }

  /** The key last replied with, in the current load. */
  function CurrentKey(log: seq<Event>): Option<seq<byte>> {
    if log == [] then None
    else
      var e := log[|log| - 1];
      if e.ModuleUnloaded? then None else if IsReply(e) then Some(e.pubkey) else CurrentKey(log[..|log| - 1])
  }

  ghost predicate NoUnloadBetween(log: seq<Event>, i: nat, j: nat) {
    forall k :: i <= k < j && k < |log| ==> !log[k].ModuleUnloaded?
  }

  ghost predicate RepliedTo(log: seq<Event>, i: nat, fd: nat) {
    i < |log| && IsReply(log[i]) && log[i].fd == fd
  }

  ghost predicate EventSound(log: seq<Event>, i: nat)
    requires i < |log|
  {
    var e := log[i];
    && !e.LoadRefused?
    && (e.SignReply? ==> Measured(e.pubkey) in log[..i])
    && (IsReply(e) ==>
          && (CurrentKey(log[..i]) == None || CurrentKey(log[..i]) == Some(e.pubkey))
          && forall h: nat :: h < i && RepliedTo(log, h, e.fd) ==> NoUnloadBetween(log, h, i))
  }

  ghost predicate LogSound(log: seq<Event>) {
    forall i: nat {:trigger EventSound(log, i)} :: i < |log| ==> EventSound(log, i)
  }

  /** Which cell threads exist, and where the loader is, in each phase. */
  ghost predicate CellSound(s: State) {
    && S.Reachable(s.cell) && s.cell.alive
    && (LOADER in s.cell.threads <==> s.phase.Populating? || s.phase.Clearing?)
    && (forall t :: t in s.cell.threads && t != LOADER ==> t > 0 && t - 1 in s.calls)
    && (forall v :: v in s.cell.given ==> v < |s.keys|)
    && match s.phase
       case Unloaded => s.cell.init == 0
       case Generated(key) => s.cell.init == 0 && key < |s.keys| && key !in s.cell.given
       case Registered(key) => s.cell.init == 0 && key < |s.keys| && key !in s.cell.given
       case Populating =>
         var pc := s.cell.threads[LOADER];
         (pc.Exchanging? && s.cell.init == 0) || pc.Writing? || pc.Publishing?
       case Live => s.cell.init == 2
       case Unregistered => s.cell.init == 2
       case Clearing =>
         var pc := s.cell.threads[LOADER];
         (pc.ClearExchanging? && s.cell.init == 2) || pc.ClearDropping? || pc.ClearResetting?
  }

  ghost predicate CallsSound(s: State) {
    && (forall c :: c in s.calls ==>
          && c < s.nextCall && s.calls[c].fd in s.files
          && c + 1 in s.cell.threads && s.cell.threads[c + 1].Holding?)
    && (forall fd :: fd in s.files ==> fd < s.nextFile)
    && (s.phase.Unloaded? || s.phase.Generated? || s.phase.Unregistered? || s.phase.Clearing? ==> s.files == {})
  }

  ghost predicate KeysSound(s: State) {
    && (forall i :: 0 <= i < |s.keys| && s.keys[i].imaMeasured ==> Measured(s.keys[i].pubkey) in s.log)
    && (CurrentKey(s.log).Some? ==>
          && (s.phase.Live? || s.phase.Unregistered? || s.phase.Clearing?)
          && (s.phase.Live? ==> s.cell.storage.Some? && s.cell.storage.value < |s.keys|
                                && CurrentKey(s.log) == Some(s.keys[s.cell.storage.value].pubkey)))
    && forall i: nat, fd: nat :: RepliedTo(s.log, i, fd) ==>
         fd < s.nextFile && (fd in s.files ==> NoUnloadBetween(s.log, i, |s.log|))
  }

  ghost predicate Inv(s: State) {
    CellSound(s) && CallsSound(s) && KeysSound(s) && LogSound(s.log)
  }

  /** What the module needs to know of the cell: a set word comes with a stored value, and
      references exist only while the word is set. */
  lemma CellFacts(c: S.State)
    requires S.Reachable(c) && c.alive
    ensures c.init == 2 ==> c.storage.Some? && c.storage.value in c.given
    ensures forall t :: t in c.threads && c.threads[t].Holding? ==> c.init == 2
    ensures forall t :: t in c.threads && S.Owns(c.threads[t]) ==> c.init == 1
  {
    S.ReachableInv(c);
    forall t | t in c.threads ensures S.ThreadSound(c, t) {}
  }

  /** A call in flight means the module is live and the cell holds one of its keys. */
  lemma CallsNeedLiveModule(s: State, c: nat)
    requires Inv(s) && c in s.calls
    ensures s.phase.Live? && s.cell.storage.Some? && s.cell.storage.value < |s.keys|
  {
    CellFacts(s.cell);
    assert s.calls[c].fd in s.files && s.cell.threads[c + 1].Holding?;
  }

  /** The cell never stands in the module's way: in particular, when the module comes to clear
      the cell, no reference and no other access exists, which is what clear demands. */
  lemma CellContractIsMet(s: State, a: Action)
    requires Inv(s) && Wants(s, a)
    ensures CellAllows(s, a)
  {
    if a.FinishCall? { CallsNeedLiveModule(s, a.call); }
    if a.StartClear? {
      assert s.calls == map[];
      assert s.cell.threads == map[];
    }
    if a.BeginCall? {
      CellFacts(s.cell);
      assert !s.phase.Clearing?;
    }
  }

  lemma CellStepReachable(s: State, a: Action)
    requires Inv(s) && Enabled(s, a)
    ensures S.Reachable(CellAfter(s, a))
  {
    if CellStep(s, a).Some? { S.StepReachable(s.cell, CellStep(s, a).value); }
  }

  lemma LogExtends(log: seq<Event>, e: Event)
    requires LogSound(log) && EventSound(log + [e], |log|)
    ensures LogSound(log + [e])
  {
    var log' := log + [e];
    forall i: nat | i < |log'| ensures EventSound(log', i) {
      if i < |log| {
        assert EventSound(log, i) && log'[..i] == log[..i];
        assert forall h: nat, fd: nat :: h < i && RepliedTo(log', h, fd) ==> RepliedTo(log, h, fd);
      }
    }
  }

  lemma CurrentKeyExtends(log: seq<Event>, e: Event)
    ensures CurrentKey(log + [e]) == if e.ModuleUnloaded? then None
                                     else if IsReply(e) then Some(e.pubkey) else CurrentKey(log)
  {
    assert (log + [e])[..|log|] == log;
  }

  /** Events other than replies and unloading leave the record of replies as it is. */
  lemma QuietEvent(s: State, e: Event)
    requires KeysSound(s) && LogSound(s.log) && (e.Measured? || e.Refused?)
    ensures KeysSound(s.(log := s.log + [e])) && LogSound(s.log + [e])
  {
    CurrentKeyExtends(s.log, e);
    LogExtends(s.log, e);
    assert forall i: nat, fd: nat :: RepliedTo(s.log + [e], i, fd) ==> RepliedTo(s.log, i, fd);
  }

  lemma GenerateKeepsInv(s: State, key: KeyPair)
    requires Inv(s) && Enabled(s, Generate(key))
    ensures Inv(Apply(s, Generate(key)))
  {
    if key.imaMeasured {
      QuietEvent(s, Measured(key.pubkey));
      assert Measured(key.pubkey) in s.log + [Measured(key.pubkey)];
    }
  }

  lemma RegisterKeepsInv(s: State, a: Action)
    requires Inv(s) && Enabled(s, a) && (a.FailToRegister? || a.Register?)
    ensures Inv(Apply(s, a))
  {
  }

  lemma StartPopulateKeepsInv(s: State)
    requires Inv(s) && Enabled(s, StartPopulate)
    ensures Inv(Apply(s, StartPopulate))
  {
    CellStepReachable(s, StartPopulate);
  }

  /** Populate always finds the cell empty, so loading is never refused as busy. */
  lemma PopulateStepKeepsInv(s: State)
    requires Inv(s) && Enabled(s, PopulateStep)
    ensures Inv(Apply(s, PopulateStep))
  {
    CellStepReachable(s, PopulateStep);
  }

  lemma FileKeepsInv(s: State, a: Action)
    requires Inv(s) && Enabled(s, a) && (a.OpenFile? || a.CloseFile?)
    ensures Inv(Apply(s, a))
  {
  }

  /** The key is published: the call gets its reference. */
  lemma GrantedCallKeepsInv(s: State, fd: nat, sign: bool)
    requires Inv(s) && Enabled(s, BeginCall(fd, sign)) && s.cell.init == 2
    ensures Inv(Apply(s, BeginCall(fd, sign)))
  {
    hide S.Reachable, LogSound, CurrentKey, RepliedTo;
    CellStepReachable(s, BeginCall(fd, sign));
  }

  /** No key is published yet: the call fails. */
  lemma RefusedCallKeepsInv(s: State, fd: nat, sign: bool)
    requires Inv(s) && Enabled(s, BeginCall(fd, sign)) && s.cell.init != 2
    ensures Inv(Apply(s, BeginCall(fd, sign)))
  {
    hide S.Reachable, LogSound, CurrentKey, RepliedTo;
    QuietEvent(s, Refused(fd));
    assert CellAfter(s, BeginCall(fd, sign)) == s.cell;
  }

  /** A reply carries the key the cell holds, and that is the key of this load. */
  lemma ReplyIsSound(s: State, c: nat, outcome: Outcome)
    requires Inv(s) && Enabled(s, FinishCall(c, outcome))
    ensures EventSound(Apply(s, FinishCall(c, outcome)).log, |s.log|)
  {
    CallsNeedLiveModule(s, c);
    var log' := Apply(s, FinishCall(c, outcome)).log;
    assert log'[..|s.log|] == s.log;
    forall h: nat | h < |s.log| && RepliedTo(log', h, s.calls[c].fd) ensures NoUnloadBetween(log', h, |s.log|) {
      assert RepliedTo(s.log, h, s.calls[c].fd);
      assert NoUnloadBetween(s.log, h, |s.log|);
    }
  }

  lemma ReplyKeepsKeys(s: State, c: nat, outcome: Outcome)
    requires Inv(s) && Enabled(s, FinishCall(c, outcome))
    ensures KeysSound(Apply(s, FinishCall(c, outcome)))
  {
    var s' := Apply(s, FinishCall(c, outcome));
    var e := Reply(s.calls[c], s.keys[s.cell.storage.value], outcome);
    CallsNeedLiveModule(s, c);
    CurrentKeyExtends(s.log, e);
    forall i: nat, fd: nat | RepliedTo(s'.log, i, fd)
      ensures fd < s'.nextFile && (fd in s'.files ==> NoUnloadBetween(s'.log, i, |s'.log|))
    {
      assert i < |s.log| ==> RepliedTo(s.log, i, fd);
    }
  }

  lemma FinishCallKeepsCell(s: State, c: nat, outcome: Outcome)
    requires Inv(s) && Enabled(s, FinishCall(c, outcome))
    ensures CellSound(Apply(s, FinishCall(c, outcome))) && CallsSound(Apply(s, FinishCall(c, outcome)))
  {
    hide S.Reachable;
    CellStepReachable(s, FinishCall(c, outcome));
    S.StepReachable(CellAfter(s, FinishCall(c, outcome)), S.Release(c + 1));
    CallsNeedLiveModule(s, c);
  }

  lemma FinishCallKeepsInv(s: State, c: nat, outcome: Outcome)
    requires Inv(s) && Enabled(s, FinishCall(c, outcome))
    ensures Inv(Apply(s, FinishCall(c, outcome)))
  {
    hide S.Reachable;
    FinishCallKeepsCell(s, c, outcome);
    ReplyIsSound(s, c, outcome);
    ReplyKeepsKeys(s, c, outcome);
    LogExtends(s.log, Reply(s.calls[c], s.keys[s.cell.storage.value], outcome));
  }

  lemma UnregisterKeepsInv(s: State, a: Action)
    requires Inv(s) && Enabled(s, a) && (a.Unregister? || a.StartClear?)
    ensures Inv(Apply(s, a))
  {
    CellStepReachable(s, a);
  }

  lemma ClearStepKeepsInv(s: State)
    requires Inv(s) && Enabled(s, ClearStep)
    ensures Inv(Apply(s, ClearStep))
  {
    hide S.Reachable;
    CellStepReachable(s, ClearStep);
    CurrentKeyExtends(s.log, ModuleUnloaded);
    LogExtends(s.log, ModuleUnloaded);
    assert forall i: nat, fd: nat :: RepliedTo(s.log + [ModuleUnloaded], i, fd) ==> RepliedTo(s.log, i, fd);
  }

  /** Every step of every cycle keeps the invariant. */
  lemma StepKeepsInv(s: State, a: Action)
    requires Inv(s) && Enabled(s, a)
    ensures Inv(Apply(s, a))
  {
    match a
    case Generate(key) => GenerateKeepsInv(s, key);
    case FailToRegister => RegisterKeepsInv(s, a);
    case Register => RegisterKeepsInv(s, a);
    case StartPopulate => StartPopulateKeepsInv(s);
    case PopulateStep => PopulateStepKeepsInv(s);
    case OpenFile => FileKeepsInv(s, a);
    case CloseFile(_) => FileKeepsInv(s, a);
    case BeginCall(fd, sign) =>
      if s.cell.init == 2 { GrantedCallKeepsInv(s, fd, sign); } else { RefusedCallKeepsInv(s, fd, sign); }
    case FinishCall(c, outcome) => FinishCallKeepsInv(s, c, outcome);
    case Unregister => UnregisterKeepsInv(s, a);
    case StartClear => UnregisterKeepsInv(s, a);
    case ClearStep => ClearStepKeepsInv(s);
  }

  lemma {:induction false} RunKeepsInv(actions: seq<Action>, s: State)
    requires Run(actions, s)
    ensures Inv(s)
  {
    if actions == [] {
      assert S.Run([], S.Initial());
    } else {
      var last := |actions| - 1;
      var before :|
        Run(actions[..last], before) && Enabled(before, actions[last]) && s == Apply(before, actions[last]);
      RunKeepsInv(actions[..last], before);
      StepKeepsInv(before, actions[last]);
    }
  }

  lemma ReachableInv(s: State)
    requires Reachable(s)
    ensures Inv(s)
  {
    var actions :| Run(actions, s);
    RunKeepsInv(actions, s);
  }

  // ----- What every run guarantees -----

  /** No cell rule ever blocks the module; clear's safety contract in particular is always met. */
  lemma CellRulesNeverBlock(s: State, a: Action)
    requires Reachable(s)
    ensures Wants(s, a) ==> Enabled(s, a)
  {
    ReachableInv(s);
    if Wants(s, a) { CellContractIsMet(s, a); }
  }

  /** A signature over the caller's digest and data that verifies under the point its key encodes. */
  ghost predicate VerifiesUnder(platform: Platform, e: Event, point: nat)
    requires e.SignReply?
  {
    && platform.curve.order > 0
    && e.reply.pubkey == e.pubkey && IsCompressedPoint(platform.curve, point, e.pubkey)
    && e.reply.hash == platform.sha256(e.digest + e.reply.userData)
    && Accepts(platform.curve, point, BigEndian(e.reply.hash), BigEndian(e.reply.sigR), BigEndian(e.reply.sigS))
  }

  ghost predicate SignaturesSound(s: State) {
    && (forall i :: 0 <= i < |s.keys| ==> ValidKeyPair(s.platform.curve, s.keys[i]))
    && (forall e :: e in s.log && e.SignReply? ==> exists point :: VerifiesUnder(s.platform, e, point))
    && (forall e :: e in s.log && e.Measured? ==> HasMeasuredKey(s, e.pubkey))
  }

  /** A key pair with these public bytes was generated and IMA measured it. */
  ghost predicate HasMeasuredKey(s: State, pubkey: seq<byte>) {
    exists i :: 0 <= i < |s.keys| && s.keys[i].imaMeasured && s.keys[i].pubkey == pubkey
  }

  lemma ReplyVerifies(s: State, c: nat, outcome: Outcome)
    requires SignaturesSound(s) && Enabled(s, FinishCall(c, outcome)) && outcome.Signed?
    ensures exists point :: VerifiesUnder(s.platform, Reply(s.calls[c], s.keys[s.cell.storage.value], outcome), point)
  {
    var key := s.keys[s.cell.storage.value];
    assert StoredKey(s) == Some(key);
    assert VerifiesUnder(s.platform, Reply(s.calls[c], key, outcome), Vli.Value(key.private));
  }

  lemma StepKeepsSignatures(s: State, a: Action)
    requires SignaturesSound(s) && Enabled(s, a)
    ensures SignaturesSound(Apply(s, a))
  {
    if a.FinishCall? && a.outcome.Signed? { ReplyVerifies(s, a.call, a.outcome); }
    assert Apply(s, a).platform == s.platform;
    MeasuredKeysStay(s, a);
  }

  lemma MeasuredKeysStay(s: State, a: Action)
    requires Enabled(s, a)
    ensures forall pubkey :: HasMeasuredKey(s, pubkey) ==> HasMeasuredKey(Apply(s, a), pubkey)
    ensures a.Generate? && a.key.imaMeasured ==> HasMeasuredKey(Apply(s, a), a.key.pubkey)
  {
    var s' := Apply(s, a);
    forall pubkey | HasMeasuredKey(s, pubkey) ensures HasMeasuredKey(s', pubkey) {
      var i :| 0 <= i < |s.keys| && s.keys[i].imaMeasured && s.keys[i].pubkey == pubkey;
      assert s'.keys[i] == s.keys[i];
    }
    if a.Generate? && a.key.imaMeasured {
      assert s'.keys[|s.keys|] == a.key;
    }
  }

  lemma {:induction false} RunKeepsSignatures(actions: seq<Action>, s: State)
    requires Run(actions, s)
    ensures SignaturesSound(s)
  {
    if actions != [] {
      var last := |actions| - 1;
      var before :|
        Run(actions[..last], before) && Enabled(before, actions[last]) && s == Apply(before, actions[last]);
      RunKeepsSignatures(actions[..last], before);
      StepKeepsSignatures(before, actions[last]);
    }
  }

  /** Every signature handed out, over a caller's digest and data, verifies under the point that its
      33-byte public key encodes, and follows a successful IMA measurement of exactly those bytes. */
  lemma SignaturesFollowMeasurement(s: State, i: nat)
    requires Reachable(s) && i < |s.log| && s.log[i].SignReply?
    ensures Measured(s.log[i].reply.pubkey) in s.log[..i]
    ensures exists point :: VerifiesUnder(s.platform, s.log[i], point)
  {
    ReachableInv(s);
    assert EventSound(s.log, i);
    var actions :| Run(actions, s);
    RunKeepsSignatures(actions, s);
  }

  /** Loading never finds the cell busy. */
  lemma LoadingIsNeverRefused(s: State)
    requires Reachable(s)
    ensures LoadRefused !in s.log
  {
    ReachableInv(s);
    forall i: nat | i < |s.log| ensures !s.log[i].LoadRefused? { assert EventSound(s.log, i); }
  }

  /** A measurement is recorded only for a generated key that IMA did measure. */
  lemma MeasurementsAreReal(s: State, pubkey: seq<byte>)
    requires Reachable(s) && Measured(pubkey) in s.log
    ensures HasMeasuredKey(s, pubkey)
  {
    var actions :| Run(actions, s);
    RunKeepsSignatures(actions, s);
  }

  /** A signature answers only the signing ioctl, and a public key alone only the other one. */
  lemma ReplyMatchesCall(s: State, c: nat, outcome: Outcome)
    requires Reachable(s) && Enabled(s, FinishCall(c, outcome))
    ensures var log := Apply(s, FinishCall(c, outcome)).log;
            && |log| == |s.log| + 1 && log[..|s.log|] == s.log
            && (log[|s.log|].SignReply? ==> s.calls[c].sign)
            && (log[|s.log|].PubkeyReply? ==> !s.calls[c].sign)
            && (outcome.Failed? ==> log[|s.log|] == Refused(s.calls[c].fd))
            && (log[|s.log|].SignReply? || log[|s.log|].PubkeyReply? ==> log[|s.log|].fd == s.calls[c].fd)
  {
    ReachableInv(s);
    CallsNeedLiveModule(s, c);
  }

  lemma {:induction false} KeyStays(log: seq<Event>, i: nat, j: nat)
    requires LogSound(log) && i < j <= |log| && IsReply(log[i]) && NoUnloadBetween(log, i, j)
    ensures CurrentKey(log[..j]) == Some(log[i].pubkey)
    decreases j
  {
    assert log[..j][..j - 1] == log[..j - 1];
    if i < j - 1 {
      KeyStays(log, i, j - 1);
      assert EventSound(log, j - 1);
    }
  }

  /** All successful replies within one load carry the same key. */
  lemma OneKeyPerLoad(s: State, i: nat, j: nat)
    requires Reachable(s) && i < j < |s.log| && IsReply(s.log[i]) && IsReply(s.log[j])
    requires NoUnloadBetween(s.log, i, j)
    ensures s.log[i].pubkey == s.log[j].pubkey
  {
    ReachableInv(s);
    KeyStays(s.log, i, j);
    assert EventSound(s.log, j);
  }

  /** One open file never sees two keys, so the attester's check that the key did not change
      between its two ioctls cannot fire. */
  lemma OneKeyPerFile(s: State, i: nat, j: nat)
    requires Reachable(s) && i < j < |s.log| && IsReply(s.log[i]) && IsReply(s.log[j])
    requires s.log[i].fd == s.log[j].fd
    ensures s.log[i].pubkey == s.log[j].pubkey
  {
    ReachableInv(s);
    assert EventSound(s.log, j);
    assert RepliedTo(s.log, i, s.log[j].fd);
    OneKeyPerLoad(s, i, j);
  }
}
