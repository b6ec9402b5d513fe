/** Runs of the module that do happen: from any unloaded state it can be loaded with any key,
    serve it any number of times, and be unloaded with nothing left behind. */
module ModuleRuns {
  import opened Bytes
  import opened Outcomes
  import opened SignIoctl
  import opened ModuleLifecycle
  import S = SetOnce

  lemma Step(s: State, a: Action)
    requires Reachable(s) && Enabled(s, a)
    ensures Reachable(Apply(s, a))
  {
    hide Enabled, Apply;
    var actions :| Run(actions, s);
    assert (actions + [a])[..|actions|] == actions;
    assert Run(actions + [a], Apply(s, a));
  }

  /** Nothing is loaded and the cell is empty and idle. */
  ghost predicate Idle(s: State) {
    && Reachable(s) && s.phase.Unloaded? && s.files == {} && s.calls == map[]
    && s.cell.alive && s.cell.threads == map[] && s.cell.init == 0 && s.cell.storage.None?
    && forall v :: v in s.cell.given ==> v < |s.keys|
  }

  /** Unloading leaves nothing behind, whatever happened before. */
  lemma UnloadedIsIdle(s: State)
    requires Reachable(s) && s.phase.Unloaded?
    ensures Idle(s)
    ensures forall v :: v in s.cell.given ==> S.Dropped(v) in s.cell.log
  {
    ReachableInv(s);
    S.ReachableInv(s.cell);
    assert s.calls == map[];
    assert s.cell.threads == map[];
    forall v | v in s.cell.given ensures S.Dropped(v) in s.cell.log { S.NothingLeaks(s.cell, v); }
  }

  /** The module serves this key pair and is idle. */
  ghost predicate Serving(s: State, key: KeyPair) {
    && Reachable(s) && s.phase.Live? && s.files == {} && s.calls == map[]
    && s.cell.alive && s.cell.threads == map[] && s.cell.init == 2
    && s.cell.storage.Some? && s.cell.storage.value < |s.keys| && s.keys[s.cell.storage.value] == key
  }

  ghost predicate InitialisesWith(s: State, key: KeyPair) {
    && Reachable(s) && s.phase.Registered? && s.phase.key < |s.keys| && s.keys[s.phase.key] == key
    && s.files == {} && s.calls == map[]
    && s.cell.alive && s.cell.threads == map[] && s.cell.init == 0 && s.cell.storage.None?
    && s.phase.key !in s.cell.given
  }

  lemma RegistrationHappens(s: State, key: KeyPair)
    requires Idle(s) && key.imaMeasured && ValidKeyPair(s.platform.curve, key)
    ensures exists s' :: InitialisesWith(s', key) && s'.log == s.log + [Measured(key.pubkey)] && s'.platform == s.platform
  {
    hide Reachable;
    Step(s, Generate(key));
    var s1 := Apply(s, Generate(key));
    Step(s1, Register);
    var s2 := Apply(s1, Register);
    assert InitialisesWith(s2, key);
  }

  lemma PopulatingHappens(s: State, key: KeyPair)
    requires InitialisesWith(s, key)
    ensures exists s' :: Serving(s', key) && s'.log == s.log && s'.platform == s.platform
  {
    hide Reachable;
    Step(s, StartPopulate);
    var s1 := Apply(s, StartPopulate);
    Step(s1, PopulateStep);
    var s2 := Apply(s1, PopulateStep);
    assert s2.cell.threads[LOADER] == S.Writing(s.phase.key);
    Step(s2, PopulateStep);
    var s3 := Apply(s2, PopulateStep);
    assert s3.cell.threads[LOADER] == S.Publishing && s3.cell.storage == Some(s.phase.key);
    Step(s3, PopulateStep);
    var s4 := Apply(s3, PopulateStep);
    assert s4.cell.threads == map[];
    assert Serving(s4, key) && s4.log == s.log;
  }

  lemma LoadHappens(s: State, key: KeyPair)
    requires Idle(s) && key.imaMeasured && ValidKeyPair(s.platform.curve, key)
    ensures exists s' :: Serving(s', key) && s'.log == s.log + [Measured(key.pubkey)] && s'.platform == s.platform
  {
    RegistrationHappens(s, key);
    var s1 :| InitialisesWith(s1, key) && s1.log == s.log + [Measured(key.pubkey)] && s1.platform == s.platform;
    PopulatingHappens(s1, key);
  }

  /** The module is live on this key, whatever files are open and whatever calls are under way. */
  ghost predicate Live(s: State, key: KeyPair) {
    Reachable(s) && s.phase.Live? && StoredKey(s) == Some(key)
  }

  /** A call through some open file holds the key. */
  ghost predicate CallRuns(s: State, key: KeyPair, c: nat, call: Call) {
    Live(s, key) && c in s.calls && s.calls[c] == call
  }

  /** While the module is live any open file can start a call, whatever others do. */
  lemma CallStarts(s: State, key: KeyPair, fd: nat, sign: bool)
    requires Live(s, key) && fd in s.files
    ensures exists s' ::
              && CallRuns(s', key, s.nextCall, Call(fd, sign)) && s'.log == s.log && s'.files == s.files
              && s'.calls == s.calls[s.nextCall := Call(fd, sign)] && s.nextCall !in s.calls && s'.platform == s.platform
  {
    hide Reachable;
    ReachableInv(s);
    CellRulesNeverBlock(s, BeginCall(fd, sign));
    Step(s, BeginCall(fd, sign));
    assert CallRuns(Apply(s, BeginCall(fd, sign)), key, s.nextCall, Call(fd, sign));
  }

  lemma CallEnds(s: State, key: KeyPair, c: nat, call: Call, outcome: Outcome)
    requires CallRuns(s, key, c, call) && MayEnd(s.platform, call.sign, key, outcome)
    ensures exists s' ::
              && Live(s', key) && s'.log == s.log + [Reply(call, key, outcome)] && s'.files == s.files
              && s'.calls == s.calls - {c} && s'.platform == s.platform
  {
    hide Reachable, MayEnd;
    CellRulesNeverBlock(s, FinishCall(c, outcome));
    Step(s, FinishCall(c, outcome));
    assert Live(Apply(s, FinishCall(c, outcome)), key);
  }

  /** In every live state any open file can be served, with as many other files open and other calls
      under way as there are; they stay as they are. */
  lemma ServiceHappens(s: State, key: KeyPair, fd: nat, sign: bool, outcome: Outcome)
    requires Live(s, key) && fd in s.files && MayEnd(s.platform, sign, key, outcome)
    ensures exists s' ::
              && Live(s', key) && s'.log == s.log + [Reply(Call(fd, sign), key, outcome)]
              && s'.files == s.files && s'.calls == s.calls && s'.platform == s.platform
  {
    hide Live, MayEnd;
    CallStarts(s, key, fd, sign);
    var s1 :| CallRuns(s1, key, s.nextCall, Call(fd, sign)) && s1.log == s.log && s1.files == s.files
              && s1.calls == s.calls[s.nextCall := Call(fd, sign)] && s1.platform == s.platform;
    CallEnds(s1, key, s.nextCall, Call(fd, sign), outcome);
    assert s1.calls - {s.nextCall} == s.calls;
  }

  lemma FileOpens(s: State, key: KeyPair)
    requires Live(s, key)
    ensures exists s' :: Live(s', key) && s'.log == s.log && s'.files == s.files + {s.nextFile}
                         && s'.calls == s.calls && s'.platform == s.platform
  {
    hide Reachable;
    Step(s, OpenFile);
    assert Live(Apply(s, OpenFile), key);
  }

  lemma FilesClose(s: State, key: KeyPair, fd: nat)
    requires Live(s, key) && s.files == {fd} && s.calls == map[]
    ensures exists s' :: Serving(s', key) && s'.log == s.log && s'.platform == s.platform
  {
    hide Reachable;
    Step(s, CloseFile(fd));
    var s' := Apply(s, CloseFile(fd));
    assert s'.files == {};
    LiveIsServing(s', key);
  }

  lemma LiveIsServing(s: State, key: KeyPair)
    requires Live(s, key) && s.files == {} && s.calls == map[]
    ensures Serving(s, key)
  {
    ReachableInv(s);
    assert s.cell.threads == map[];
  }

  /** A signature is handed out through a file opened and closed for it. */
  lemma SignatureHappens(s: State, key: KeyPair, outcome: Outcome)
    requires Serving(s, key) && outcome.Signed? && MayEnd(s.platform, true, key, outcome)
    ensures exists s', fd ::
              && Serving(s', key) && s'.platform == s.platform
              && s'.log == s.log + [SignReply(fd, key.pubkey, outcome.digest, outcome.reply)]
  {
    hide Reachable, MayEnd;
    var fd := s.nextFile;
    FileOpens(s, key);
    var s1 :| Live(s1, key) && s1.log == s.log && s1.files == s.files + {fd} && s1.calls == s.calls
              && s1.platform == s.platform;
    ServiceHappens(s1, key, fd, true, outcome);
    var s2 :| Live(s2, key) && s2.log == s1.log + [Reply(Call(fd, true), key, outcome)] && s2.files == s1.files
              && s2.calls == s1.calls && s2.platform == s1.platform;
    FilesClose(s2, key, fd);
  }

  /** The device is visible before the key is: a call made in between is refused. */
  lemma EarlyCallIsRefused(s: State, key: KeyPair, sign: bool)
    requires InitialisesWith(s, key)
    ensures exists s', fd :: Reachable(s') && s'.phase == s.phase && s'.log == s.log + [Refused(fd)]
  {
    hide Reachable;
    var fd := s.nextFile;
    Step(s, OpenFile);
    var s1 := Apply(s, OpenFile);
    Step(s1, BeginCall(fd, sign));
    var s2 := Apply(s1, BeginCall(fd, sign));
    assert s2.log == s.log + [Refused(fd)];
  }

  /** The loader is about to clear the cell. */
  ghost predicate AboutToClear(s: State) {
    && Reachable(s) && s.phase.Clearing? && s.cell.alive && s.cell.init == 2 && s.cell.storage.Some?
    && s.cell.threads == map[LOADER := S.ClearExchanging]
  }

  lemma ClearBegins(s: State, key: KeyPair)
    requires Serving(s, key)
    ensures exists s' :: AboutToClear(s') && s'.log == s.log && s'.platform == s.platform
  {
    hide Reachable;
    Step(s, Unregister);
    var s1 := Apply(s, Unregister);
    Step(s1, StartClear);
    var s2 := Apply(s1, StartClear);
    assert AboutToClear(s2) && s2.log == s.log;
  }

  lemma ClearHappens(s: State)
    requires AboutToClear(s)
    ensures exists s' :: Reachable(s') && s'.phase.Unloaded? && s'.log == s.log + [ModuleUnloaded]
                   && s'.platform == s.platform
  {
    hide Reachable;
    Step(s, ClearStep);
    var s1 := Apply(s, ClearStep);
    assert s1.cell.threads[LOADER] == S.ClearDropping;
    Step(s1, ClearStep);
    var s2 := Apply(s1, ClearStep);
    assert s2.cell.threads[LOADER] == S.ClearResetting;
    Step(s2, ClearStep);
    var s3 := Apply(s2, ClearStep);
    assert s3.log == s.log + [ModuleUnloaded];
  }

  lemma UnloadHappens(s: State, key: KeyPair)
    requires Serving(s, key)
    ensures exists s' :: Reachable(s') && s'.phase.Unloaded? && s'.log == s.log + [ModuleUnloaded]
                   && s'.platform == s.platform
  {
    ClearBegins(s, key);
    var s1 :| AboutToClear(s1) && s1.log == s.log && s1.platform == s.platform;
    ClearHappens(s1);
  }

  /** The public keys signed under, in order. */
  function SigningKeys(log: seq<Event>): seq<seq<byte>> {
    if log == [] then []
    else
      var e, before := log[|log| - 1], SigningKeys(log[..|log| - 1]);
      if e.SignReply? then before + [e.pubkey] else before
  }

  lemma SigningKeysExtend(log: seq<Event>, e: Event)
    ensures SigningKeys(log + [e]) == SigningKeys(log) + if e.SignReply? then [e.pubkey] else []
  {
    assert (log + [e])[..|log|] == log;
  }

  /** One load: its key pair, and a signature to be made under it. */
  datatype Load = Load(key: KeyPair, service: Outcome)

  ghost predicate CanServe(platform: Platform, load: Load) {
    && ValidKeyPair(platform.curve, load.key) && load.key.imaMeasured
    && load.service.Signed? && MayEnd(platform, true, load.key, load.service)
  }

  lemma CycleHappens(s: State, load: Load)
    requires Reachable(s) && s.phase.Unloaded? && CanServe(s.platform, load)
    ensures exists s' ::
              && Reachable(s') && s'.phase.Unloaded? && s'.platform == s.platform
              && SigningKeys(s'.log) == SigningKeys(s.log) + [load.key.pubkey]
  {
    hide Reachable;
    var key, service := load.key, load.service;
    UnloadedIsIdle(s);
    LoadHappens(s, key);
    var s1 :| Serving(s1, key) && s1.log == s.log + [Measured(key.pubkey)] && s1.platform == s.platform;
    SignatureHappens(s1, key, service);
    var s2, fd :| Serving(s2, key) && s2.platform == s1.platform
                  && s2.log == s1.log + [SignReply(fd, key.pubkey, service.digest, service.reply)];
    UnloadHappens(s2, key);
    var s3 :| Reachable(s3) && s3.phase.Unloaded? && s3.log == s2.log + [ModuleUnloaded] && s3.platform == s2.platform;
    SigningKeysExtend(s.log, Measured(key.pubkey));
    SigningKeysExtend(s1.log, SignReply(fd, key.pubkey, service.digest, service.reply));
    SigningKeysExtend(s2.log, ModuleUnloaded);
  }

  function PublicKeys(loads: seq<Load>): seq<seq<byte>> {
    if loads == [] then [] else PublicKeys(loads[..|loads| - 1]) + [loads[|loads| - 1].key.pubkey]
  }

  /** For any sequence of measured key pairs, each with a signature it can make, some run of load,
      serve and unload cycles signs under exactly these keys, one after the other. */
  lemma {:induction false} CyclesServeAnyKeys(platform: Platform, loads: seq<Load>)
    requires forall i :: 0 <= i < |loads| ==> CanServe(platform, loads[i])
    ensures exists s ::
              && Reachable(s) && s.phase.Unloaded? && s.platform == platform
              && SigningKeys(s.log) == PublicKeys(loads)
  {
    if loads == [] {
      assert Run([], Initial(platform));
      assert SigningKeys(Initial(platform).log) == [];
    } else {
      var last := |loads| - 1;
      CyclesServeAnyKeys(platform, loads[..last]);
      var s :| Reachable(s) && s.phase.Unloaded? && s.platform == platform
               && SigningKeys(s.log) == PublicKeys(loads[..last]);
      CycleHappens(s, loads[last]);
    }
  }
}
