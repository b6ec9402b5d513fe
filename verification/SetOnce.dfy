/** The set-once cell: an atomic state word, 0 empty, 1 busy, 2 set, beside uninitialised
    storage. Threads interleave at every atomic operation; values are known by identity,
    since a value can be passed in only once. */
module SetOnce {
  import opened Outcomes

  type Thread = nat
  type Token = nat

  /** Where a thread inside an operation stands. */
  datatype Pc =
    | Exchanging(value: Token)      // populate: about to compare-exchange 0 to 1
    | Writing(value: Token)         // populate: won, about to write the storage
    | Publishing                    // populate: written, about to store 2
    | Discarding(value: Token)      // populate: lost, about to drop its argument
    | Holding                       // has a reference from as_ref
    | ClearExchanging               // clear: about to compare-exchange 2 to 1
    | ClearDropping                 // clear: about to drop the stored value
    | ClearResetting                // clear: about to store 0

  datatype Event =
    | Won(value: Token)
    | Read(value: Token)
    | Dropped(value: Token)
    | Cleared
    | UninitialisedAccess
    | Overwritten(value: Token)

  datatype State = State(
    init: nat, storage: Option<Token>, threads: map<Thread, Pc>, given: set<Token>, alive: bool, log: seq<Event>)

  function Initial(): State {
    State(0, None, map[], {}, true, [])
  }

  datatype Action =
    | BeginPopulate(thread: Thread, value: Token)
    | CompareExchange(thread: Thread)
    | Write(thread: Thread)
    | Publish(thread: Thread)
    | Discard(thread: Thread)
    | AsRef(thread: Thread)
    | Deref(thread: Thread)
    | Release(thread: Thread)
    | BeginClear(thread: Thread)
    | ClearExchange(thread: Thread)
    | ClearDrop(thread: Thread)
    | ClearReset(thread: Thread)
    | DropCell

  predicate InClear(pc: Pc) {
    pc.ClearExchanging? || pc.ClearDropping? || pc.ClearResetting?
  }

  /** A new operation may start: the thread is idle, and no clear is under way, as clear's
      safety contract demands of its caller. */
  predicate MayStart(s: State, t: Thread) {
    s.alive && t !in s.threads && forall u :: u in s.threads ==> !InClear(s.threads[u])
  }

  predicate Enabled(s: State, a: Action) {
    match a
    case BeginPopulate(t, v) => MayStart(s, t) && v !in s.given
    case CompareExchange(t) => t in s.threads && s.threads[t].Exchanging?
    case Write(t) => t in s.threads && s.threads[t].Writing?
    case Publish(t) => t in s.threads && s.threads[t].Publishing?
    case Discard(t) => t in s.threads && s.threads[t].Discarding?
    case AsRef(t) => MayStart(s, t)
    case Deref(t) => t in s.threads && s.threads[t].Holding?
    case Release(t) => t in s.threads && s.threads[t].Holding?
    case BeginClear(t) => s.alive && s.threads == map[]
    case ClearExchange(t) => t in s.threads && s.threads[t].ClearExchanging?
    case ClearDrop(t) => t in s.threads && s.threads[t].ClearDropping?
    case ClearReset(t) => t in s.threads && s.threads[t].ClearResetting?
    case DropCell => s.alive && s.threads == map[]
  }

  /** Drop whatever the storage holds. */
  function DropStorage(s: State): State {
    match s.storage
    case Some(v) => s.(storage := None, log := s.log + [Dropped(v)])
    case None => s.(log := s.log + [UninitialisedAccess])
  }

  function Apply(s: State, a: Action): State
    requires Enabled(s, a)
  {
    match a
    case BeginPopulate(t, v) => s.(threads := s.threads[t := Exchanging(v)], given := s.given + {v})
    case CompareExchange(t) =>
      var v := s.threads[t].value;
      if s.init == 0 then s.(init := 1, threads := s.threads[t := Writing(v)], log := s.log + [Won(v)])
      else s.(threads := s.threads[t := Discarding(v)])
    case Write(t) =>
      var v := s.threads[t].value;
      s.(storage := Some(v), threads := s.threads[t := Publishing],
         log := if s.storage.Some? then s.log + [Overwritten(s.storage.value)] else s.log)
    case Publish(t) => s.(init := 2, threads := s.threads - {t})
    case Discard(t) => s.(threads := s.threads - {t}, log := s.log + [Dropped(s.threads[t].value)])
    case AsRef(t) => if s.init == 2 then s.(threads := s.threads[t := Holding]) else s
    case Deref(t) =>
      s.(log := s.log + [if s.storage.Some? then Read(s.storage.value) else UninitialisedAccess])
    case Release(t) => s.(threads := s.threads - {t})
    case BeginClear(t) => s.(threads := s.threads[t := ClearExchanging])
    case ClearExchange(t) =>
      if s.init == 2 then s.(init := 1, threads := s.threads[t := ClearDropping])
      else s.(threads := s.threads - {t})
    case ClearDrop(t) => DropStorage(s).(threads := s.threads[t := ClearResetting])
    case ClearReset(t) => s.(init := 0, threads := s.threads - {t}, log := s.log + [Cleared])
    case DropCell => (if s.init == 2 then DropStorage(s) else s).(alive := false)
  }

  ghost predicate Run(actions: seq<Action>, s: State) {
    if actions == [] then s == Initial()
    else
      var last := |actions| - 1;
      exists before ::
        Run(actions[..last], before) && Enabled(before, actions[last]) && s == Apply(before, actions[last])
  }

  ghost predicate Reachable(s: State) {
    exists actions :: Run(actions, s)
  }

  // ----- Invariant -----

  /** The winner since the cell was last cleared. */
  function LastWin(log: seq<Event>): Option<Token> {
    if log == [] then None
    else match log[|log| - 1]
      case Cleared => None
      case Won(v) => Some(v)
      case _ => LastWin(log[..|log| - 1])
  }

  /** A win needs an empty cell; a read sees the winner. Nothing undefined happens. */
  ghost predicate EventSound(log: seq<Event>, i: nat)
    requires i < |log|
  {
    match log[i]
    case Won(_) => LastWin(log[..i]).None?
    case Read(v) => LastWin(log[..i]) == Some(v)
    case Dropped(v) => Dropped(v) !in log[..i]
    case Cleared => true
    case UninitialisedAccess => false
    case Overwritten(_) => false
  }

  ghost predicate LogSound(log: seq<Event>) {
    forall i {:trigger EventSound(log, i)} :: 0 <= i < |log| ==> EventSound(log, i)
  }

  /** The thread that moved the word to 1 has the storage to itself. */
  predicate Owns(pc: Pc) {
    pc.Writing? || pc.Publishing? || pc.ClearDropping? || pc.ClearResetting?
  }

  /** The value a thread still has to store or drop. */
  predicate Carries(pc: Pc, v: Token) {
    (pc.Exchanging? || pc.Writing? || pc.Discarding?) && pc.value == v
  }

  ghost predicate ThreadSound(s: State, t: Thread)
    requires t in s.threads
  {
    var pc := s.threads[t];
    && (Owns(pc) ==> s.init == 1 && forall u :: u in s.threads && Owns(s.threads[u]) ==> u == t)
    && (pc.Writing? ==> s.storage.None? && LastWin(s.log) == Some(pc.value))
    && (pc.Publishing? || pc.ClearDropping? ==> s.storage.Some?)
    && (pc.ClearResetting? ==> s.storage.None?)
    && (pc.Holding? ==> s.init == 2)
    && (InClear(pc) ==> forall u :: u in s.threads ==> u == t)
  }

  ghost predicate WordSound(s: State) {
    && s.init <= 2
    && (s.init == 0 ==> s.storage.None? && LastWin(s.log).None?)
    && (s.init == 1 ==> exists t :: t in s.threads && Owns(s.threads[t]))
    && (s.init == 2 && s.alive ==> s.storage.Some?)
    && (s.storage.Some? ==> LastWin(s.log) == Some(s.storage.value))
    && (!s.alive ==> s.threads == map[] && s.storage.None?)
  }

  ghost predicate Carried(s: State, v: Token) {
    exists t :: t in s.threads && Carries(s.threads[t], v)
  }

  /** Every value passed in is in exactly one place: with one thread, stored, or dropped. */
  ghost predicate TokensSound(s: State) {
    && (forall v :: v in s.given ==> Carried(s, v) || s.storage == Some(v) || Dropped(v) in s.log)
    && (forall t, v :: t in s.threads && Carries(s.threads[t], v) ==>
          v in s.given && s.storage != Some(v) && Dropped(v) !in s.log)
    && (forall t, u, v :: t in s.threads && u in s.threads && Carries(s.threads[t], v) && Carries(s.threads[u], v) ==>
          t == u)
    && (s.storage.Some? ==> s.storage.value in s.given && Dropped(s.storage.value) !in s.log)
    && (forall v :: Dropped(v) in s.log ==> v in s.given)
  }

  ghost predicate Inv(s: State) {
    LogSound(s.log) && WordSound(s) && (forall t :: t in s.threads ==> ThreadSound(s, t)) && TokensSound(s)
  }

  lemma LogExtends(log: seq<Event>, e: Event)
    requires LogSound(log) && EventSound(log + [e], |log|)
    ensures LogSound(log + [e])
    ensures LastWin(log + [e]) == (match e case Cleared => None case Won(v) => Some(v) case _ => LastWin(log))
  {
    var log' := log + [e];
    assert log'[..|log|] == log;
    forall i | 0 <= i < |log'| ensures EventSound(log', i) {
      if i < |log| {
        assert EventSound(log, i) && log'[..i] == log[..i];
      }
    }
  }

  /** What stays true of the other threads when only thread t moves. */
  lemma OthersKept(s: State, s': State, t: Thread)
    requires forall u :: u in s.threads && u != t ==> u in s'.threads && s'.threads[u] == s.threads[u]
    ensures forall v :: Carried(s, v) ==> Carried(s', v) || (t in s.threads && Carries(s.threads[t], v))
    ensures (exists u :: u in s.threads && Owns(s.threads[u]) && (u != t || (t in s'.threads && Owns(s'.threads[t]))))
        ==> exists u :: u in s'.threads && Owns(s'.threads[u])
  {
    forall v | Carried(s, v) ensures Carried(s', v) || (t in s.threads && Carries(s.threads[t], v)) {
      var u :| u in s.threads && Carries(s.threads[u], v);
    }
  }

  lemma BeginPopulateKeepsInv(s: State, t: Thread, v: Token)
    requires Inv(s) && Enabled(s, BeginPopulate(t, v))
    ensures Inv(Apply(s, BeginPopulate(t, v)))
  {
    var s' := Apply(s, BeginPopulate(t, v));
    OthersKept(s, s', t);
    assert Carries(s'.threads[t], v);
  }

  lemma LosingExchangeKeepsInv(s: State, t: Thread)
    requires Inv(s) && Enabled(s, CompareExchange(t)) && s.init != 0
    ensures Inv(Apply(s, CompareExchange(t)))
  {
    var s' := Apply(s, CompareExchange(t));
    OthersKept(s, s', t);
    assert Carries(s.threads[t], s.threads[t].value) && Carries(s'.threads[t], s.threads[t].value);
  }

  lemma WinningExchangeKeepsInv(s: State, t: Thread)
    requires Inv(s) && Enabled(s, CompareExchange(t)) && s.init == 0
    ensures Inv(Apply(s, CompareExchange(t)))
  {
    var s' := Apply(s, CompareExchange(t));
    var v := s.threads[t].value;
    OthersKept(s, s', t);
    assert Carries(s.threads[t], v) && Carries(s'.threads[t], v) && Owns(s'.threads[t]);
    assert s'.log[..|s.log|] == s.log;
    LogExtends(s.log, Won(v));
  }

  lemma WriteKeepsInv(s: State, t: Thread)
    requires Inv(s) && Enabled(s, Write(t))
    ensures Inv(Apply(s, Write(t)))
  {
    var s' := Apply(s, Write(t));
    assert Carries(s.threads[t], s.threads[t].value);
    OthersKept(s, s', t);
    assert Owns(s.threads[t]) && Owns(s'.threads[t]);
  }

  lemma PublishKeepsInv(s: State, t: Thread)
    requires Inv(s) && Enabled(s, Publish(t))
    ensures Inv(Apply(s, Publish(t)))
  {
    OthersKept(s, Apply(s, Publish(t)), t);
    assert Owns(s.threads[t]);
  }

  lemma DiscardKeepsInv(s: State, t: Thread)
    requires Inv(s) && Enabled(s, Discard(t))
    ensures Inv(Apply(s, Discard(t)))
  {
    var s' := Apply(s, Discard(t));
    var v := s.threads[t].value;
    assert Carries(s.threads[t], v);
    OthersKept(s, s', t);
    assert s'.log[..|s.log|] == s.log;
    LogExtends(s.log, Dropped(v));
  }

  lemma AsRefKeepsInv(s: State, t: Thread)
    requires Inv(s) && Enabled(s, AsRef(t))
    ensures Inv(Apply(s, AsRef(t)))
  {
    OthersKept(s, Apply(s, AsRef(t)), t);
  }

  lemma DerefKeepsInv(s: State, t: Thread)
    requires Inv(s) && Enabled(s, Deref(t))
    ensures Inv(Apply(s, Deref(t)))
  {
    var s' := Apply(s, Deref(t));
    OthersKept(s, s', t);
    assert s'.log[..|s.log|] == s.log;
    LogExtends(s.log, Read(s.storage.value));
  }

  lemma ReleaseKeepsInv(s: State, t: Thread)
    requires Inv(s) && Enabled(s, Release(t))
    ensures Inv(Apply(s, Release(t)))
  {
    OthersKept(s, Apply(s, Release(t)), t);
  }

  lemma BeginClearKeepsInv(s: State, t: Thread)
    requires Inv(s) && Enabled(s, BeginClear(t))
    ensures Inv(Apply(s, BeginClear(t)))
  {
    OthersKept(s, Apply(s, BeginClear(t)), t);
  }

  lemma ClearExchangeKeepsInv(s: State, t: Thread)
    requires Inv(s) && Enabled(s, ClearExchange(t))
    ensures Inv(Apply(s, ClearExchange(t)))
  {
    var s' := Apply(s, ClearExchange(t));
    OthersKept(s, s', t);
    assert s.init == 2 ==> Owns(s'.threads[t]);
  }

  lemma ClearDropKeepsInv(s: State, t: Thread)
    requires Inv(s) && Enabled(s, ClearDrop(t))
    ensures Inv(Apply(s, ClearDrop(t)))
  {
    var s' := Apply(s, ClearDrop(t));
    OthersKept(s, s', t);
    assert Owns(s.threads[t]) && Owns(s'.threads[t]);
    assert s'.log[..|s.log|] == s.log;
    LogExtends(s.log, Dropped(s.storage.value));
  }

  lemma ClearResetKeepsInv(s: State, t: Thread)
    requires Inv(s) && Enabled(s, ClearReset(t))
    ensures Inv(Apply(s, ClearReset(t)))
  {
    var s' := Apply(s, ClearReset(t));
    OthersKept(s, s', t);
    assert Owns(s.threads[t]);
    LogExtends(s.log, Cleared);
  }

  lemma DropCellKeepsInv(s: State)
    requires Inv(s) && Enabled(s, DropCell)
    ensures Inv(Apply(s, DropCell))
  {
    var s' := Apply(s, DropCell);
    if s.init == 2 {
      assert s'.log[..|s.log|] == s.log;
      LogExtends(s.log, Dropped(s.storage.value));
    }
  }

  /** Every atomic step of every operation keeps the invariant. */
  lemma StepKeepsInv(s: State, a: Action)
    requires Inv(s) && Enabled(s, a)
    ensures Inv(Apply(s, a))
  {
    match a
    case BeginPopulate(t, v) => BeginPopulateKeepsInv(s, t, v);
    case CompareExchange(t) =>
      if s.init == 0 { WinningExchangeKeepsInv(s, t); } else { LosingExchangeKeepsInv(s, t); }
    case Write(t) => WriteKeepsInv(s, t);
    case Publish(t) => PublishKeepsInv(s, t);
    case Discard(t) => DiscardKeepsInv(s, t);
    case AsRef(t) => AsRefKeepsInv(s, t);
    case Deref(t) => DerefKeepsInv(s, t);
    case Release(t) => ReleaseKeepsInv(s, t);
    case BeginClear(t) => BeginClearKeepsInv(s, t);
    case ClearExchange(t) => ClearExchangeKeepsInv(s, t);
    case ClearDrop(t) => ClearDropKeepsInv(s, t);
    case ClearReset(t) => ClearResetKeepsInv(s, t);
    case DropCell => DropCellKeepsInv(s);
  }

  lemma {:induction false} RunKeepsInv(actions: seq<Action>, s: State)
    requires Run(actions, s)
    ensures Inv(s)
  {
    if actions != [] {
      var last := |actions| - 1;
      var before :|
        Run(actions[..last], before) && Enabled(before, actions[last]) && s == Apply(before, actions[last]);
      RunKeepsInv(actions[..last], before);
      StepKeepsInv(before, actions[last]);
    }
  }

  lemma ReachableInv(s: State)
    requires Reachable(s)
    ensures Inv(s)
  {
    var actions :| Run(actions, s);
    RunKeepsInv(actions, s);
  }

  // ----- What every interleaving guarantees -----

  /** A set word means initialised storage; no step reads or drops uninitialised storage, and
      none overwrites a stored value. */
  lemma StorageIsNeverMisused(s: State)
    requires Reachable(s)
    ensures s.alive && s.init == 2 ==> s.storage.Some?
    ensures UninitialisedAccess !in s.log && forall v :: Overwritten(v) !in s.log
  {
    ReachableInv(s);
    forall i | 0 <= i < |s.log| ensures !s.log[i].UninitialisedAccess? && !s.log[i].Overwritten? {
      assert EventSound(s.log, i);
    }
  }

  ghost predicate NoClearBetween(log: seq<Event>, i: nat, j: nat) {
    forall k :: i <= k < j && k < |log| ==> !log[k].Cleared?
  }

  /** The winner stays the winner until the next clear. */
  lemma {:induction false} WinnerStays(log: seq<Event>, i: nat, j: nat, v: Token)
    requires LogSound(log) && i <= j <= |log| && NoClearBetween(log, i, j) && LastWin(log[..i]) == Some(v)
    ensures LastWin(log[..j]) == Some(v)
    decreases j
  {
    if i < j {
      WinnerStays(log, i, j - 1, v);
      assert EventSound(log, j - 1);
      assert log[..j][..j - 1] == log[..j - 1];
    }
  }

  /** Between two winning populates the cell was cleared. */
  lemma OneWinnerBetweenClears(s: State, i: nat, j: nat)
    requires Reachable(s) && i < j < |s.log| && s.log[i].Won? && s.log[j].Won?
    ensures !NoClearBetween(s.log, i, j)
  {
    ReachableInv(s);
    assert EventSound(s.log, j) && s.log[..i + 1][..i] == s.log[..i];
    if NoClearBetween(s.log, i, j) {
      WinnerStays(s.log, i + 1, j, s.log[i].value);
    }
  }

  /** Between two clears all readers see one value, the winner's. */
  lemma ReadersAgree(s: State, i: nat, j: nat)
    requires Reachable(s) && i <= j < |s.log| && s.log[i].Read? && s.log[j].Read? && NoClearBetween(s.log, i, j)
    ensures s.log[i].value == s.log[j].value && LastWin(s.log[..j]) == Some(s.log[i].value)
  {
    ReachableInv(s);
    assert EventSound(s.log, i) && EventSound(s.log, j);
    WinnerStays(s.log, i, j, s.log[i].value);
  }

  /** A dropped value is dropped only once, and is neither stored nor with any thread. */
  lemma DroppedAtMostOnce(s: State, i: nat)
    requires Reachable(s) && i < |s.log| && s.log[i].Dropped?
    ensures forall j :: 0 <= j < |s.log| && j != i && s.log[j].Dropped? ==> s.log[j].value != s.log[i].value
    ensures s.storage != Some(s.log[i].value) && !Carried(s, s.log[i].value)
  {
    ReachableInv(s);
    forall j | 0 <= j < |s.log| && j != i && s.log[j].Dropped? ensures s.log[j].value != s.log[i].value {
      assert EventSound(s.log, i) && EventSound(s.log, j);
      assert i < j ==> s.log[i] in s.log[..j];
      assert j < i ==> s.log[j] in s.log[..i];
    }
  }

  /** With no operation in flight every value passed in is stored or has been dropped, not both. */
  lemma NothingLeaks(s: State, v: Token)
    requires Reachable(s) && s.threads == map[] && v in s.given
    ensures s.storage == Some(v) <==> Dropped(v) !in s.log
    ensures s.storage == Some(v) ==> s.init == 2 && s.alive
  {
    ReachableInv(s);
    assert !Carried(s, v);
  }

  lemma StepReachable(s: State, a: Action)
    requires Reachable(s) && Enabled(s, a)
    ensures Reachable(Apply(s, a))
  {
    var actions :| Run(actions, s);
    assert (actions + [a])[..|actions|] == actions;
    assert Run(actions + [a], Apply(s, a));
  }

  // ----- Operations do overlap -----

  /** n threads are about to compare-exchange at once, on an empty cell. */
  ghost predicate Contending(s: State, n: nat) {
    && Reachable(s) && s.alive && s.init == 0
    && (forall t: nat :: t in s.threads <==> t < n)
    && (forall t :: t in s.threads ==> s.threads[t] == Exchanging(t))
    && (forall v: nat :: v in s.given <==> v < n)
  }

  lemma InitialReachable()
    ensures Reachable(Initial())
  {
    assert Run([], Initial());
  }

  lemma {:induction false} ContentionHappens(n: nat)
    ensures exists s :: Contending(s, n)
  {
    hide Reachable;
    if n == 0 {
      InitialReachable();
      assert Contending(Initial(), 0);
    } else {
      ContentionHappens(n - 1);
      var s :| Contending(s, n - 1);
      StepReachable(s, BeginPopulate(n - 1, n - 1));
      assert Contending(Apply(s, BeginPopulate(n - 1, n - 1)), n);
    }
  }

  /** Thread t is writing, and the n - 1 others are still about to compare-exchange. */
  ghost predicate WonAmong(s: State, n: nat, t: nat) {
    && Reachable(s) && t in s.threads && s.threads[t] == Writing(t)
    && forall u: nat :: u < n && u != t ==> u in s.threads && s.threads[u] == Exchanging(u)
  }

  /** Of any number of populates at once, any one can win, while all the others are still to try. */
  lemma AnyContenderCanWin(n: nat, t: nat)
    requires t < n
    ensures exists s :: WonAmong(s, n, t)
  {
    ContentionHappens(n);
    var s :| Contending(s, n);
    StepReachable(s, CompareExchange(t));
    assert WonAmong(Apply(s, CompareExchange(t)), n, t);
  }

  /** n threads hold references at once. */
  ghost predicate Shared(s: State, n: nat) {
    && Reachable(s) && s.alive && s.init == 2
    && (forall t: nat :: t in s.threads <==> t < n) && (forall t :: t in s.threads ==> s.threads[t] == Holding)
  }

  lemma {:induction false} SharingHappens(n: nat)
    ensures exists s :: Shared(s, n)
  {
    if n == 0 {
      PublishedHappens();
    } else {
      SharingHappens(n - 1);
      var s :| Shared(s, n - 1);
      StepReachable(s, AsRef(n - 1));
      assert Shared(Apply(s, AsRef(n - 1)), n);
    }
  }

  lemma PublishedHappens()
    ensures exists s :: Shared(s, 0)
  {
    assert Run([], Initial());
    StepReachable(Initial(), BeginPopulate(0, 0));
    var s1 := Apply(Initial(), BeginPopulate(0, 0));
    StepReachable(s1, CompareExchange(0));
    var s2 := Apply(s1, CompareExchange(0));
    StepReachable(s2, Write(0));
    var s3 := Apply(s2, Write(0));
    StepReachable(s3, Publish(0));
    assert Shared(Apply(s3, Publish(0)), 0);
  }

  lemma EmptyStoresNothing(s: State)
    requires Reachable(s)
    ensures s.init == 0 ==> s.storage.None?
  {
    ReachableInv(s);
  }

  /** The cell as one caller uses it: whole operations, nothing in between. */
  class Cell {
    var state: State

    ghost predicate Valid()
      reads this
    {
      Reachable(state)
    }

    constructor ()
      ensures Valid() && state == Initial()
    {
      state := Initial();
      assert Run([], Initial());
    }

    method Step(a: Action)
      requires Valid() && Enabled(state, a)
      modifies this
      ensures Valid() && state == Apply(old(state), a)
    {
      StepReachable(state, a);
      state := Apply(state, a);
    }

    /** Store the value if the cell is empty, else drop it. */
    method Populate(t: Thread, v: Token) returns (won: bool)
      requires Valid() && MayStart(state, t) && v !in state.given
      modifies this
      ensures Valid() && state.threads == old(state.threads)
      ensures won <==> old(state.init) == 0
      ensures won ==> state.init == 2 && state.storage == Some(v)
      ensures !won ==> state.init == old(state.init) && state.storage == old(state.storage)
      ensures state.log == old(state.log) + [if won then Won(v) else Dropped(v)]
      ensures state.given == old(state.given) + {v} && state.alive
    {
      hide Reachable;
      EmptyStoresNothing(state);
      Step(BeginPopulate(t, v));
      Step(CompareExchange(t));
      if state.threads[t].Writing? {
        Step(Write(t));
        Step(Publish(t));
        won := true;
      } else {
        Step(Discard(t));
        won := false;
      }
    }

    /** A reference to the stored value, if it has been published. */
    method Get(t: Thread) returns (value: Option<Token>)
      requires Valid() && MayStart(state, t)
      modifies this
      ensures Valid() && state.threads == old(state.threads)
      ensures state.init == old(state.init) && state.storage == old(state.storage)
      ensures value == if old(state.init) == 2 then old(state.storage) else None
      ensures old(state.init) == 2 ==> value.Some?
      ensures state.log == old(state.log) + if value.Some? then [Read(value.value)] else []
      ensures state.given == old(state.given) && state.alive
    {
      ReachableInv(state);
      Step(AsRef(t));
      if t in state.threads {
        value := state.storage;
        Step(Deref(t));
        Step(Release(t));
      } else {
        value := None;
      }
    }

    /** Drop the stored value and make the cell empty again. */
    method Clear(t: Thread)
      requires Valid() && state.alive && state.threads == map[]
      modifies this
      ensures Valid() && state.threads == map[] && state.alive
      ensures state.init == 0 && state.storage == None
      ensures state.log == old(state.log) + if old(state.storage).Some?
                                            then [Dropped(old(state.storage).value), Cleared] else []
      ensures state.given == old(state.given)
    {
      ReachableInv(state);
      Step(BeginClear(t));
      Step(ClearExchange(t));
      if t in state.threads {
        Step(ClearDrop(t));
        Step(ClearReset(t));
      }
    }
  }
}
