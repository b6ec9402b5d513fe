/** Publishing a finished quote request to the guest, which watches its memory all the while.

    Guest writes happen byte by byte and may stop with an error after any of them. */
module QuoteCompletion {
  import opened Bytes
  import opened Qgs
  import opened QuoteTask
  import opened QuoteStream

  const STATUS_SUCCESS: nat := 0
  const STATUS_ERROR: nat := 0x8000_0000_0000_0000

  // Layout of the guest's buffer: version, status, input length, output length, payload.
  const STATUS_AT: nat := 8
  const OUT_LEN_AT: nat := 20
  const PAYLOAD_AT: nat := 24

  const IN_FLIGHT_BYTES: seq<byte> := [0xFF, 0xFF, 0xFF, 0xFF, 0xFF, 0xFF, 0xFF, 0xFF]
  const SUCCESS_BYTES: seq<byte> := [0, 0, 0, 0, 0, 0, 0, 0]
  const ERROR_BYTES: seq<byte> := [0, 0, 0, 0, 0, 0, 0, 0x80]

  function GuestStatus(mem: seq<byte>): nat
    requires |mem| >= PAYLOAD_AT
  {
    LittleEndian(mem[STATUS_AT..STATUS_AT + 8])
  }

  function GuestOutLen(mem: seq<byte>): nat
    requires |mem| >= PAYLOAD_AT
  {
    Le32(mem, OUT_LEN_AT)
  }

  datatype Phase = WritingPayload | WritingHeader | WritingStatus | Finished

  /** Guest memory, and what the host holds: the quote, whether the status is success, and the
      output length field of its header copy. */
  datatype Completion = Completion(mem: seq<byte>, phase: Phase, quote: seq<byte>, success: bool, outLen: nat)

  /** The header as it is written first, still marked in-flight. */
  function InFlightHeader(mem: seq<byte>, outLen: nat): (header: seq<byte>)
    requires |mem| >= PAYLOAD_AT
    ensures |header| == PAYLOAD_AT
  {
    mem[..STATUS_AT] + IN_FLIGHT_BYTES + mem[STATUS_AT + 8..OUT_LEN_AT] + PutLe32(outLen)
  }

  /** A write under way: where it goes and what it writes. */
  function Target(c: Completion): (nat, seq<byte>)
    requires |c.mem| >= PAYLOAD_AT
  {
    match c.phase
    case WritingPayload => (PAYLOAD_AT, c.quote)
    case WritingHeader =>
      (0, InFlightHeader(c.mem, c.outLen))
    case WritingStatus => (STATUS_AT, if c.success then SUCCESS_BYTES else ERROR_BYTES)
    case Finished => (0, [])
  }

  datatype Action = StoreByte(index: nat) | WriteDone | WriteFailed

  predicate Enabled(c: Completion, a: Action) {
    && |c.mem| >= PAYLOAD_AT && c.phase != Finished
    && var (at, data) := Target(c);
       && at + |data| <= |c.mem|
       && match a
          case StoreByte(i) => i < |data|
          case WriteDone => c.mem[at..at + |data|] == data
          case WriteFailed => true
  }

  function Apply(c: Completion, a: Action): Completion
    requires Enabled(c, a)
  {
    var (at, data) := Target(c);
    match a
    case StoreByte(i) => c.(mem := c.mem[at + i := data[i]])
    case WriteDone =>
      (match c.phase
       case WritingPayload => c.(phase := WritingHeader, outLen := |c.quote|)
       case WritingHeader => c.(phase := WritingStatus)
       case _ => c.(phase := Finished))
    case WriteFailed =>
      (match c.phase
       case WritingPayload => c.(phase := WritingHeader, success := false)
       case _ => c.(phase := Finished))
  }

  /** A quote request that has stopped receiving begins to complete; the guest still reads in-flight.
      A success with an empty or oversized payload is turned into an error first. */
  ghost predicate Begins(p: Progress, payloadLen: nat, c: Completion) {
    && |c.mem| == PAYLOAD_AT + payloadLen
    && c.mem[STATUS_AT..STATUS_AT + 8] == IN_FLIGHT_BYTES
    && c.outLen == 0
    && c.quote == (if p.Succeeded? then p.quote else [])
    && c.success == (p.Succeeded? && 0 < |p.quote| <= payloadLen)
    && c.phase == (if c.success then WritingPayload else WritingHeader)
  }

  ghost predicate Run(start: Completion, actions: seq<Action>, end: Completion) {
    if actions == [] then end == start
    else
      var last := |actions| - 1;
      exists mid :: Run(start, actions[..last], mid) && Enabled(mid, actions[last]) && end == Apply(mid, actions[last])
  }

  ghost predicate PayloadPublished(c: Completion)
    requires |c.mem| >= PAYLOAD_AT
  {
    && 0 < |c.quote| && PAYLOAD_AT + |c.quote| <= |c.mem|
    && c.mem[PAYLOAD_AT..PAYLOAD_AT + |c.quote|] == c.quote
    && c.outLen == |c.quote|
  }

  /** Each status byte the guest sees is still in-flight or already final. */
  ghost predicate StatusUnderWay(c: Completion)
    requires |c.mem| >= PAYLOAD_AT
  {
    forall i :: STATUS_AT <= i < STATUS_AT + 8 ==>
      c.mem[i] == 0xFF || c.mem[i] == (if c.success || i < STATUS_AT + 7 then 0 else 0x80)
  }

  ghost predicate OutLenPublished(c: Completion)
    requires |c.mem| >= PAYLOAD_AT
  {
    c.mem[OUT_LEN_AT..OUT_LEN_AT + 4] == PutLe32(c.outLen)
  }

  ghost predicate StillInFlight(c: Completion)
    requires |c.mem| >= PAYLOAD_AT
  {
    forall i :: STATUS_AT <= i < STATUS_AT + 8 ==> c.mem[i] == 0xFF
  }

  ghost predicate Inv(c: Completion) {
    && |c.mem| >= PAYLOAD_AT
    && (c.phase == WritingPayload ==>
          StillInFlight(c) && c.success && c.outLen == 0 && 0 < |c.quote| && PAYLOAD_AT + |c.quote| <= |c.mem|)
    && (c.phase != WritingPayload ==> if c.success then PayloadPublished(c) else c.outLen == 0)
    && (c.phase == WritingHeader ==> StillInFlight(c))
    && (c.phase == WritingStatus ==> StatusUnderWay(c) && OutLenPublished(c))
    && (c.phase == Finished ==> StillInFlight(c) || (StatusUnderWay(c) && OutLenPublished(c)))
  }

  lemma StoreKeepsInv(c: Completion, i: nat)
    requires Inv(c) && Enabled(c, StoreByte(i))
    ensures Inv(Apply(c, StoreByte(i)))
  {
    var (at, data) := Target(c);
    var c' := Apply(c, StoreByte(i));
    if c.phase == WritingHeader && c.success {
      assert c'.mem[PAYLOAD_AT..PAYLOAD_AT + |c.quote|] == c.mem[PAYLOAD_AT..PAYLOAD_AT + |c.quote|];
    }
    if c.phase == WritingStatus {
      assert c'.mem[OUT_LEN_AT..OUT_LEN_AT + 4] == c.mem[OUT_LEN_AT..OUT_LEN_AT + 4];
      assert c'.mem[PAYLOAD_AT..] == c.mem[PAYLOAD_AT..];
      if c.success {
        assert c'.mem[PAYLOAD_AT..PAYLOAD_AT + |c.quote|] == c.mem[PAYLOAD_AT..PAYLOAD_AT + |c.quote|];
      }
    }
  }

  lemma HeaderDonePublishes(c: Completion)
    requires Inv(c) && c.phase == WritingHeader && Enabled(c, WriteDone)
    ensures OutLenPublished(c)
  {
    var (_, data) := Target(c);
    assert c.mem[0..|data|][OUT_LEN_AT..OUT_LEN_AT + 4] == c.mem[OUT_LEN_AT..OUT_LEN_AT + 4];
    assert data[OUT_LEN_AT..OUT_LEN_AT + 4] == PutLe32(c.outLen);
  }

  lemma StepKeepsInv(c: Completion, a: Action)
    requires Inv(c) && Enabled(c, a)
    ensures Inv(Apply(c, a))
  {
    match a
    case StoreByte(i) => StoreKeepsInv(c, i);
    case WriteDone => if c.phase == WritingHeader { HeaderDonePublishes(c); }
    case WriteFailed =>
  }

  lemma {:induction false} RunKeepsInv(start: Completion, actions: seq<Action>, end: Completion)
    requires Inv(start) && Run(start, actions, end)
    ensures Inv(end) && end.quote == start.quote && |end.mem| == |start.mem|
  {
    if actions != [] {
      var last := |actions| - 1;
      var mid :| Run(start, actions[..last], mid) && Enabled(mid, actions[last]) && end == Apply(mid, actions[last]);
      RunKeepsInv(start, actions[..last], mid);
      StepKeepsInv(mid, actions[last]);
    }
  }

  /** Version and input length are the guest's own and stay as they are, at every moment. */
  lemma StepKeepsFields(c: Completion, a: Action)
    requires Enabled(c, a)
    ensures var c' := Apply(c, a); c'.mem[..8] == c.mem[..8] && c'.mem[16..20] == c.mem[16..20]
  {
    var c', data := Apply(c, a), Target(c).1;
    if a.StoreByte? && c.phase == WritingHeader {
      assert forall i :: 0 <= i < 8 || 16 <= i < 20 ==> data[i] == c.mem[i];
    }
    assert forall i :: 0 <= i < 8 || 16 <= i < 20 ==> c'.mem[i] == c.mem[i];
  }

  lemma {:induction false} RunKeepsFields(start: Completion, actions: seq<Action>, end: Completion)
    requires Run(start, actions, end) && |start.mem| >= PAYLOAD_AT
    ensures |end.mem| >= PAYLOAD_AT && end.mem[..8] == start.mem[..8] && end.mem[16..20] == start.mem[16..20]
  {
    if actions != [] {
      var last := |actions| - 1;
      var mid :| Run(start, actions[..last], mid) && Enabled(mid, actions[last]) && end == Apply(mid, actions[last]);
      RunKeepsFields(start, actions[..last], mid);
      StepKeepsFields(mid, actions[last]);
    }
  }

  lemma BeginsInv(p: Progress, payloadLen: nat, c: Completion)
    requires Begins(p, payloadLen, c)
    ensures Inv(c)
  {
    forall i | STATUS_AT <= i < STATUS_AT + 8 ensures c.mem[i] == 0xFF {
      assert c.mem[i] == c.mem[STATUS_AT..STATUS_AT + 8][i - STATUS_AT];
    }
  }

  lemma StatusValues()
    ensures LittleEndian(SUCCESS_BYTES) == STATUS_SUCCESS
    ensures LittleEndian(ERROR_BYTES) == STATUS_ERROR
  {
    assert LittleEndian([0, 0, 0, 0]) == 0;
    assert SUCCESS_BYTES == [0, 0, 0, 0] + [0, 0, 0, 0] && ERROR_BYTES == [0, 0, 0, 0] + [0, 0, 0, 0x80];
    assert LittleEndian([0, 0, 0, 0x80]) == 0x8000_0000;
    LittleEndianConcat([0, 0, 0, 0], [0, 0, 0, 0]);
    LittleEndianConcat([0, 0, 0, 0], [0, 0, 0, 0x80]);
    FourBytes();
  }

  /** The status the guest reads determines the bytes it reads it from. */
  lemma StatusBytes(mem: seq<byte>)
    requires |mem| >= PAYLOAD_AT
    ensures GuestStatus(mem) == STATUS_SUCCESS <==> mem[STATUS_AT..STATUS_AT + 8] == SUCCESS_BYTES
    ensures GuestStatus(mem) == STATUS_ERROR <==> mem[STATUS_AT..STATUS_AT + 8] == ERROR_BYTES
  {
    StatusValues();
    DecodeEncode(mem[STATUS_AT..STATUS_AT + 8]);
    DecodeEncode(SUCCESS_BYTES);
    DecodeEncode(ERROR_BYTES);
  }

  /** At any moment: success is only visible with the whole quote and its length, error only
      with length 0. */
  lemma VisibleStatusIsBacked(c: Completion)
    requires Inv(c)
    ensures GuestStatus(c.mem) == STATUS_SUCCESS ==>
              c.success && PayloadPublished(c) && OutLenPublished(c) && c.phase in {WritingStatus, Finished}
    ensures GuestStatus(c.mem) == STATUS_ERROR ==> c.outLen == 0 && OutLenPublished(c)
  {
    StatusBytes(c.mem);
    var status := c.mem[STATUS_AT..STATUS_AT + 8];
    assert status[0] == c.mem[STATUS_AT] && status[7] == c.mem[STATUS_AT + 7];
  }

  /** End to end: if at any interleaving point of any completion, failed writes included, the
      guest reads success, then what it reads as the payload is exactly the nonempty quote of
      one well-formed response the socket delivered, and the output length is its length. */
  lemma GuestSuccessIsGenuine(chunks: seq<seq<byte>>, payloadLen: nat, start: Completion, actions: seq<Action>,
                              now: Completion)
    requires Begins(ReceiveAll(Receiving([]), chunks, payloadLen), payloadLen, start) && Run(start, actions, now)
    requires |now.mem| >= PAYLOAD_AT && GuestStatus(now.mem) == STATUS_SUCCESS
    ensures var n := GuestOutLen(now.mem);
            && 0 < n <= payloadLen && PAYLOAD_AT + n <= |now.mem|
            && Delivered(chunks, now.mem[PAYLOAD_AT..PAYLOAD_AT + n])
  {
    var p := ReceiveAll(Receiving([]), chunks, payloadLen);
    BeginsInv(p, payloadLen, start);
    RunKeepsInv(start, actions, now);
    VisibleStatusIsBacked(now);
    SucceedsIffFrameDelivered(chunks, now.quote, payloadLen);
    WordOfBytes(|now.quote|);
  }

  /** A guest that reads the error status reads output length 0. */
  lemma GuestErrorHasNoOutput(p: Progress, payloadLen: nat, start: Completion, actions: seq<Action>, now: Completion)
    requires Begins(p, payloadLen, start) && Run(start, actions, now)
    requires |now.mem| >= PAYLOAD_AT && GuestStatus(now.mem) == STATUS_ERROR
    ensures GuestOutLen(now.mem) == 0
  {
    BeginsInv(p, payloadLen, start);
    RunKeepsInv(start, actions, now);
    VisibleStatusIsBacked(now);
    WordOfBytes(0);
  }

  lemma SuccessSurvivesStep(c: Completion, a: Action)
    requires Inv(c) && GuestStatus(c.mem) == STATUS_SUCCESS && Enabled(c, a)
    ensures Apply(c, a).mem == c.mem
  {
    StatusBytes(c.mem);
    VisibleStatusIsBacked(c);
    if a.StoreByte? {
      assert c.mem[STATUS_AT..STATUS_AT + 8][a.index] == c.mem[STATUS_AT + a.index];
    }
  }

  /** Once success is visible nothing the guest reads changes any more, so it need not read
      status, length and payload at one moment. */
  lemma {:induction false} SuccessIsStable(start: Completion, actions: seq<Action>, end: Completion)
    requires Inv(start) && GuestStatus(start.mem) == STATUS_SUCCESS && Run(start, actions, end)
    ensures end.mem == start.mem && Inv(end)
  {
    if actions != [] {
      var last := |actions| - 1;
      var mid :| Run(start, actions[..last], mid) && Enabled(mid, actions[last]) && end == Apply(mid, actions[last]);
      SuccessIsStable(start, actions[..last], mid);
      SuccessSurvivesStep(mid, actions[last]);
      StepKeepsInv(mid, actions[last]);
    }
  }

  // ----- The completion routine itself -----

  /** Memory after a write that stops once this many bytes are stored. */
  function Written(mem: seq<byte>, at: nat, data: seq<byte>, stop: nat): seq<byte>
    requires at + |data| <= |mem|
  {
    var n := if stop < |data| then stop else |data|;
    mem[..at] + data[..n] + mem[at + n..]
  }

  lemma WrittenBytes(mem: seq<byte>, at: nat, data: seq<byte>, stop: nat)
    requires at + |data| <= |mem|
    ensures |Written(mem, at, data, stop)| == |mem|
    ensures forall i :: 0 <= i < |mem| ==>
              Written(mem, at, data, stop)[i] == if at <= i < at + |data| && i < at + stop then data[i - at] else mem[i]
  {
  }

  /** Memory after the first n bytes of the write under way have been stored. */
  function Stored(c: Completion, n: nat): seq<byte>
    requires |c.mem| >= PAYLOAD_AT && n <= |Target(c).1| && Target(c).0 + |Target(c).1| <= |c.mem|
  {
    Written(c.mem, Target(c).0, Target(c).1, n)
  }

  /** A write does not disturb the fields it is computed from. */
  lemma TargetIsStable(c: Completion, n: nat)
    requires |c.mem| >= PAYLOAD_AT && n <= |Target(c).1| && Target(c).0 + |Target(c).1| <= |c.mem|
    ensures |Stored(c, n)| == |c.mem| && Target(c.(mem := Stored(c, n))) == Target(c)
  {
    var mem' := Stored(c, n);
    if c.phase == WritingHeader {
      var data := Target(c).1;
      assert forall i :: 0 <= i < STATUS_AT || STATUS_AT + 8 <= i < OUT_LEN_AT ==> data[i] == c.mem[i];
      assert forall i :: 0 <= i < |mem'| ==> mem'[i] == if i < n then data[i] else c.mem[i];
      assert mem'[..STATUS_AT] == c.mem[..STATUS_AT];
      assert mem'[STATUS_AT + 8..OUT_LEN_AT] == c.mem[STATUS_AT + 8..OUT_LEN_AT];
    }
  }

  lemma ExtendRun(start: Completion, actions: seq<Action>, c: Completion, a: Action)
    requires Run(start, actions, c) && Enabled(c, a)
    ensures Run(start, actions + [a], Apply(c, a))
  {
    assert (actions + [a])[..|actions|] == actions;
  }

  /** Storing a prefix of a write is a run of the step machine. */
  lemma {:induction false} StoresAreRuns(start: Completion, actions: seq<Action>, c: Completion, n: nat)
    requires Run(start, actions, c) && |c.mem| >= PAYLOAD_AT && c.phase != Finished
    requires n <= |Target(c).1| && Target(c).0 + |Target(c).1| <= |c.mem|
    ensures exists actions' :: Run(start, actions', c.(mem := Stored(c, n)))
  {
    hide Written, Target;
    if n == 0 {
      WrittenBytes(c.mem, Target(c).0, Target(c).1, 0);
      assert Stored(c, 0) == c.mem;
      assert c.(mem := Stored(c, 0)) == c;
    } else {
      StoresAreRuns(start, actions, c, n - 1);
      var actions' :| Run(start, actions', c.(mem := Stored(c, n - 1)));
      OneMoreByte(c, n - 1);
      ExtendRun(start, actions', c.(mem := Stored(c, n - 1)), StoreByte(n - 1));
    }
  }

  lemma OneMoreByte(c: Completion, n: nat)
    requires |c.mem| >= PAYLOAD_AT && c.phase != Finished
    requires n < |Target(c).1| && Target(c).0 + |Target(c).1| <= |c.mem|
    ensures var c' := c.(mem := Stored(c, n));
            Enabled(c', StoreByte(n)) && Apply(c', StoreByte(n)) == c.(mem := Stored(c, n + 1))
  {
    hide Written, Target;
    TargetIsStable(c, n);
    var (at, data) := Target(c);
    WrittenBytes(c.mem, at, data, n);
    WrittenBytes(c.mem, at, data, n + 1);
    assert Stored(c, n)[at + n := data[n]] == Stored(c, n + 1);
  }

  ghost predicate Reaches(start: Completion, c: Completion) {
    exists actions :: Run(start, actions, c)
  }

  /** The state after a guest write that stops, failing, once this many bytes are stored. */
  function AfterWrite(c: Completion, stop: nat): Completion
    requires |c.mem| >= PAYLOAD_AT && c.phase != Finished && Target(c).0 + |Target(c).1| <= |c.mem|
  {
    var (at, data) := Target(c);
    var n := if stop < |data| then stop else |data|;
    var c' := c.(mem := Stored(c, n));
    TargetIsStable(c, n);
    assert n == |data| ==> c'.mem[at..at + |data|] == data;
    Apply(c', if stop < |data| then WriteFailed else WriteDone)
  }

  lemma WriteIsARun(start: Completion, c: Completion, stop: nat)
    requires |c.mem| >= PAYLOAD_AT && c.phase != Finished && Target(c).0 + |Target(c).1| <= |c.mem|
    requires Reaches(start, c)
    ensures Reaches(start, AfterWrite(c, stop))
  {
    var (at, data) := Target(c);
    var n := if stop < |data| then stop else |data|;
    var actions :| Run(start, actions, c);
    StoresAreRuns(start, actions, c, n);
    var actions' :| Run(start, actions', c.(mem := Stored(c, n)));
    TargetIsStable(c, n);
    var c' := c.(mem := Stored(c, n));
    assert n == |data| ==> c'.mem[at..at + |data|] == data;
    ExtendRun(start, actions', c', if stop < |data| then WriteFailed else WriteDone);
  }

  /** Write to guest memory; stops, failing, once this many bytes are stored. */
  method AddressSpaceWrite(guest: array<byte>, at: nat, data: seq<byte>, stop: nat) returns (ok: bool)
    requires at + |data| <= guest.Length
    modifies guest
    ensures ok <==> |data| <= stop
    ensures guest[..] == Written(old(guest[..]), at, data, stop)
  {
    var n := if stop < |data| then stop else |data|;
    for i := 0 to n
      invariant guest[..] == old(guest[..at]) + data[..i] + old(guest[at + i..])
    {
      guest[at + i] := data[i];
    }
    ok := |data| <= stop;
    assert old(guest[..at]) == old(guest[..])[..at] && old(guest[at + n..]) == old(guest[..])[at + n..];
  }

  /** One guest write of the routine is one write of the step machine. */
  method Publish(guest: array<byte>, at: nat, data: seq<byte>, stop: nat, ghost start: Completion, ghost c: Completion)
    returns (ok: bool, ghost after: Completion)
    requires guest.Length >= PAYLOAD_AT && at + |data| <= guest.Length
    requires c.mem == guest[..] && c.phase != Finished && Target(c) == (at, data) && Reaches(start, c)
    modifies guest
    ensures ok <==> |data| <= stop
    ensures guest[..] == Written(old(guest[..]), at, data, stop)
    ensures Reaches(start, after) && after.mem == guest[..] && after.quote == c.quote
    ensures after.phase == (if c.phase == WritingPayload then WritingHeader
                            else if c.phase == WritingHeader && ok then WritingStatus else Finished)
    ensures after.success == (c.success && (c.phase != WritingPayload || ok))
    ensures after.outLen == if c.phase == WritingPayload && ok then |c.quote| else c.outLen
  {
    hide Reaches;
    WriteIsARun(start, c, stop);
    after := AfterWrite(c, stop);
    ok := AddressSpaceWrite(guest, at, data, stop);
  }

  /** Guest memory when the routine returns, each of its writes having stopped where it did. */
  function CompletedMemory(mem: seq<byte>, quote: seq<byte>, success: bool, payloadStop: nat, headerStop: nat,
                           statusStop: nat): seq<byte>
    requires PAYLOAD_AT + |quote| <= |mem|
  {
    var published := success && |quote| <= payloadStop;
    var paid := if success then Written(mem, PAYLOAD_AT, quote, payloadStop) else mem;
    WrittenBytes(mem, PAYLOAD_AT, quote, payloadStop);
    var header := InFlightHeader(paid, if published then |quote| else 0);
    var headed := Written(paid, 0, header, headerStop);
    WrittenBytes(paid, 0, header, headerStop);
    if headerStop < PAYLOAD_AT then headed
    else Written(headed, STATUS_AT, if published then SUCCESS_BYTES else ERROR_BYTES, statusStop)
  }

  /** Complete a quote request: payload, then the header still marked in-flight, then the status alone.
      Every write may stop early. Whatever happens, the guest has seen a run of the step machine. */
  method Complete(task: Task, guest: array<byte>, payloadStop: nat, headerStop: nat, statusStop: nat)
    returns (ghost start: Completion, ghost end: Completion)
    requires task.Valid() && task.status != InFlight && guest != task.receiveBuf
    requires guest.Length == PAYLOAD_AT + task.payloadLen
    requires guest[STATUS_AT..STATUS_AT + 8] == IN_FLIGHT_BYTES
    modifies guest, task`status
    ensures Begins(old(task.Progress()), task.payloadLen, start) && start.mem == old(guest[..])
    ensures Reaches(start, end) && end.mem == guest[..]
    ensures |start.quote| <= task.payloadLen
    ensures guest[..] == CompletedMemory(start.mem, start.quote, start.success, payloadStop, headerStop, statusStop)
    ensures task.status == Success <==> start.success && |start.quote| <= payloadStop
  {
    hide Reaches;
    var quote := if task.status == Success then task.receiveBuf[..task.received] else [];
    var outLen := 0;
    if task.status == Success && (task.received == 0 || task.received > task.payloadLen) {
      task.status := Error;
    }
    start := Completion(guest[..], if task.status == Success then WritingPayload else WritingHeader, quote,
                        task.status == Success, 0);
    ReachesItself(start);
    end := start;
    var ok;
    if task.status == Success {
      ok, end := Publish(guest, PAYLOAD_AT, quote, payloadStop, start, end);
      if ok {
        outLen := |quote|;
      } else {
        task.status := Error;
      }
    }
    var header := InFlightHeader(guest[..], outLen);
    ok, end := Publish(guest, 0, header, headerStop, start, end);
    if ok {
      var status := if task.status == Success then SUCCESS_BYTES else ERROR_BYTES;
      ok, end := Publish(guest, STATUS_AT, status, statusStop, start, end);
    }
  }

  lemma ReachesItself(c: Completion)
    ensures Reaches(c, c)
  {
    assert Run(c, [], c);
  }

  /** What the guest reads is exactly this quote, announced as a success. */
  ghost predicate GuestReads(mem: seq<byte>, quote: seq<byte>)
    requires |mem| >= PAYLOAD_AT
  {
    && GuestStatus(mem) == STATUS_SUCCESS
    && GuestOutLen(mem) == |quote| && PAYLOAD_AT + |quote| <= |mem|
    && mem[PAYLOAD_AT..PAYLOAD_AT + |quote|] == quote
  }

  /** Where each byte of guest memory comes from in the end. */
  function FinalByte(mem: seq<byte>, quote: seq<byte>, success: bool, payloadStop: nat, headerStop: nat, statusStop: nat,
                     i: nat): byte
    requires PAYLOAD_AT + |quote| <= |mem| && i < |mem|
  {
    var published := success && |quote| <= payloadStop;
    if STATUS_AT <= i < STATUS_AT + 8 then
      if headerStop < PAYLOAD_AT || i - STATUS_AT >= statusStop then 0xFF
      else if published then SUCCESS_BYTES[i - STATUS_AT] else ERROR_BYTES[i - STATUS_AT]
    else if OUT_LEN_AT <= i < PAYLOAD_AT && i < headerStop then
      PutLe32(if published then |quote| else 0)[i - OUT_LEN_AT]
    else if PAYLOAD_AT <= i < PAYLOAD_AT + |quote| && success && i - PAYLOAD_AT < payloadStop then quote[i - PAYLOAD_AT]
    else mem[i]
  }

  lemma HeaderBytes(mem: seq<byte>, outLen: nat, i: nat)
    requires |mem| >= PAYLOAD_AT && i < PAYLOAD_AT
    ensures InFlightHeader(mem, outLen)[i] ==
            if STATUS_AT <= i < STATUS_AT + 8 then 0xFF
            else if OUT_LEN_AT <= i then PutLe32(outLen)[i - OUT_LEN_AT]
            else mem[i]
  {
  }

  lemma CompletedBytes(mem: seq<byte>, quote: seq<byte>, success: bool, payloadStop: nat, headerStop: nat, statusStop: nat,
                       i: nat)
    requires PAYLOAD_AT + |quote| <= |mem| && i < |mem| && mem[STATUS_AT..STATUS_AT + 8] == IN_FLIGHT_BYTES
    ensures var end := CompletedMemory(mem, quote, success, payloadStop, headerStop, statusStop);
            |end| == |mem| && end[i] == FinalByte(mem, quote, success, payloadStop, headerStop, statusStop, i)
  {
    hide Written, InFlightHeader, PutLe32;
    var published := success && |quote| <= payloadStop;
    var outLen := if published then |quote| else 0;
    var paid := if success then Written(mem, PAYLOAD_AT, quote, payloadStop) else mem;
    WrittenBytes(mem, PAYLOAD_AT, quote, payloadStop);
    var header := InFlightHeader(paid, outLen);
    var headed := Written(paid, 0, header, headerStop);
    WrittenBytes(paid, 0, header, headerStop);
    WrittenBytes(headed, STATUS_AT, if published then SUCCESS_BYTES else ERROR_BYTES, statusStop);
    assert STATUS_AT <= i < STATUS_AT + 8 ==> mem[i] == mem[STATUS_AT..STATUS_AT + 8][i - STATUS_AT];
    if i < PAYLOAD_AT { HeaderBytes(paid, outLen, i); }
  }

  ghost predicate HasFinalBytes(end: seq<byte>, mem: seq<byte>, quote: seq<byte>, success: bool, payloadStop: nat,
                                headerStop: nat, statusStop: nat)
    requires PAYLOAD_AT + |quote| <= |mem|
  {
    && |end| == |mem|
    && forall i: nat :: i < |mem| ==> end[i] == FinalByte(mem, quote, success, payloadStop, headerStop, statusStop, i)
  }

  lemma OtherFields(end: seq<byte>, mem: seq<byte>, quote: seq<byte>, success: bool, payloadStop: nat, headerStop: nat,
                    statusStop: nat)
    requires PAYLOAD_AT + |quote| <= |mem|
    requires HasFinalBytes(end, mem, quote, success, payloadStop, headerStop, statusStop)
    ensures end[..8] == mem[..8] && end[16..20] == mem[16..20]
    ensures end[PAYLOAD_AT + |quote|..] == mem[PAYLOAD_AT + |quote|..]
    ensures headerStop < 24 ==> end[8..16] == IN_FLIGHT_BYTES
  {
  }

  lemma OutcomeFields(end: seq<byte>, mem: seq<byte>, quote: seq<byte>, success: bool, payloadStop: nat, headerStop: nat,
                      statusStop: nat)
    requires PAYLOAD_AT + |quote| <= |mem| && headerStop >= 24 && statusStop >= 8
    requires HasFinalBytes(end, mem, quote, success, payloadStop, headerStop, statusStop)
    ensures var published := success && |quote| <= payloadStop;
            && end[8..16] == (if published then SUCCESS_BYTES else ERROR_BYTES)
            && end[20..24] == PutLe32(if published then |quote| else 0)
            && (published ==> end[PAYLOAD_AT..PAYLOAD_AT + |quote|] == quote)
  {
    hide PutLe32;
  }

  /** When the last two writes go through, the guest reads success exactly when the payload write did
      too, with the length and bytes of the quote; otherwise it reads the error with length 0. The
      other header fields are as they were. */
  lemma GuestEndsOnTheOutcome(mem: seq<byte>, quote: seq<byte>, success: bool, payloadStop: nat, headerStop: nat,
                              statusStop: nat)
    requires PAYLOAD_AT + |quote| <= |mem| && mem[STATUS_AT..STATUS_AT + 8] == IN_FLIGHT_BYTES && |quote| < U32
    ensures var end := CompletedMemory(mem, quote, success, payloadStop, headerStop, statusStop);
            && |end| == |mem| && end[..8] == mem[..8] && end[16..20] == mem[16..20]
            && end[PAYLOAD_AT + |quote|..] == mem[PAYLOAD_AT + |quote|..]
            && (headerStop < 24 ==> end[8..16] == IN_FLIGHT_BYTES)
            && (headerStop >= 24 && statusStop >= 8 ==>
                  if success && |quote| <= payloadStop then GuestReads(end, quote)
                  else GuestStatus(end) == STATUS_ERROR && GuestOutLen(end) == 0)
  {
    hide CompletedMemory, FinalByte;
    var end := CompletedMemory(mem, quote, success, payloadStop, headerStop, statusStop);
    CompletedBytes(mem, quote, success, payloadStop, headerStop, statusStop, 0);
    forall i: nat | i < |mem| ensures end[i] == FinalByte(mem, quote, success, payloadStop, headerStop, statusStop, i) {
      CompletedBytes(mem, quote, success, payloadStop, headerStop, statusStop, i);
    }
    OtherFields(end, mem, quote, success, payloadStop, headerStop, statusStop);
    if headerStop >= 24 && statusStop >= 8 {
      OutcomeFields(end, mem, quote, success, payloadStop, headerStop, statusStop);
      StatusBytes(end);
      WordOfBytes(|quote|);
      WordOfBytes(0);
    }
  }

  lemma InFlightIsNoSuccess(mem: seq<byte>)
    requires |mem| >= PAYLOAD_AT && mem[STATUS_AT..STATUS_AT + 8] == IN_FLIGHT_BYTES
    ensures GuestStatus(mem) != STATUS_SUCCESS
  {
    StatusBytes(mem);
    assert IN_FLIGHT_BYTES[0] != SUCCESS_BYTES[0];
  }

  lemma SuccessNeedsDelivery(chunks: seq<seq<byte>>, payloadLen: nat, start: Completion, end: Completion)
    requires Begins(ReceiveAll(Receiving([]), chunks, payloadLen), payloadLen, start) && Reaches(start, end)
    requires |end.mem| >= PAYLOAD_AT && GuestStatus(end.mem) == STATUS_SUCCESS
    ensures exists quote :: GuestReads(end.mem, quote) && Fits(quote, payloadLen) && Delivered(chunks, quote)
  {
    var actions :| Run(start, actions, end);
    GuestSuccessIsGenuine(chunks, payloadLen, start, actions, end);
    var p := ReceiveAll(Receiving([]), chunks, payloadLen);
    BeginsInv(p, payloadLen, start);
    RunKeepsInv(start, actions, end);
    VisibleStatusIsBacked(end);
    SucceedsIffFrameDelivered(chunks, end.quote, payloadLen);
    WordOfBytes(|end.quote|);
    assert GuestReads(end.mem, end.quote);
  }

  /** A quote request from the first read to the last guest write. The guest reads success only for a
      quote the socket delivered. If the last two writes go through, it reads success exactly when a
      quote was delivered in full, fitting the buffer, before the stream ended, and its payload write
      went through too; otherwise it reads the error and length 0. */
  method ServeQuote(task: Task, chunks: seq<seq<byte>>, guest: array<byte>, payloadStop: nat, headerStop: nat,
                    statusStop: nat)
    returns (completed: bool)
    requires task.Valid() && task.Progress() == Receiving([]) && ReadsFit(Receiving([]), chunks, task.payloadLen)
    requires guest != task.receiveBuf && guest.Length == PAYLOAD_AT + task.payloadLen
    requires guest[STATUS_AT..STATUS_AT + 8] == IN_FLIGHT_BYTES
    modifies task`received, task`status, task.receiveBuf, guest
    ensures completed <==> !ReceiveAll(Receiving([]), chunks, task.payloadLen).Receiving?
    ensures !completed ==> guest[..] == old(guest[..])
    ensures GuestStatus(guest[..]) == STATUS_SUCCESS ==>
              exists quote :: GuestReads(guest[..], quote) && Fits(quote, task.payloadLen) && Delivered(chunks, quote)
    ensures completed && headerStop >= PAYLOAD_AT && statusStop >= 8 ==>
              if ReceivedAndPaid(chunks, task.payloadLen, payloadStop)
              then GuestStatus(guest[..]) == STATUS_SUCCESS
              else GuestStatus(guest[..]) == STATUS_ERROR && GuestOutLen(guest[..]) == 0
    ensures guest[..8] == old(guest[..8]) && guest[16..20] == old(guest[16..20])
  {
    ReceiveReads(task, chunks);
    completed := task.status != InFlight;
    if !completed {
      assert guest[..][STATUS_AT..STATUS_AT + 8] == IN_FLIGHT_BYTES;
      InFlightIsNoSuccess(guest[..]);
      return;
    }
    ghost var start, end := Complete(task, guest, payloadStop, headerStop, statusStop);
    if GuestStatus(guest[..]) == STATUS_SUCCESS {
      SuccessNeedsDelivery(chunks, task.payloadLen, start, end);
    }
    DeliveryDecides(chunks, task.payloadLen, start, payloadStop);
    GuestEndsOnTheOutcome(start.mem, start.quote, start.success, payloadStop, headerStop, statusStop);
  }

  /** Some quote was delivered in full, within the buffer, and its payload write went through. */
  ghost predicate ReceivedAndPaid(chunks: seq<seq<byte>>, payloadLen: nat, payloadStop: nat) {
    exists quote :: Fits(quote, payloadLen) && Delivered(chunks, quote) && |quote| <= payloadStop
  }

  lemma DeliveryDecides(chunks: seq<seq<byte>>, payloadLen: nat, start: Completion, payloadStop: nat)
    requires Begins(ReceiveAll(Receiving([]), chunks, payloadLen), payloadLen, start)
    ensures start.success && |start.quote| <= payloadStop <==> ReceivedAndPaid(chunks, payloadLen, payloadStop)
    ensures |start.quote| < U32 && |start.quote| <= payloadLen
  {
    var p := ReceiveAll(Receiving([]), chunks, payloadLen);
    if p.Succeeded? {
      SucceedsIffFrameDelivered(chunks, p.quote, payloadLen);
    }
    if quote :| Fits(quote, payloadLen) && Delivered(chunks, quote) && |quote| <= payloadStop {
      SucceedsIffFrameDelivered(chunks, quote, payloadLen);
    }
  }
}
