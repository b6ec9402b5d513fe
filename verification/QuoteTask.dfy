/** The quote request as the hypervisor handles it: framing a request in place, and receiving the
    response in whatever pieces the socket delivers. */
module QuoteTask {
  import opened Bytes
  import opened Qgs

  /** The buffer after n bytes at source have been moved to target. */
  ghost predicate Moved(was: seq<byte>, now: seq<byte>, target: nat, source: nat, n: nat)
    requires target + n <= |was| && source + n <= |was|
  {
    now == was[..target] + was[source..source + n] + was[target + n..]
  }

  lemma MovedBytewise(was: seq<byte>, now: seq<byte>, target: nat, source: nat, n: nat)
    requires |was| == |now| && target + n <= |was| && source + n <= |was|
    requires forall k :: 0 <= k < target || target + n <= k < |was| ==> now[k] == was[k]
    requires forall k :: target <= k < target + n ==> now[k] == was[k - target + source]
    ensures Moved(was, now, target, source, n)
  {
    assert now[..target] == was[..target] && now[target + n..] == was[target + n..];
    assert now[target..target + n] == was[source..source + n];
    assert now == now[..target] + now[target..target + n] + now[target + n..];
  }

  /** memmove within one buffer: the regions may overlap either way. */
  method Memmove(a: array<byte>, target: nat, source: nat, n: nat)
    requires target + n <= a.Length && source + n <= a.Length
    modifies a
    ensures Moved(old(a[..]), a[..], target, source, n)
  {
    ghost var was := a[..];
    if target <= source {
      for i := 0 to n
        invariant forall k :: 0 <= k < target || target + i <= k < a.Length ==> a[k] == was[k]
        invariant forall k :: target <= k < target + i ==> a[k] == was[k - target + source]
      {
        a[target + i] := a[source + i];
      }
    } else {
      for i := n downto 0
        invariant forall k :: 0 <= k < target + i || target + n <= k < a.Length ==> a[k] == was[k]
        invariant forall k :: target + i <= k < target + n ==> a[k] == was[k - target + source]
      {
        a[target + i] := a[source + i];
      }
    }
    MovedBytewise(was, a[..], target, source, n);
  }

  lemma ShiftedBytes(v: nat)
    ensures PutLe32(v) == [v % 0x100, v / 0x100 % 0x100, v / 0x1_0000 % 0x100, v / 0x100_0000 % 0x100]
    ensures PutBe32(v) == [v / 0x100_0000 % 0x100, v / 0x1_0000 % 0x100, v / 0x100 % 0x100, v % 0x100]
  {
    assert LittleEndianBytes(v / 0x100_0000, 1) == [v / 0x100_0000 % 0x100] + LittleEndianBytes(v / 0x1_0000_0000, 0);
    assert LittleEndianBytes(v / 0x1_0000, 2) == [v / 0x1_0000 % 0x100] + LittleEndianBytes(v / 0x100_0000, 1);
    assert LittleEndianBytes(v / 0x100, 3) == [v / 0x100 % 0x100] + LittleEndianBytes(v / 0x1_0000, 2);
  }

  method StoreLe32(p: array<byte>, at: nat, v: nat)
    requires at + 4 <= p.Length
    modifies p
    ensures p[at..at + 4] == PutLe32(v)
    ensures forall i :: 0 <= i < p.Length && !(at <= i < at + 4) ==> p[i] == old(p[i])
  {
    ShiftedBytes(v);
    p[at] := v % 0x100;
    p[at + 1] := v / 0x100 % 0x100;
    p[at + 2] := v / 0x1_0000 % 0x100;
    p[at + 3] := v / 0x100_0000 % 0x100;
  }

  method StoreBe32(p: array<byte>, v: nat)
    requires 4 <= p.Length
    modifies p
    ensures p[0..4] == PutBe32(v)
    ensures forall i :: 4 <= i < p.Length ==> p[i] == old(p[i])
  {
    ShiftedBytes(v);
    p[0] := v / 0x100_0000 % 0x100;
    p[1] := v / 0x1_0000 % 0x100;
    p[2] := v / 0x100 % 0x100;
    p[3] := v % 0x100;
  }

  lemma ZeroWord()
    ensures PutLe32(0) == [0, 0, 0, 0]
  {
    ShiftedBytes(0);
  }

  lemma AssembledHeader(p: seq<byte>, size: nat, first: nat)
    requires |p| >= HEADER_SIZE
    requires p[0..4] == PutBe32(size) && p[4..8] == VERSION && p[12..16] == PutLe32(size) && p[20..24] == PutLe32(first)
    requires p[8..12] == p[16..20] == p[24..28] == PutLe32(0)
    ensures p[..HEADER_SIZE] == Header(size, 0, first, 0)
  {
    assert p[..28] == p[0..4] + p[4..8] + p[8..12] + p[12..16] + p[16..20] + p[20..24] + p[24..28];
  }

  /** Write the request header over the first 28 bytes of the buffer. */
  method WriteRequestHeader(p: array<byte>, reportSize: nat)
    requires p.Length >= HEADER_SIZE && reportSize < U32
    modifies p
    ensures p[..HEADER_SIZE] == RequestHeader(reportSize)
    ensures p[HEADER_SIZE..] == old(p[HEADER_SIZE..])
  {
    var size := (MESSAGE_SIZE + reportSize) % U32;
    forall i | 0 <= i < HEADER_SIZE { p[i] := 0; }
    StoreBe32(p, size);
    ghost var prefix := p[0..4];
    p[4] := 1;
    p[6] := 1;
    assert p[0..4] == prefix;
    StoreLe32(p, 12, size);
    assert p[0..4] == prefix;
    ghost var sizeWord := p[12..16];
    StoreLe32(p, 20, reportSize);
    assert p[0..4] == prefix && p[12..16] == sizeWord;
    ZeroWord();
    AssembledHeader(p[..], size, reportSize);
  }

  datatype Status = InFlight | Success | Error

  /** What has been received so far. */
  datatype Progress = Receiving(bytes: seq<byte>) | Succeeded(quote: seq<byte>) | Failed

  /** The effect of one read; an empty read is the end of the stream. */
  function Receive(p: Progress, chunk: seq<byte>, capacity: nat): Progress {
    if !p.Receiving? then p
    else if chunk == [] then Failed
    else match ParseResponse(p.bytes + chunk, capacity)
      case Invalid => Failed
      case Incomplete => Receiving(p.bytes + chunk)
      case Complete(n) => Succeeded((p.bytes + chunk)[HEADER_SIZE..])
  }

  class Task {
    var sendData: array<byte>
    const receiveBuf: array<byte>
    const payloadLen: nat
    var received: nat
    var status: Status

    /** While receiving there is room for at least one more byte, unless nothing fits at all. */
    ghost predicate Valid()
      reads this
    {
      && receiveBuf.Length == payloadLen && received <= payloadLen
      && (status == InFlight ==> received < payloadLen || received == 0)
    }

    ghost function Progress(): Progress
      requires Valid()
      reads this, receiveBuf
    {
      match status
      case InFlight => Receiving(receiveBuf[..received])
      case Success => Succeeded(receiveBuf[..received])
      case Error => Failed
    }

    constructor (report: seq<byte>, payloadLen: nat)
      ensures Valid() && this.payloadLen == payloadLen && Progress() == Receiving([])
      ensures fresh(sendData) && fresh(receiveBuf) && sendData != receiveBuf && sendData[..] == report
    {
      var data := new byte[|report|](i requires 0 <= i < |report| => report[i]);
      sendData := data;
      receiveBuf := new byte[payloadLen];
      this.payloadLen := payloadLen;
      received := 0;
      status := InFlight;
    }

    /** Grow the buffer by 28 bytes, shift the report up over itself and write the header before it. */
    method FrameRequest()
      requires Valid()
      modifies this`sendData
      ensures Valid() && fresh(sendData)
      ensures sendData[..] == RequestHeader(old(sendData.Length) % U32) + old(sendData[..])
    {
      var n := sendData.Length;
      var report := sendData[..];
      var grown := new byte[n + HEADER_SIZE](i requires 0 <= i < n + HEADER_SIZE => if i < n then report[i] else 0);
      assert grown[0..n] == report;
      Memmove(grown, HEADER_SIZE, 0, n);
      assert grown[HEADER_SIZE..] == report;
      WriteRequestHeader(grown, n % U32);
      assert grown[..] == grown[..HEADER_SIZE] + grown[HEADER_SIZE..];
      sendData := grown;
    }

    /** The socket is readable: chunk is what one read delivered into the rest of the buffer. */
    method OnReadable(chunk: seq<byte>)
      requires Valid() && status == InFlight && received + |chunk| <= payloadLen
      modifies this`received, this`status, receiveBuf
      ensures Valid()
      ensures Progress() == Receive(old(Progress()), chunk, payloadLen)
      ensures status == InFlight ==> received > old(received)
    {
      ghost var before := receiveBuf[..received];
      forall i | 0 <= i < |chunk| { receiveBuf[received + i] := chunk[i]; }
      assert receiveBuf[..received + |chunk|] == before + chunk;
      if chunk == [] {
        status := Error;
        return;
      }
      received := received + |chunk|;
      var verdict := ParseResponse(receiveBuf[..received], payloadLen);
      match verdict
      case Invalid =>
        status := Error;
      case Complete(quoteSize) =>
        ghost var frame := receiveBuf[..received];
        assert |frame| == HEADER_SIZE + quoteSize;
        Memmove(receiveBuf, 0, HEADER_SIZE, quoteSize);
        assert receiveBuf[..quoteSize] == frame[HEADER_SIZE..];
        received := quoteSize;
        status := Success;
      case Incomplete =>
        IncompleteLeavesRoom(receiveBuf[..received], payloadLen);
    }
  }
}
