/** Receiving a response over every possible division of the stream into reads. */
module QuoteStream {
  import opened Bytes
  import opened Qgs
  import opened QuoteTask

  function ReceiveAll(p: Progress, chunks: seq<seq<byte>>, capacity: nat): Progress
    decreases chunks
  {
    if chunks == [] then p else ReceiveAll(Receive(p, chunks[0], capacity), chunks[1..], capacity)
  }

  function Concat(chunks: seq<seq<byte>>): seq<byte> {
    if chunks == [] then [] else chunks[0] + Concat(chunks[1..])
  }

  /** No read reported the end of the stream. */
  predicate NoEnd(chunks: seq<seq<byte>>) {
    forall i :: 0 <= i < |chunks| ==> chunks[i] != []
  }

  lemma {:induction false} SettledStays(p: Progress, chunks: seq<seq<byte>>, capacity: nat)
    requires !p.Receiving?
    ensures ReceiveAll(p, chunks, capacity) == p
  {
    if chunks != [] { SettledStays(p, chunks[1..], capacity); }
  }

  lemma {:induction false} ReceiveInParts(p: Progress, a: seq<seq<byte>>, b: seq<seq<byte>>, capacity: nat)
    decreases a
    ensures ReceiveAll(p, a + b, capacity) == ReceiveAll(ReceiveAll(p, a, capacity), b, capacity)
  {
    if a == [] {
      assert a + b == b;
    } else {
      assert (a + b)[1..] == a[1..] + b;
      ReceiveInParts(Receive(p, a[0], capacity), a[1..], b, capacity);
    }
  }

  /** One read inside a frame: either the frame is now whole, or the receiver waits for the rest. */
  lemma ReadWithinFrame(begun: seq<byte>, chunk: seq<byte>, quote: seq<byte>, capacity: nat)
    requires Fits(quote, capacity) && chunk != []
    requires |begun + chunk| <= |ResponseFrame(quote)| && begun + chunk == ResponseFrame(quote)[..|begun + chunk|]
    ensures Receive(Receiving(begun), chunk, capacity)
         == if begun + chunk == ResponseFrame(quote) then Succeeded(quote) else Receiving(begun + chunk)
  {
    if begun + chunk == ResponseFrame(quote) {
      ParsePrinted(quote, capacity);
    } else {
      ProperPrefixIsIncomplete(quote, |begun + chunk|, capacity);
    }
  }

  /** However the rest of a frame is cut into reads, all of it is received. */
  lemma {:induction false} FrameIsReceived(begun: seq<byte>, chunks: seq<seq<byte>>, quote: seq<byte>, capacity: nat)
    requires Fits(quote, capacity) && NoEnd(chunks)
    requires begun + Concat(chunks) == ResponseFrame(quote) && begun != ResponseFrame(quote)
    ensures ReceiveAll(Receiving(begun), chunks, capacity) == Succeeded(quote)
    decreases chunks
  {
    var frame := ResponseFrame(quote);
    assert begun + [] == begun;
    if chunks != [] {
      var bytes, rest := begun + chunks[0], chunks[1..];
      assert begun + (chunks[0] + Concat(rest)) == bytes + Concat(rest);
      ReadWithinFrame(begun, chunks[0], quote, capacity);
      if bytes == frame {
        SettledStays(Succeeded(quote), rest, capacity);
      } else {
        FrameIsReceived(bytes, rest, quote, capacity);
      }
    }
  }

  /** The reads up to the k-th delivered the frame of this quote. */
  ghost predicate DeliveredBy(begun: seq<byte>, chunks: seq<seq<byte>>, k: nat, quote: seq<byte>) {
    k <= |chunks| && NoEnd(chunks[..k]) && begun + Concat(chunks[..k]) == ResponseFrame(quote)
  }

  ghost predicate Delivered(chunks: seq<seq<byte>>, quote: seq<byte>) {
    exists k: nat :: DeliveredBy([], chunks, k, quote)
  }

  lemma PrefixWithFirst(chunks: seq<seq<byte>>, k: nat)
    requires k < |chunks| && chunks[0] != [] && NoEnd(chunks[1..][..k])
    ensures NoEnd(chunks[..k + 1]) && Concat(chunks[..k + 1]) == chunks[0] + Concat(chunks[1..][..k])
  {
    assert chunks[..k + 1] == [chunks[0]] + chunks[1..][..k];
  }

  /** The read that completes a response completes the frame. */
  lemma LastRead(begun: seq<byte>, chunks: seq<seq<byte>>, quote: seq<byte>, capacity: nat)
    requires chunks != [] && Receive(Receiving(begun), chunks[0], capacity) == Succeeded(quote)
    ensures Fits(quote, capacity) && DeliveredBy(begun, chunks, 1, quote)
  {
    var bytes := begun + chunks[0];
    CompleteIffPrinted(bytes, capacity, |bytes| - HEADER_SIZE);
    PrefixWithFirst(chunks, 0);
    assert chunks[0] + Concat([]) == chunks[0];
    assert chunks[1..][..0] == [];
  }

  lemma EarlierRead(begun: seq<byte>, chunks: seq<seq<byte>>, k: nat, quote: seq<byte>)
    requires chunks != [] && chunks[0] != [] && DeliveredBy(begun + chunks[0], chunks[1..], k, quote)
    ensures DeliveredBy(begun, chunks, k + 1, quote)
  {
    PrefixWithFirst(chunks, k);
    assert begun + (chunks[0] + Concat(chunks[1..][..k])) == begun + chunks[0] + Concat(chunks[1..][..k]);
  }

  lemma {:induction false} SuccessNeedsAFrame(begun: seq<byte>, chunks: seq<seq<byte>>, quote: seq<byte>, capacity: nat)
    requires ReceiveAll(Receiving(begun), chunks, capacity) == Succeeded(quote)
    ensures Fits(quote, capacity) && exists k: nat :: DeliveredBy(begun, chunks, k, quote)
    decreases chunks
  {
    var bytes, rest := begun + chunks[0], chunks[1..];
    var next := Receive(Receiving(begun), chunks[0], capacity);
    if next.Receiving? {
      SuccessNeedsAFrame(bytes, rest, quote, capacity);
      var k: nat :| DeliveredBy(bytes, rest, k, quote);
      EarlierRead(begun, chunks, k, quote);
    } else {
      SettledStays(next, rest, capacity);
      LastRead(begun, chunks, quote, capacity);
    }
  }

  /** Receiving succeeds with a quote exactly when, before any end of stream, the reads added
      up to the well-formed frame of that nonempty quote within the buffer. How the bytes
      were divided makes no difference. */
  lemma SucceedsIffFrameDelivered(chunks: seq<seq<byte>>, quote: seq<byte>, capacity: nat)
    ensures ReceiveAll(Receiving([]), chunks, capacity) == Succeeded(quote)
       <==> Fits(quote, capacity) && Delivered(chunks, quote)
  {
    if ReceiveAll(Receiving([]), chunks, capacity) == Succeeded(quote) {
      SuccessNeedsAFrame([], chunks, quote, capacity);
    }
    if Fits(quote, capacity) && Delivered(chunks, quote) {
      var k: nat :| DeliveredBy([], chunks, k, quote);
      FrameIsReceived([], chunks[..k], quote, capacity);
      assert chunks == chunks[..k] + chunks[k..];
      ReceiveInParts(Receiving([]), chunks[..k], chunks[k..], capacity);
      SettledStays(Succeeded(quote), chunks[k..], capacity);
    }
  }

  // ----- When receiving fails -----

  /** After each of the first k reads there was something to wait for. */
  ghost predicate Waited(begun: seq<byte>, chunks: seq<seq<byte>>, k: nat, capacity: nat)
    requires k <= |chunks|
  {
    forall j :: 0 <= j < k ==> WaitedAt(begun, chunks, j, capacity)
  }

  ghost predicate WaitedAt(begun: seq<byte>, chunks: seq<seq<byte>>, j: nat, capacity: nat)
    requires j < |chunks|
  {
    chunks[j] != [] && ParseResponse(begun + Concat(chunks[..j + 1]), capacity).Incomplete?
  }

  /** The k-th read is the end of the stream, or makes the bytes so far invalid. */
  ghost predicate FailsAt(begun: seq<byte>, chunks: seq<seq<byte>>, k: nat, capacity: nat) {
    && k < |chunks| && Waited(begun, chunks, k, capacity)
    && (chunks[k] == [] || ParseResponse(begun + Concat(chunks[..k + 1]), capacity).Invalid?)
  }

  lemma ConcatFirst(begun: seq<byte>, chunks: seq<seq<byte>>, k: nat)
    requires k < |chunks|
    ensures begun + Concat(chunks[..k + 1]) == begun + chunks[0] + Concat(chunks[1..][..k])
  {
    assert chunks[..k + 1] == [chunks[0]] + chunks[1..][..k];
    assert begun + (chunks[0] + Concat(chunks[1..][..k])) == begun + chunks[0] + Concat(chunks[1..][..k]);
  }

  /** Counting the reads from the second one on. */
  lemma FailsLater(begun: seq<byte>, chunks: seq<seq<byte>>, k: nat, capacity: nat)
    requires chunks != [] && WaitedAt(begun, chunks, 0, capacity)
    ensures FailsAt(begun + chunks[0], chunks[1..], k, capacity) <==> FailsAt(begun, chunks, k + 1, capacity)
  {
    var rest := chunks[1..];
    if k < |rest| {
      forall j | 0 <= j <= k
        ensures begun + Concat(chunks[..j + 2]) == begun + chunks[0] + Concat(rest[..j + 1]) && chunks[j + 1] == rest[j]
      {
        ConcatFirst(begun, chunks, j + 1);
      }
      forall j | 0 <= j < k
        ensures WaitedAt(begun, chunks, j + 1, capacity) <==> WaitedAt(begun + chunks[0], rest, j, capacity)
      {
      }
      if Waited(begun + chunks[0], rest, k, capacity) {
        forall j | 0 <= j < k + 1 ensures WaitedAt(begun, chunks, j, capacity) {
          if j > 0 { assert WaitedAt(begun + chunks[0], rest, j - 1, capacity); }
        }
      }
      if Waited(begun, chunks, k + 1, capacity) {
        forall j | 0 <= j < k ensures WaitedAt(begun + chunks[0], rest, j, capacity) {
          assert WaitedAt(begun, chunks, j + 1, capacity);
        }
      }
    }
  }

  /** Receiving fails exactly at a first read that is the end of the stream or makes what came so far
      invalid, all reads before it having left something to wait for. */
  lemma {:induction false} FailsIff(begun: seq<byte>, chunks: seq<seq<byte>>, capacity: nat)
    ensures ReceiveAll(Receiving(begun), chunks, capacity).Failed? <==> exists k: nat :: FailsAt(begun, chunks, k, capacity)
    decreases chunks
  {
    if chunks != [] {
      var next, rest := Receive(Receiving(begun), chunks[0], capacity), chunks[1..];
      ConcatFirst(begun, chunks, 0);
      assert begun + chunks[0] + Concat(rest[..0]) == begun + chunks[0];
      if next.Receiving? {
        FailsIff(begun + chunks[0], rest, capacity);
        assert WaitedAt(begun, chunks, 0, capacity);
        ShiftedFailure(begun, chunks, capacity);
      } else {
        SettledStays(next, rest, capacity);
        assert !WaitedAt(begun, chunks, 0, capacity);
        assert next.Failed? <==> FailsAt(begun, chunks, 0, capacity);
        assert forall k: nat :: FailsAt(begun, chunks, k, capacity) ==> k == 0;
      }
    }
  }

  lemma ShiftedFailure(begun: seq<byte>, chunks: seq<seq<byte>>, capacity: nat)
    requires chunks != [] && WaitedAt(begun, chunks, 0, capacity)
    ensures (exists k: nat :: FailsAt(begun, chunks, k, capacity))
       <==> (exists k: nat :: FailsAt(begun + chunks[0], chunks[1..], k, capacity))
  {
    if k: nat :| FailsAt(begun, chunks, k, capacity) {
      assert k > 0;
      FailsLater(begun, chunks, k - 1, capacity);
      assert FailsAt(begun + chunks[0], chunks[1..], k - 1, capacity);
    }
    if k: nat :| FailsAt(begun + chunks[0], chunks[1..], k, capacity) {
      FailsLater(begun, chunks, k, capacity);
      assert FailsAt(begun, chunks, k + 1, capacity);
    }
  }

  /** Each read brings no more than the room left at that moment. */
  predicate ReadsFit(p: Progress, chunks: seq<seq<byte>>, capacity: nat)
    decreases chunks
  {
    chunks == [] || !p.Receiving?
    || (|p.bytes| + |chunks[0]| <= capacity && ReadsFit(Receive(p, chunks[0], capacity), chunks[1..], capacity))
  }

  /** The socket becomes readable again and again until the response is settled. */
  method ReceiveReads(task: Task, chunks: seq<seq<byte>>)
    requires task.Valid() && ReadsFit(task.Progress(), chunks, task.payloadLen)
    modifies task`received, task`status, task.receiveBuf
    ensures task.Valid() && task.Progress() == ReceiveAll(old(task.Progress()), chunks, task.payloadLen)
  {
    ghost var whole := ReceiveAll(task.Progress(), chunks, task.payloadLen);
    var i := 0;
    assert chunks[0..] == chunks;
    while i < |chunks| && task.status == InFlight
      invariant 0 <= i <= |chunks| && task.Valid()
      invariant ReadsFit(task.Progress(), chunks[i..], task.payloadLen)
      invariant ReceiveAll(task.Progress(), chunks[i..], task.payloadLen) == whole
    {
      assert chunks[i..][0] == chunks[i] && chunks[i..][1..] == chunks[i + 1..];
      task.OnReadable(chunks[i]);
      i := i + 1;
    }
    if task.status != InFlight {
      SettledStays(task.Progress(), chunks[i..], task.payloadLen);
    }
  }
}
