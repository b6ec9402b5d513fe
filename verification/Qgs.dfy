/** Framing of QGS messages: a big-endian stream length, then a little-endian message. */
module Qgs {
  import opened Bytes

  const PREFIX_SIZE: nat := 4
  const MESSAGE_SIZE: nat := 24
  const HEADER_SIZE: nat := 28
  const U32: nat := 0x1_0000_0000

  function Le32(p: seq<byte>, at: nat): nat
    requires at + 4 <= |p|
  {
    LittleEndian(p[at..at + 4])
  }

  function Be32(p: seq<byte>, at: nat): nat
    requires at + 4 <= |p|
  {
    BigEndian(p[at..at + 4])
  }

  function PutLe32(v: nat): (s: seq<byte>)
    ensures |s| == 4
  {
    LittleEndianBytes(v, 4)
  }

  function PutBe32(v: nat): (s: seq<byte>)
    ensures |s| == 4
  {
    Reverse(LittleEndianBytes(v, 4))
  }

  lemma FourBytes()
    ensures BytePower(4) == U32
  {
    assert BytePower(2) == 0x1_0000;
  }

  lemma WordOfBytes(v: nat)
    requires v < U32
    ensures LittleEndian(PutLe32(v)) == v
    ensures BigEndian(PutBe32(v)) == v
  {
    FourBytes();
    EncodeDecode(v, 4);
    ReverseExchanges(LittleEndianBytes(v, 4));
  }

  lemma BytesOfWord(w: seq<byte>)
    requires |w| == 4
    ensures LittleEndian(w) < U32 && PutLe32(LittleEndian(w)) == w
    ensures BigEndian(w) < U32 && PutBe32(BigEndian(w)) == w
  {
    FourBytes();
    DecodeEncode(w);
    DecodeEncode(Reverse(w));
    ReverseExchanges(Reverse(w));
    ReverseTwice(w);
  }

  const VERSION: seq<byte> := [1, 0, 1, 0]

  /** Seven words: stream length, version, type, message size, error code, and two lengths. */
  function Header(size: nat, kind: nat, first: nat, second: nat): (h: seq<byte>)
    ensures |h| == HEADER_SIZE
  {
    PutBe32(size) + VERSION + PutLe32(kind) + PutLe32(size) + PutLe32(0) + PutLe32(first) + PutLe32(second)
  }

  lemma SevenWords(a: seq<byte>, b: seq<byte>, c: seq<byte>, d: seq<byte>, e: seq<byte>, f: seq<byte>, g: seq<byte>,
                   rest: seq<byte>)
    requires |a| == |b| == |c| == |d| == |e| == |f| == |g| == 4
    ensures var p := a + b + c + d + e + f + g + rest;
            && p[0..4] == a && p[4..8] == b && p[8..12] == c && p[12..16] == d
            && p[16..20] == e && p[20..24] == f && p[24..28] == g && p[28..] == rest
  {
  }

  lemma HeaderWords(size: nat, kind: nat, first: nat, second: nat, rest: seq<byte>)
    requires size < U32 && kind < U32 && first < U32 && second < U32
    ensures var p := Header(size, kind, first, second) + rest;
            && Be32(p, 0) == size && p[4..8] == VERSION && Le32(p, 8) == kind && Le32(p, 12) == size
            && Le32(p, 16) == 0 && Le32(p, 20) == first && Le32(p, 24) == second && p[HEADER_SIZE..] == rest
  {
    WordOfBytes(size);
    WordOfBytes(kind);
    WordOfBytes(0);
    WordOfBytes(first);
    WordOfBytes(second);
    SevenWords(PutBe32(size), VERSION, PutLe32(kind), PutLe32(size), PutLe32(0), PutLe32(first), PutLe32(second), rest);
  }

  /** A byte string with these words is the header that carries them. */
  lemma WordsAreHeader(p: seq<byte>, size: nat, kind: nat, first: nat, second: nat)
    requires |p| >= HEADER_SIZE && p[4..8] == VERSION
    requires Be32(p, 0) == size && Le32(p, 8) == kind && Le32(p, 12) == size && Le32(p, 16) == 0
    requires Le32(p, 20) == first && Le32(p, 24) == second
    ensures p[..HEADER_SIZE] == Header(size, kind, first, second)
  {
    BytesOfWord(p[0..4]);
    BytesOfWord(p[8..12]);
    BytesOfWord(p[12..16]);
    BytesOfWord(p[16..20]);
    BytesOfWord(p[20..24]);
    BytesOfWord(p[24..28]);
    assert p[..28] == p[0..4] + p[4..8] + p[8..12] + p[12..16] + p[16..20] + p[20..24] + p[24..28];
  }

  /** The request header for a report of the given 32-bit size; the sum wraps at 32 bits. */
  function RequestHeader(reportSize: nat): (h: seq<byte>)
    requires reportSize < U32
    ensures |h| == HEADER_SIZE
  {
    Header((MESSAGE_SIZE + reportSize) % U32, 0, reportSize, 0)
  }

  /** What the server sends for a quote. */
  function ResponseFrame(quote: seq<byte>): (frame: seq<byte>)
    ensures |frame| == HEADER_SIZE + |quote|
  {
    Header(MESSAGE_SIZE + |quote|, 1, 0, |quote|) + quote
  }

  datatype Verdict = Invalid | Incomplete | Complete(quoteSize: nat)

  /** The fields after the length prefix of a response of the given message size. */
  predicate HeaderMatches(p: seq<byte>, size: nat)
    requires |p| >= HEADER_SIZE && size >= MESSAGE_SIZE
  {
    && p[4] == 1 && p[5] == 0 && p[6] == 1 && p[7] == 0
    && Le32(p, 8) == 1
    && Le32(p, 12) == size
    && Le32(p, 16) == 0
    && Le32(p, 20) == 0
    && Le32(p, 24) == size - MESSAGE_SIZE
  }

  /** Judge the bytes received so far against the capacity of the buffer. */
  function ParseResponse(p: seq<byte>, capacity: nat): Verdict {
    if |p| > capacity || capacity < HEADER_SIZE then Invalid
    else if |p| < PREFIX_SIZE then Incomplete
    else
      var size := Be32(p, 0);
      if size <= MESSAGE_SIZE || size > capacity - PREFIX_SIZE || |p| > PREFIX_SIZE + size then Invalid
      else if |p| < HEADER_SIZE then Incomplete
      else if !HeaderMatches(p, size) then Invalid
      else if |p| != PREFIX_SIZE + size then Incomplete
      else Complete(size - MESSAGE_SIZE)
  }

  /** The frame of this quote can be received into a buffer of this capacity. */
  predicate Fits(quote: seq<byte>, capacity: nat) {
    quote != [] && HEADER_SIZE + |quote| <= capacity && MESSAGE_SIZE + |quote| < U32
  }

  lemma PartsOfFrame(quote: seq<byte>)
    requires MESSAGE_SIZE + |quote| < U32
    ensures var p := ResponseFrame(quote);
            Be32(p, 0) == MESSAGE_SIZE + |quote| && HeaderMatches(p, MESSAGE_SIZE + |quote|) && p[HEADER_SIZE..] == quote
  {
    var p := ResponseFrame(quote);
    HeaderWords(MESSAGE_SIZE + |quote|, 1, 0, |quote|, quote);
    assert p[4] == p[4..8][0] && p[5] == p[4..8][1] && p[6] == p[4..8][2] && p[7] == p[4..8][3];
  }

  /** A header with matching fields is the printed one. */
  lemma MatchingHeaderIsPrinted(p: seq<byte>)
    requires |p| > HEADER_SIZE && Be32(p, 0) == |p| - PREFIX_SIZE && HeaderMatches(p, |p| - PREFIX_SIZE)
    ensures p == ResponseFrame(p[HEADER_SIZE..]) && |p| - PREFIX_SIZE < U32
  {
    assert p[4..8] == VERSION;
    WordsAreHeader(p, |p| - PREFIX_SIZE, 1, 0, |p| - HEADER_SIZE);
    BytesOfWord(p[0..4]);
    assert p == p[..HEADER_SIZE] + p[HEADER_SIZE..];
  }

  /** The parser accepts exactly the printed frames of nonempty quotes that fit. */
  lemma CompleteIffPrinted(p: seq<byte>, capacity: nat, n: nat)
    ensures ParseResponse(p, capacity) == Complete(n)
       <==> |p| == HEADER_SIZE + n && p == ResponseFrame(p[HEADER_SIZE..]) && Fits(p[HEADER_SIZE..], capacity)
  {
    if ParseResponse(p, capacity) == Complete(n) {
      MatchingHeaderIsPrinted(p);
    }
    if |p| == HEADER_SIZE + n && p == ResponseFrame(p[HEADER_SIZE..]) && Fits(p[HEADER_SIZE..], capacity) {
      PartsOfFrame(p[HEADER_SIZE..]);
    }
  }

  /** Parsing undoes printing. */
  lemma ParsePrinted(quote: seq<byte>, capacity: nat)
    requires Fits(quote, capacity)
    ensures ParseResponse(ResponseFrame(quote), capacity) == Complete(|quote|)
    ensures ResponseFrame(quote)[HEADER_SIZE..] == quote
  {
    PartsOfFrame(quote);
  }

  lemma SameHeader(p: seq<byte>, q: seq<byte>)
    requires HEADER_SIZE <= |p| <= |q| && p == q[..|p|]
    ensures forall size :: size >= MESSAGE_SIZE ==> HeaderMatches(p, size) == HeaderMatches(q, size)
  {
    assert p[8..12] == q[8..12] && p[12..16] == q[12..16] && p[16..20] == q[16..20];
    assert p[20..24] == q[20..24] && p[24..28] == q[24..28];
  }

  /** More bytes never rescue a rejected prefix. */
  lemma RejectionIsFinal(p: seq<byte>, more: seq<byte>, capacity: nat)
    requires ParseResponse(p, capacity).Invalid?
    ensures ParseResponse(p + more, capacity).Invalid?
  {
    var q := p + more;
    if PREFIX_SIZE <= |p| { assert q[0..4] == p[0..4]; }
    if HEADER_SIZE <= |p| { SameHeader(p, q); }
  }

  /** Every proper prefix of a frame that fits is incomplete, never accepted or rejected. */
  lemma ProperPrefixIsIncomplete(quote: seq<byte>, i: nat, capacity: nat)
    requires Fits(quote, capacity) && i < HEADER_SIZE + |quote|
    ensures ParseResponse(ResponseFrame(quote)[..i], capacity).Incomplete?
  {
    PartsOfFrame(quote);
    var p, frame := ResponseFrame(quote)[..i], ResponseFrame(quote);
    if PREFIX_SIZE <= i { assert p[0..4] == frame[0..4]; }
    if HEADER_SIZE <= i { SameHeader(p, frame); }
  }

  /** A full buffer is always judged, so waiting for more bytes always leaves room for them. */
  lemma IncompleteLeavesRoom(p: seq<byte>, capacity: nat)
    requires ParseResponse(p, capacity).Incomplete?
    ensures |p| < capacity
  {
  }

  /** The bytes so far are a proper beginning of the frame of this quote. */
  predicate BeginsFrame(p: seq<byte>, quote: seq<byte>) {
    |p| < |ResponseFrame(quote)| && p == ResponseFrame(quote)[..|p|]
  }

  /** What is still missing may be anything: filled up, a waiting prefix is a frame. */
  lemma WaitingIsFilledUp(p: seq<byte>, capacity: nat)
    requires |p| >= HEADER_SIZE && ParseResponse(p, capacity).Incomplete?
    ensures exists quote :: Fits(quote, capacity) && BeginsFrame(p, quote)
  {
    var size := Be32(p, 0);
    var filled := p + seq(PREFIX_SIZE + size - |p|, _ => 0);
    assert filled[0..4] == p[0..4];
    SameHeader(p, filled);
    MatchingHeaderIsPrinted(filled);
    assert p == filled[..|p|];
    assert BeginsFrame(p, filled[HEADER_SIZE..]);
  }

  /** From 28 bytes on, the parser waits exactly for what can still become the frame of a quote that fits. */
  lemma WaitsIffBegun(p: seq<byte>, capacity: nat)
    requires |p| >= HEADER_SIZE
    ensures ParseResponse(p, capacity).Incomplete? <==> exists quote :: Fits(quote, capacity) && BeginsFrame(p, quote)
  {
    if ParseResponse(p, capacity).Incomplete? {
      WaitingIsFilledUp(p, capacity);
    }
    if quote :| Fits(quote, capacity) && BeginsFrame(p, quote) {
      ProperPrefixIsIncomplete(quote, |p|, capacity);
    }
  }

  /** Before that it looks at the announced length alone, and only once it has all four bytes of it. */
  lemma WaitsForHeaderIff(p: seq<byte>, capacity: nat)
    requires |p| < HEADER_SIZE
    ensures |p| < 4 ==> (ParseResponse(p, capacity).Incomplete? <==> capacity >= 28)
    ensures |p| >= 4 ==> (ParseResponse(p, capacity).Incomplete?
                     <==> exists quote :: Fits(quote, capacity) && p[..4] == ResponseFrame(quote)[..4])
  {
    if |p| >= 4 {
      assert p[..4] == p[0..4];
      if ParseResponse(p, capacity).Incomplete? {
        var quote := seq(Be32(p, 0) - MESSAGE_SIZE, _ => 0);
        BytesOfWord(p[0..4]);
        assert ResponseFrame(quote)[..4] == PutBe32(Be32(p, 0));
        assert Fits(quote, capacity);
      }
      if quote :| Fits(quote, capacity) && p[..4] == ResponseFrame(quote)[..4] {
        PartsOfFrame(quote);
        assert ResponseFrame(quote)[0..4] == ResponseFrame(quote)[..4];
      }
    }
  }

  /** Every word of a request header; the announced lengths are the true ones exactly when 24 plus the
      report size fits 32 bits. */
  lemma RequestWords(reportSize: nat)
    requires reportSize < U32
    ensures var h := RequestHeader(reportSize);
            && h[4..8] == [1, 0, 1, 0] && Le32(h, 8) == 0 && Le32(h, 16) == 0 && Le32(h, 24) == 0
            && Le32(h, 20) == reportSize
            && Be32(h, 0) == Le32(h, 12)
            && (Be32(h, 0) == 24 + reportSize <==> 24 + reportSize < 0x1_0000_0000)
  {
    var h := RequestHeader(reportSize);
    HeaderWords((MESSAGE_SIZE + reportSize) % U32, 0, reportSize, 0, []);
    assert h + [] == h;
  }

  /** Every word of a response frame, and the quote behind them. */
  lemma ResponseWords(quote: seq<byte>)
    requires 24 + |quote| < 0x1_0000_0000
    ensures var f := ResponseFrame(quote);
            && Be32(f, 0) == 24 + |quote| && f[4..8] == [1, 0, 1, 0] && Le32(f, 8) == 1 && Le32(f, 12) == 24 + |quote|
            && Le32(f, 16) == 0 && Le32(f, 20) == 0 && Le32(f, 24) == |quote| && f[28..] == quote
  {
    HeaderWords(MESSAGE_SIZE + |quote|, 1, 0, |quote|, quote);
  }
}
