/** The request context that is hashed into a quote: a JSON object with the nonce and the
    request, written by the verifier in Python and by the attester in Go. */
module RequestContext {
  import opened Bytes
  import opened Outcomes

  /** A Unicode scalar value. */
  type CodePoint = c: int | 0 <= c < 0x11_0000 && !(0xD800 <= c < 0xE000)

  const QUOTE: byte := 0x22
  const BACKSLASH: byte := 0x5C
  const LETTER_U: byte := 0x75

  /** Lower-case hexadecimal digit. */
  function HexDigit(n: nat): (b: byte)
    requires n < 16
    ensures 0x30 <= b <= 0x39 || 0x61 <= b <= 0x66
  {
    if n < 10 then 0x30 + n else 0x57 + n
  }

  /** Backslash, u and four hexadecimal digits. */
  function UnicodeEscape(n: nat): (s: seq<byte>)
    requires n < 0x1_0000
    ensures |s| == 6 && s[0] == BACKSLASH && s[1] == LETTER_U
  {
    [BACKSLASH, LETTER_U, HexDigit(n / 16 / 16 / 16), HexDigit(n / 16 / 16 % 16), HexDigit(n / 16 % 16), HexDigit(n % 16)]
  }

  /** The letter of a two-character escape, for the seven characters that have one. */
  function ShortEscape(c: CodePoint): Option<byte> {
    if c == 0x22 || c == 0x5C then Some(c)
    else if c == 0x08 then Some(0x62)
    else if c == 0x0C then Some(0x66)
    else if c == 0x0A then Some(0x6E)
    else if c == 0x0D then Some(0x72)
    else if c == 0x09 then Some(0x74)
    else None
  }

  /** The first UTF-16 unit of a character. */
  function FirstUnit(c: CodePoint): (u: nat)
    ensures u < 0x1_0000
    ensures c >= 0x1_0000 <==> 0xD800 <= u < 0xDC00
  {
    if c < 0x1_0000 then c else 0xD800 + (c - 0x1_0000) / 0x400
  }

  /** The second UTF-16 unit of a character outside the basic plane. */
  function SecondUnit(c: CodePoint): (u: nat)
    requires c >= 0x1_0000
    ensures 0xDC00 <= u < 0xE000
  {
    0xDC00 + (c - 0x1_0000) % 0x400
  }

  lemma UnitsDetermine(c: CodePoint, d: CodePoint)
    requires FirstUnit(c) == FirstUnit(d) && (c >= 0x1_0000 && d >= 0x1_0000 ==> SecondUnit(c) == SecondUnit(d))
    ensures c == d
  {
  }

  /** Python's default: everything outside printable ASCII is escaped. */
  function PythonEscape(c: CodePoint): (s: seq<byte>)
    ensures s != []
  {
    if ShortEscape(c).Some? then [BACKSLASH, ShortEscape(c).value]
    else if 0x20 <= c <= 0x7E then [c]
    else if c < 0x1_0000 then UnicodeEscape(FirstUnit(c))
    else UnicodeEscape(FirstUnit(c)) + UnicodeEscape(SecondUnit(c))
  }

  function Utf8(c: CodePoint): (s: seq<byte>)
    requires c >= 0x80
    ensures s != [] && s[0] >= 0xC2
  {
    if c < 0x800 then [0xC0 + c / 0x40, 0x80 + c % 0x40]
    else if c < 0x1_0000 then [0xE0 + c / 0x1000, 0x80 + c / 0x40 % 0x40, 0x80 + c % 0x40]
    else [0xF0 + c / 0x4_0000, 0x80 + c / 0x1000 % 0x40, 0x80 + c / 0x40 % 0x40, 0x80 + c % 0x40]
  }

  /** Go's default: HTML characters and line separators are escaped, other text is left in UTF-8. */
  function GoEscape(c: CodePoint): (s: seq<byte>)
    ensures s != []
  {
    if ShortEscape(c).Some? then [BACKSLASH, ShortEscape(c).value]
    else if c < 0x20 || c == 0x3C || c == 0x3E || c == 0x26 || c == 0x2028 || c == 0x2029 then UnicodeEscape(c)
    else if c < 0x80 then [c]
    else Utf8(c)
  }

  function PythonString(s: seq<CodePoint>): seq<byte> {
    if s == [] then [] else PythonEscape(s[0]) + PythonString(s[1..])
  }

  function GoString(s: seq<CodePoint>): seq<byte> {
    if s == [] then [] else GoEscape(s[0]) + GoString(s[1..])
  }

  function Hex(s: seq<byte>): (t: seq<byte>)
    ensures |t| == 2 * |s|
  {
    if s == [] then [] else [HexDigit(s[0] / 16), HexDigit(s[0] % 16)] + Hex(s[1..])
  }

  // {"nonce":"  and  ","request":"  and  "}
  const BEFORE_NONCE: seq<byte> := [0x7B, 0x22, 0x6E, 0x6F, 0x6E, 0x63, 0x65, 0x22, 0x3A, 0x22]
  const BEFORE_REQUEST: seq<byte> :=
    [0x22, 0x2C, 0x22, 0x72, 0x65, 0x71, 0x75, 0x65, 0x73, 0x74, 0x22, 0x3A, 0x22]
  const AFTER_REQUEST: seq<byte> := [0x22, 0x7D]

  function Assemble(nonceText: seq<byte>, requestText: seq<byte>): seq<byte> {
    BEFORE_NONCE + nonceText + BEFORE_REQUEST + requestText + AFTER_REQUEST
  }

  /** The verifier's encoding of its own nonce bytes. */
  function PythonContext(nonce: seq<byte>, request: seq<CodePoint>): seq<byte> {
    Assemble(Hex(nonce), PythonString(request))
  }

  /** The attester's encoding of the nonce text it was sent. */
  function GoContext(nonceText: seq<byte>, request: seq<CodePoint>): seq<byte> {
    Assemble(nonceText, GoString(request))
  }

  // ----- The encoding is injective -----

  lemma HexDigitInjective(a: nat, b: nat)
    requires a < 16 && b < 16 && HexDigit(a) == HexDigit(b)
    ensures a == b
  {
  }

  lemma {:induction false} HexInjective(a: seq<byte>, b: seq<byte>)
    requires |a| == |b| && Hex(a) == Hex(b)
    ensures a == b
  {
    if a != [] {
      assert Hex(a)[2..] == Hex(a[1..]) && Hex(b)[2..] == Hex(b[1..]);
      assert HexDigit(a[0] / 16) == Hex(a)[0] == Hex(b)[0] && HexDigit(a[0] % 16) == Hex(a)[1] == Hex(b)[1];
      HexDigitInjective(a[0] / 16, b[0] / 16);
      HexDigitInjective(a[0] % 16, b[0] % 16);
      HexInjective(a[1..], b[1..]);
    }
  }

  lemma UnicodeEscapeInjective(a: nat, b: nat)
    requires a < 0x1_0000 && b < 0x1_0000 && UnicodeEscape(a) == UnicodeEscape(b)
    ensures a == b
  {
    var s, t := UnicodeEscape(a), UnicodeEscape(b);
    assert s[2] == t[2] && s[3] == t[3] && s[4] == t[4] && s[5] == t[5];
    HexDigitInjective(a % 16, b % 16);
    HexDigitInjective(a / 16 % 16, b / 16 % 16);
    HexDigitInjective(a / 16 / 16 % 16, b / 16 / 16 % 16);
    HexDigitInjective(a / 16 / 16 / 16, b / 16 / 16 / 16);
  }

  /** The characters Python writes as one or two UTF-16 units. */
  predicate Spelled(c: CodePoint) {
    ShortEscape(c).None? && !(0x20 <= c <= 0x7E)
  }

  lemma SpelledUnambiguous(c: CodePoint, d: CodePoint, x: seq<byte>, y: seq<byte>)
    requires Spelled(c) && Spelled(d) && PythonEscape(c) + x == PythonEscape(d) + y
    ensures c == d
  {
    var text := PythonEscape(c) + x;
    assert text[..6] == UnicodeEscape(FirstUnit(c)) && text[..6] == UnicodeEscape(FirstUnit(d));
    UnicodeEscapeInjective(FirstUnit(c), FirstUnit(d));
    if c >= 0x1_0000 && d >= 0x1_0000 {
      assert text[6..12] == UnicodeEscape(SecondUnit(c)) && text[6..12] == UnicodeEscape(SecondUnit(d));
      UnicodeEscapeInjective(SecondUnit(c), SecondUnit(d));
    }
    UnitsDetermine(c, d);
  }

  /** The first character of an encoded text is determined by the text. */
  lemma EscapeUnambiguous(c: CodePoint, d: CodePoint, x: seq<byte>, y: seq<byte>)
    requires PythonEscape(c) + x == PythonEscape(d) + y
    ensures c == d
  {
    var text := PythonEscape(c) + x;
    assert text[0] == PythonEscape(c)[0] && text[0] == PythonEscape(d)[0];
    if Spelled(c) && Spelled(d) {
      SpelledUnambiguous(c, d, x, y);
    } else if text[0] == BACKSLASH {
      assert text[1] == PythonEscape(c)[1] && text[1] == PythonEscape(d)[1];
    }
  }

  lemma {:induction false} PythonStringInjective(a: seq<CodePoint>, b: seq<CodePoint>)
    requires PythonString(a) == PythonString(b)
    ensures a == b
  {
    if a != [] && b != [] {
      var x, y := PythonString(a[1..]), PythonString(b[1..]);
      EscapeUnambiguous(a[0], b[0], x, y);
      assert (PythonEscape(a[0]) + x)[|PythonEscape(a[0])|..] == x;
      assert (PythonEscape(b[0]) + y)[|PythonEscape(b[0])|..] == y;
      PythonStringInjective(a[1..], b[1..]);
    }
  }

  lemma AssembledParts(nonceText: seq<byte>, requestText: seq<byte>)
    ensures var s := Assemble(nonceText, requestText);
            && s[10..10 + |nonceText|] == nonceText
            && s[23 + |nonceText|..|s| - 2] == requestText
  {
  }

  /** A context determines the nonce and the request. */
  lemma ContextInjective(nonce: seq<byte>, request: seq<CodePoint>, nonce': seq<byte>, request': seq<CodePoint>)
    requires |nonce| == |nonce'| && PythonContext(nonce, request) == PythonContext(nonce', request')
    ensures nonce == nonce' && request == request'
  {
    AssembledParts(Hex(nonce), PythonString(request));
    AssembledParts(Hex(nonce'), PythonString(request'));
    HexInjective(nonce, nonce');
    PythonStringInjective(request, request');
  }

  // ----- What each escaping is for -----

  predicate IsPrintable(s: seq<byte>) {
    forall i :: 0 <= i < |s| ==> 0x20 <= s[i] <= 0x7E
  }

  predicate IsHtmlSafe(s: seq<byte>) {
    forall i :: 0 <= i < |s| ==> s[i] >= 0x20 && s[i] != 0x3C && s[i] != 0x3E && s[i] != 0x26
  }

  lemma EscapeIsPrintable(c: CodePoint)
    ensures IsPrintable(PythonEscape(c))
  {
  }

  lemma EscapeIsHtmlSafe(c: CodePoint)
    ensures IsHtmlSafe(GoEscape(c))
  {
  }

  /** Python writes printable ASCII only. */
  lemma {:induction false} PythonIsAscii(s: seq<CodePoint>)
    ensures IsPrintable(PythonString(s))
  {
    hide PythonEscape;
    if s != [] {
      EscapeIsPrintable(s[0]);
      PythonIsAscii(s[1..]);
    }
  }

  /** Go writes no control character, and none of the characters HTML treats specially. */
  lemma {:induction false} GoIsHtmlSafe(s: seq<CodePoint>)
    ensures IsHtmlSafe(GoString(s))
  {
    hide GoEscape;
    if s != [] {
      EscapeIsHtmlSafe(s[0]);
      GoIsHtmlSafe(s[1..]);
    }
  }

  // ----- Where the two encoders agree -----

  /** Characters both encoders write alike. */
  predicate WrittenAlike(c: CodePoint) {
    (c < 0x7F && c != 0x3C && c != 0x3E && c != 0x26) || c == 0x2028 || c == 0x2029
  }

  /** Where the encoders differ on a character they already differ in its first byte. */
  lemma EscapesDiffer(c: CodePoint)
    ensures WrittenAlike(c) ==> GoEscape(c) == PythonEscape(c)
    ensures !WrittenAlike(c) ==> GoEscape(c)[0] != PythonEscape(c)[0]
  {
  }

  lemma {:induction false} StringsAgreeIff(s: seq<CodePoint>)
    ensures GoString(s) == PythonString(s) <==> forall i :: 0 <= i < |s| ==> WrittenAlike(s[i])
  {
    if s != [] {
      EscapesDiffer(s[0]);
      var x, y := GoString(s[1..]), PythonString(s[1..]);
      StringsAgreeIff(s[1..]);
      assert forall i :: 0 < i < |s| ==> s[i] == s[1..][i - 1];
      if WrittenAlike(s[0]) {
        var head := GoEscape(s[0]);
        assert (head + x)[|head|..] == x && (head + y)[|head|..] == y;
      } else {
        assert GoString(s)[0] != PythonString(s)[0];
      }
    }
  }

  /** Decoding of either case, as the attester checks it. */
  function HexValue(b: byte): Option<nat> {
    if 0x30 <= b <= 0x39 then Some(b - 0x30)
    else if 0x61 <= b <= 0x66 then Some(b - 0x57)
    else if 0x41 <= b <= 0x46 then Some(b - 0x37)
    else None
  }

  function DecodeHex(text: seq<byte>): (r: Option<seq<byte>>)
    ensures r.Some? ==> |text| == 2 * |r.value|
  {
    if text == [] then Some([])
    else if |text| == 1 || HexValue(text[0]).None? || HexValue(text[1]).None? then None
    else match DecodeHex(text[2..])
      case None => None
      case Some(rest) => Some([16 * HexValue(text[0]).value + HexValue(text[1]).value] + rest)
  }

  predicate IsHexText(text: seq<byte>) {
    forall i :: 0 <= i < |text| ==> HexValue(text[i]).Some?
  }

  /** A text decodes exactly when it is an even number of hexadecimal digits. */
  lemma {:induction false} DecodesIff(text: seq<byte>)
    ensures DecodeHex(text).Some? <==> |text| % 2 == 0 && IsHexText(text)
  {
    if |text| >= 2 {
      DecodesIff(text[2..]);
      assert forall i :: 2 <= i < |text| ==> text[i] == text[2..][i - 2];
    }
  }

  predicate LowerCase(text: seq<byte>) {
    forall i :: 0 <= i < |text| ==> !(0x41 <= text[i] <= 0x46)
  }

  lemma DigitRoundTripIff(high: byte, low: byte)
    requires HexValue(high).Some? && HexValue(low).Some?
    ensures var b := 16 * HexValue(high).value + HexValue(low).value;
            HexDigit(b / 16) == high && HexDigit(b % 16) == low <==> LowerCase([high, low])
  {
    var b := 16 * HexValue(high).value + HexValue(low).value;
    assert b / 16 == HexValue(high).value && b % 16 == HexValue(low).value;
    assert [high, low][0] == high && [high, low][1] == low;
  }

  /** Re-encoding a decoded nonce gives the text back exactly when the text was in lower case. */
  lemma {:induction false} HexRoundTripIff(text: seq<byte>)
    requires DecodeHex(text).Some?
    ensures Hex(DecodeHex(text).value) == text <==> LowerCase(text)
  {
    if text != [] {
      HexRoundTripIff(text[2..]);
      var bytes := DecodeHex(text).value;
      DigitRoundTripIff(text[0], text[1]);
      assert bytes[1..] == DecodeHex(text[2..]).value;
      assert Hex(bytes)[2..] == Hex(bytes[1..]);
      assert text == [text[0], text[1]] + text[2..];
      assert forall i :: 2 <= i < |text| ==> text[i] == text[2..][i - 2];
    }
  }

  /** Decoding undoes encoding, and the text is in lower case. */
  lemma {:induction false} HexDecodes(s: seq<byte>)
    ensures DecodeHex(Hex(s)) == Some(s) && LowerCase(Hex(s))
  {
    if s != [] {
      var high, low := s[0] / 16, s[0] % 16;
      assert HexValue(HexDigit(high)) == Some(high) && HexValue(HexDigit(low)) == Some(low);
      assert Hex(s)[0] == HexDigit(high) && Hex(s)[1] == HexDigit(low) && s == [16 * high + low] + s[1..];
      HexDecodes(s[1..]);
      assert Hex(s)[2..] == Hex(s[1..]);
      assert forall i :: 2 <= i < |Hex(s)| ==> Hex(s)[i] == Hex(s[1..])[i - 2];
    }
  }

  /** The attester and the verifier hash the same context exactly when the nonce text is in
      lower case and every character of the request is one both write alike. */
  lemma ContextsAgreeIff(nonceText: seq<byte>, request: seq<CodePoint>)
    requires DecodeHex(nonceText).Some?
    ensures GoContext(nonceText, request) == PythonContext(DecodeHex(nonceText).value, request)
       <==> LowerCase(nonceText) && forall i :: 0 <= i < |request| ==> WrittenAlike(request[i])
  {
    var nonce := DecodeHex(nonceText).value;
    AssembledParts(nonceText, GoString(request));
    AssembledParts(Hex(nonce), PythonString(request));
    HexRoundTripIff(nonceText);
    StringsAgreeIff(request);
  }
}
