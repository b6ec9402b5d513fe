/** A reader of compact JSON by RFC 8259: strings by its section 7, with text outside escapes in UTF-8,
    and values by its sections 3 to 6. It undoes the writers, so written bytes determine the value. */
module JsonReader {
  import opened Bytes
  import opened Outcomes
  import opened RequestContext
  import opened Json

  /** What was read, and what follows it. */
  datatype Read<+T> = Read(value: T, rest: seq<byte>)

  // ----- Characters -----

  /** Backslash, u and four hexadecimal digits: one UTF-16 unit. */
  function ReadUnit(text: seq<byte>): (unit: Option<nat>)
    ensures unit.Some? ==> unit.value < 0x1_0000 && |text| >= 6
  {
    if |text| < 6 || text[0] != 0x5C || text[1] != 0x75 then None
    else
      var a, b, c, d := HexValue(text[2]), HexValue(text[3]), HexValue(text[4]), HexValue(text[5]);
      if a.None? || b.None? || c.None? || d.None? then None
      else Some(0x1000 * a.value + 0x100 * b.value + 0x10 * c.value + d.value)
  }

  /** An escaped character by its UTF-16 units, a surrogate pair if it is outside the basic plane. */
  function ReadUnits(text: seq<byte>): (r: Option<Read<CodePoint>>)
    ensures r.Some? ==> |r.value.rest| < |text|
  {
    var first := ReadUnit(text);
    if first.None? || 0xDC00 <= first.value < 0xE000 then None
    else if first.value < 0xD800 || first.value >= 0xE000 then Some(Read(first.value, text[6..]))
    else
      var second := ReadUnit(text[6..]);
      if second.None? || !(0xDC00 <= second.value < 0xE000) then None
      else Some(Read(0x1_0000 + 0x400 * (first.value - 0xD800) + (second.value - 0xDC00), text[12..]))
  }

  function ReadEscape(text: seq<byte>): (r: Option<Read<CodePoint>>)
    ensures r.Some? ==> |r.value.rest| < |text|
  {
    if |text| < 2 || text[0] != 0x5C then None
    else if text[1] == 0x22 || text[1] == 0x5C || text[1] == 0x2F then Some(Read(text[1], text[2..]))
    else if text[1] == 0x62 then Some(Read(0x08, text[2..]))
    else if text[1] == 0x66 then Some(Read(0x0C, text[2..]))
    else if text[1] == 0x6E then Some(Read(0x0A, text[2..]))
    else if text[1] == 0x72 then Some(Read(0x0D, text[2..]))
    else if text[1] == 0x74 then Some(Read(0x09, text[2..]))
    else ReadUnits(text)
  }

  predicate IsContinuation(b: byte) {
    0x80 <= b < 0xC0
  }

  /** The payload bits of a byte behind its marker. */
  function Bits(b: byte, marker: byte): int {
    b - marker
  }

  /** UTF-8 beyond ASCII, by section 3 of RFC 3629. */
  function ReadUtf8(text: seq<byte>): (r: Option<Read<CodePoint>>)
    ensures r.Some? ==> |r.value.rest| < |text|
  {
    if |text| >= 2 && 0xC2 <= text[0] < 0xE0 && IsContinuation(text[1]) then
      Some(Read(0x40 * Bits(text[0], 0xC0) + Bits(text[1], 0x80), text[2..]))
    else if |text| >= 3 && 0xE0 <= text[0] < 0xF0 && IsContinuation(text[1]) && IsContinuation(text[2]) then
      var c := 0x1000 * Bits(text[0], 0xE0) + 0x40 * Bits(text[1], 0x80) + Bits(text[2], 0x80);
      if c < 0x800 || 0xD800 <= c < 0xE000 then None else Some(Read(c, text[3..]))
    else if |text| >= 4 && 0xF0 <= text[0] < 0xF5
            && IsContinuation(text[1]) && IsContinuation(text[2]) && IsContinuation(text[3]) then
      var c := 0x4_0000 * Bits(text[0], 0xF0) + 0x1000 * Bits(text[1], 0x80) + 0x40 * Bits(text[2], 0x80)
               + Bits(text[3], 0x80);
      if c < 0x1_0000 || c >= 0x11_0000 then None else Some(Read(c, text[4..]))
    else None
  }

  /** One character of a string; quotation mark and control characters must be escaped. */
  function ReadCharacter(text: seq<byte>): (r: Option<Read<CodePoint>>)
    ensures r.Some? ==> |r.value.rest| < |text|
  {
    if text == [] || text[0] == 0x22 || text[0] < 0x20 then None
    else if text[0] == 0x5C then ReadEscape(text)
    else if text[0] < 0x80 then Some(Read(text[0], text[1..]))
    else ReadUtf8(text)
  }

  lemma ReadsUnit(n: nat, x: seq<byte>)
    requires n < 0x1_0000
    ensures ReadUnit(UnicodeEscape(n) + x) == Some(n) && (UnicodeEscape(n) + x)[6..] == x
  {
    var a, b, c, d := n / 16 / 16 / 16, n / 16 / 16 % 16, n / 16 % 16, n % 16;
    assert HexValue(HexDigit(a)) == Some(a) && HexValue(HexDigit(b)) == Some(b);
    assert HexValue(HexDigit(c)) == Some(c) && HexValue(HexDigit(d)) == Some(d);
    assert n == 0x1000 * a + 0x100 * b + 0x10 * c + d;
  }

  /** Units of a character, however many, give the character back. */
  lemma ReadsUnits(c: CodePoint, x: seq<byte>)
    ensures c < 0x1_0000 ==> ReadUnits(UnicodeEscape(c) + x) == Some(Read(c, x))
    ensures c >= 0x1_0000 ==>
              ReadUnits(UnicodeEscape(FirstUnit(c)) + UnicodeEscape(SecondUnit(c)) + x) == Some(Read(c, x))
  {
    hide ReadUnit, UnicodeEscape;
    if c < 0x1_0000 {
      ReadsUnit(c, x);
    } else {
      var first, second := UnicodeEscape(FirstUnit(c)), UnicodeEscape(SecondUnit(c));
      assert first + second + x == first + (second + x);
      ReadsUnit(FirstUnit(c), second + x);
      ReadsUnit(SecondUnit(c), x);
      assert (first + (second + x))[12..] == (second + x)[6..];
    }
  }

  lemma ReadsShortEscape(c: CodePoint, x: seq<byte>)
    requires ShortEscape(c).Some?
    ensures ReadCharacter([BACKSLASH, ShortEscape(c).value] + x) == Some(Read(c, x))
  {
    assert ([BACKSLASH, ShortEscape(c).value] + x)[2..] == x;
  }

  /** The reader undoes Python's escaping of any character. */
  lemma ReadsPythonCharacter(c: CodePoint, x: seq<byte>)
    ensures ReadCharacter(PythonEscape(c) + x) == Some(Read(c, x))
  {
    if ShortEscape(c).Some? {
      ReadsShortEscape(c, x);
    } else if 0x20 <= c <= 0x7E {
      assert ([c] + x)[1..] == x;
    } else {
      hide ReadUnits, UnicodeEscape, FirstUnit, SecondUnit;
      ReadsUnits(c, x);
      EscapeReadsUnits(PythonEscape(c) + x);
    }
  }

  lemma EscapeReadsUnits(text: seq<byte>)
    requires |text| >= 2 && text[0] == 0x5C && text[1] == 0x75
    ensures ReadCharacter(text) == ReadUnits(text)
  {
  }

  lemma ReadsTwoBytes(c: CodePoint, x: seq<byte>)
    requires 0x80 <= c < 0x800
    ensures ReadUtf8(Utf8(c) + x) == Some(Read(c, x))
  {
    var text, a, b := Utf8(c) + x, c / 0x40, c % 0x40;
    assert text[0] == 0xC0 + a && text[1] == 0x80 + b && text[2..] == x;
  }

  lemma ReadsThreeBytes(c: CodePoint, x: seq<byte>)
    requires 0x800 <= c < 0x1_0000
    ensures ReadUtf8(Utf8(c) + x) == Some(Read(c, x))
  {
    var text, a, b, d := Utf8(c) + x, c / 0x1000, c / 0x40 % 0x40, c % 0x40;
    assert text[0] == 0xE0 + a && text[1] == 0x80 + b && text[2] == 0x80 + d && text[3..] == x;
    assert c == 0x1000 * a + 0x40 * b + d;
  }

  lemma FourGroups(c: nat)
    ensures c == 0x4_0000 * (c / 0x4_0000) + 0x1000 * (c / 0x1000 % 0x40) + 0x40 * (c / 0x40 % 0x40) + c % 0x40
  {
    assert c / 0x40 / 0x40 == c / 0x1000 && c / 0x1000 / 0x40 == c / 0x4_0000;
  }

  lemma ReadsFourBytes(c: CodePoint, x: seq<byte>)
    requires 0x1_0000 <= c
    ensures ReadUtf8(Utf8(c) + x) == Some(Read(c, x))
  {
    var text, a, b, d, e := Utf8(c) + x, c / 0x4_0000, c / 0x1000 % 0x40, c / 0x40 % 0x40, c % 0x40;
    assert text[0] == 0xF0 + a && text[1] == 0x80 + b && text[2] == 0x80 + d && text[3] == 0x80 + e && text[4..] == x;
    FourGroups(c);
  }

  lemma ReadsUtf8(c: CodePoint, x: seq<byte>)
    requires c >= 0x80
    ensures ReadUtf8(Utf8(c) + x) == Some(Read(c, x))
  {
    hide ReadUtf8, Utf8;
    if c < 0x800 { ReadsTwoBytes(c, x); } else if c < 0x1_0000 { ReadsThreeBytes(c, x); } else { ReadsFourBytes(c, x); }
  }

  /** And Go's. */
  lemma ReadsGoCharacter(c: CodePoint, x: seq<byte>)
    ensures ReadCharacter(GoEscape(c) + x) == Some(Read(c, x))
  {
    if ShortEscape(c).Some? {
      ReadsShortEscape(c, x);
    } else if c < 0x20 || c == 0x3C || c == 0x3E || c == 0x26 || c == 0x2028 || c == 0x2029 {
      hide ReadUnits, UnicodeEscape, FirstUnit, SecondUnit;
      ReadsUnits(c, x);
      EscapeReadsUnits(GoEscape(c) + x);
    } else if c < 0x80 {
      assert ([c] + x)[1..] == x;
    } else {
      ReadsUtf8(c, x);
    }
  }

  // ----- Strings -----

  /** The rest of a string, up to and with its closing quotation mark. */
  function ReadText(text: seq<byte>): (r: Option<Read<seq<CodePoint>>>)
    ensures r.Some? ==> |r.value.rest| < |text|
    decreases |text|
  {
    if text != [] && text[0] == 0x22 then Some(Read([], text[1..]))
    else match ReadCharacter(text)
      case None => None
      case Some(Read(c, rest)) =>
        match ReadText(rest)
        case None => None
        case Some(Read(more, end)) => Some(Read([c] + more, end))
  }

  lemma Regroup(a: seq<byte>, b: seq<byte>, c: seq<byte>)
    ensures a + b + c == a + (b + c)
  {
  }

  /** One more character in front. */
  lemma ReadsOneMore(head: seq<byte>, c: CodePoint, tail: seq<byte>, more: seq<CodePoint>, x: seq<byte>)
    requires ReadCharacter(head + tail) == Some(Read(c, tail)) && ReadText(tail) == Some(Read(more, x))
    ensures ReadText(head + tail) == Some(Read([c] + more, x))
  {
  }

  /** The reader undoes Python's string escaping. */
  lemma {:induction false} ReadsPythonText(s: seq<CodePoint>, x: seq<byte>)
    ensures ReadText(PythonString(s) + ([QUOTE] + x)) == Some(Read(s, x))
  {
    if s == [] {
      assert PythonString(s) + ([QUOTE] + x) == [QUOTE] + x;
      assert ([QUOTE] + x)[1..] == x;
    } else {
      hide ReadCharacter, PythonEscape;
      var head, tail := PythonEscape(s[0]), PythonString(s[1..]) + ([QUOTE] + x);
      Regroup(head, PythonString(s[1..]), [QUOTE] + x);
      ReadsPythonCharacter(s[0], tail);
      ReadsPythonText(s[1..], x);
      ReadsOneMore(head, s[0], tail, s[1..], x);
      assert s == [s[0]] + s[1..];
    }
  }

  /** And Go's: both sides' encodings mean the request that was encoded. */
  lemma {:induction false} ReadsGoText(s: seq<CodePoint>, x: seq<byte>)
    ensures ReadText(GoString(s) + ([QUOTE] + x)) == Some(Read(s, x))
  {
    if s == [] {
      assert GoString(s) + ([QUOTE] + x) == [QUOTE] + x;
      assert ([QUOTE] + x)[1..] == x;
    } else {
      hide ReadCharacter, GoEscape;
      var head, tail := GoEscape(s[0]), GoString(s[1..]) + ([QUOTE] + x);
      Regroup(head, GoString(s[1..]), [QUOTE] + x);
      ReadsGoCharacter(s[0], tail);
      ReadsGoText(s[1..], x);
      ReadsOneMore(head, s[0], tail, s[1..], x);
      assert s == [s[0]] + s[1..];
    }
  }

  // ----- Values -----

  predicate StartsWith(text: seq<byte>, word: seq<byte>) {
    |word| <= |text| && text[..|word|] == word
  }

  /** How far a number goes. */
  function NumberLength(text: seq<byte>): (n: nat)
    ensures n <= |text| && forall i :: 0 <= i < n ==> IsNumberByte(text[i])
    ensures n < |text| ==> !IsNumberByte(text[n])
  {
    if text != [] && IsNumberByte(text[0]) then 1 + NumberLength(text[1..]) else 0
  }

  function ReadValue(text: seq<byte>): (r: Option<Read<Value>>)
    ensures r.Some? ==> |r.value.rest| < |text|
    decreases |text|, 0
  {
    if text == [] then None
    else if text[0] == 0x6E then
      if StartsWith(text, [0x6E, 0x75, 0x6C, 0x6C]) then Some(Read(Null, text[4..])) else None
    else if text[0] == 0x74 then
      if StartsWith(text, [0x74, 0x72, 0x75, 0x65]) then Some(Read(Bool(true), text[4..])) else None
    else if text[0] == 0x66 then
      if StartsWith(text, [0x66, 0x61, 0x6C, 0x73, 0x65]) then Some(Read(Bool(false), text[5..])) else None
    else if text[0] == 0x22 then
      match ReadText(text[1..])
      case None => None
      case Some(Read(s, rest)) => Some(Read(Str(s), rest))
    else if |text| > 1 && text[0] == 0x5B && text[1] == 0x5D then Some(Read(Array([]), text[2..]))
    else if |text| > 1 && text[0] == 0x7B && text[1] == 0x7D then Some(Read(Object([]), text[2..]))
    else if text[0] == 0x5B then
      match ReadItems(text[1..])
      case None => None
      case Some(Read(items, rest)) => Some(Read(Array(items), rest))
    else if text[0] == 0x7B then
      match ReadMembers(text[1..])
      case None => None
      case Some(Read(members, rest)) => Some(Read(Object(members), rest))
    else
      var n := NumberLength(text);
      if IsNumberText(text[..n]) then Some(Read(Number(text[..n]), text[n..])) else None
  }

  /** The elements of an array, up to and with its closing bracket. */
  function ReadItems(text: seq<byte>): (r: Option<Read<seq<Value>>>)
    ensures r.Some? ==> |r.value.rest| < |text|
    decreases |text|, 1
  {
    match ReadValue(text)
    case None => None
    case Some(Read(v, rest)) =>
      if rest == [] then None
      else if rest[0] == 0x5D then Some(Read([v], rest[1..]))
      else if rest[0] != 0x2C then None
      else match ReadItems(rest[1..])
        case None => None
        case Some(Read(more, end)) => Some(Read([v] + more, end))
  }

  /** The members of an object, up to and with its closing brace. */
  function ReadMembers(text: seq<byte>): (r: Option<Read<seq<Member>>>)
    ensures r.Some? ==> |r.value.rest| < |text|
    decreases |text|, 1
  {
    if text == [] || text[0] != 0x22 then None
    else match ReadText(text[1..])
      case None => None
      case Some(Read(name, named)) =>
        if named == [] || named[0] != 0x3A then None
        else match ReadValue(named[1..])
          case None => None
          case Some(Read(v, rest)) =>
            if rest == [] then None
            else if rest[0] == 0x7D then Some(Read([Member(name, v)], rest[1..]))
            else if rest[0] != 0x2C then None
            else match ReadMembers(rest[1..])
              case None => None
              case Some(Read(more, end)) => Some(Read([Member(name, v)] + more, end))
  }

  // ----- Reading what was written -----

  /** The k-th element, from its label on, with everything after it. */
  function ElementAndRest(v: Value, k: nat, x: seq<byte>): seq<byte>
    requires IsComposite(v) && k < Count(v)
  {
    Label(v, k) + (Dump(Child(v, k)) + (DumpFrom(v, k + 1) + x))
  }

  lemma ElementsSplit(v: Value, k: nat, x: seq<byte>)
    requires IsComposite(v) && k < Count(v)
    ensures DumpFrom(v, k) + x == (if k > 0 then [COMMA] else []) + ElementAndRest(v, k, x)
  {
    var comma, name, child, rest := if k > 0 then [COMMA] else [], Label(v, k), Dump(Child(v, k)), DumpFrom(v, k + 1);
    Regroup(comma + name + child, rest, x);
    Regroup(comma + name, child, rest + x);
    Regroup(comma, name, child + (rest + x));
  }

  /** No value starts like the end of an array or object. */
  lemma DumpStarts(v: Value)
    ensures Dump(v) != [] && !Ended(Dump(v))
  {
  }

  lemma RestEnds(v: Value, k: nat, x: seq<byte>)
    requires IsComposite(v) && 0 < k <= Count(v)
    ensures Ended(DumpFrom(v, k) + x)
  {
  }

  lemma ReadsQuoted(s: seq<CodePoint>, x: seq<byte>)
    ensures Quoted(s) + x != [] && (Quoted(s) + x)[0] == 0x22
    ensures ReadText((Quoted(s) + x)[1..]) == Some(Read(s, x))
  {
    assert (Quoted(s) + x)[1..] == PythonString(s) + ([QUOTE] + x);
    ReadsPythonText(s, x);
  }

  lemma ReadsNumber(t: NumberText, x: seq<byte>)
    requires Ended(x)
    ensures ReadValue(t + x) == Some(Read(Number(t), x))
  {
    var text, n := t + x, NumberLength(t + x);
    assert forall i :: 0 <= i < |t| ==> IsNumberByte(text[i]);
    assert |t| < |text| ==> text[|t|] == x[0];
    assert n == |t|;
    assert text[..n] == t && text[n..] == x;
    assert text[0] == t[0];
  }

  /** After an element comes the closing bracket, or a comma and the next element. */
  lemma ElementEnds(v: Value, k: nat, x: seq<byte>)
    requires IsComposite(v) && k < Count(v)
    ensures var rest := DumpFrom(v, k + 1) + x;
            && rest != []
            && (k + 1 == Count(v) ==> rest[0] == Closing(v) && rest[1..] == x)
            && (k + 1 < Count(v) ==> rest[0] == 0x2C && rest[1..] == ElementAndRest(v, k + 1, x))
  {
    if k + 1 < Count(v) { ElementsSplit(v, k + 1, x); }
  }

  lemma ReadsItem(v: Value, k: nat, x: seq<byte>)
    requires v.Array? && k < |v.items|
    requires ReadValue(Dump(v.items[k]) + (DumpFrom(v, k + 1) + x)) == Some(Read(v.items[k], DumpFrom(v, k + 1) + x))
    requires k + 1 < |v.items| ==> ReadItems(ElementAndRest(v, k + 1, x)) == Some(Read(v.items[k + 1..], x))
    ensures ReadItems(ElementAndRest(v, k, x)) == Some(Read(v.items[k..], x))
  {
    hide Dump, DumpFrom, ReadValue;
    var rest := DumpFrom(v, k + 1) + x;
    assert ElementAndRest(v, k, x) == Dump(v.items[k]) + rest;
    ElementEnds(v, k, x);
    if k + 1 == |v.items| {
      assert v.items[k..] == [v.items[k]];
    } else {
      assert v.items[k..] == [v.items[k]] + v.items[k + 1..];
    }
  }

  lemma ReadsMember(v: Value, k: nat, x: seq<byte>)
    requires v.Object? && k < |v.members|
    requires ReadValue(Dump(v.members[k].value) + (DumpFrom(v, k + 1) + x))
          == Some(Read(v.members[k].value, DumpFrom(v, k + 1) + x))
    requires k + 1 < |v.members| ==> ReadMembers(ElementAndRest(v, k + 1, x)) == Some(Read(v.members[k + 1..], x))
    ensures ReadMembers(ElementAndRest(v, k, x)) == Some(Read(v.members[k..], x))
  {
    hide Dump, DumpFrom, ReadText, ReadValue;
    var m, rest := v.members[k], DumpFrom(v, k + 1) + x;
    var named := [COLON] + (Dump(m.value) + rest);
    Regroup(Quoted(m.name), [COLON], Dump(m.value) + rest);
    assert ElementAndRest(v, k, x) == Quoted(m.name) + named;
    ReadsQuoted(m.name, named);
    assert named[0] == 0x3A && named[1..] == Dump(m.value) + rest;
    ElementEnds(v, k, x);
    if k + 1 == |v.members| {
      assert v.members[k..] == [m];
    } else {
      assert v.members[k..] == [m] + v.members[k + 1..];
    }
  }

  lemma {:induction false} ReadsElements(v: Value, k: nat, x: seq<byte>)
    requires IsComposite(v) && k < Count(v)
    ensures v.Array? ==> ReadItems(ElementAndRest(v, k, x)) == Some(Read(v.items[k..], x))
    ensures v.Object? ==> ReadMembers(ElementAndRest(v, k, x)) == Some(Read(v.members[k..], x))
    decreases v, Count(v) - k
  {
    hide Dump, DumpFrom, ReadValue, ReadItems, ReadMembers;
    RestEnds(v, k + 1, x);
    ReadsDumped(Child(v, k), DumpFrom(v, k + 1) + x);
    if k + 1 < Count(v) { ReadsElements(v, k + 1, x); }
    if v.Array? { ReadsItem(v, k, x); } else { ReadsMember(v, k, x); }
  }

  /** What follows the opening bracket of an array or object that is not empty. */
  lemma OpensWithElement(v: Value, x: seq<byte>)
    requires IsComposite(v) && Count(v) > 0
    ensures Dump(v) + x == [Opening(v)] + ElementAndRest(v, 0, x)
    ensures ElementAndRest(v, 0, x) != [] && ElementAndRest(v, 0, x)[0] != 0x5D && ElementAndRest(v, 0, x)[0] != 0x7D
  {
    ElementsSplit(v, 0, x);
    Regroup([Opening(v)], DumpFrom(v, 0), x);
    assert [] + ElementAndRest(v, 0, x) == ElementAndRest(v, 0, x);
    DumpStarts(Child(v, 0));
  }

  lemma ReadsComposite(v: Value, x: seq<byte>)
    requires IsComposite(v) && Count(v) > 0
    requires v.Array? ==> ReadItems(ElementAndRest(v, 0, x)) == Some(Read(v.items[0..], x))
    requires v.Object? ==> ReadMembers(ElementAndRest(v, 0, x)) == Some(Read(v.members[0..], x))
    ensures ReadValue(Dump(v) + x) == Some(Read(v, x))
  {
    hide Dump, DumpFrom, ReadItems, ReadMembers, ElementAndRest;
    OpensWithElement(v, x);
    var text, rest := Dump(v) + x, ElementAndRest(v, 0, x);
    assert text[0] == Opening(v) && text[1..] == rest && text[1] == rest[0];
    assert v.Array? ==> v.items[0..] == v.items;
    assert v.Object? ==> v.members[0..] == v.members;
  }

  lemma ReadsEmpty(v: Value, x: seq<byte>)
    requires IsComposite(v) && Count(v) == 0
    ensures ReadValue(Dump(v) + x) == Some(Read(v, x))
  {
    assert Dump(v) == [Opening(v), Closing(v)];
    assert (Dump(v) + x)[2..] == x;
  }

  lemma ReadsWord(v: Value, x: seq<byte>)
    requires v.Null? || v.Bool?
    ensures ReadValue(Dump(v) + x) == Some(Read(v, x))
  {
    var text := Dump(v) + x;
    assert text[..|Dump(v)|] == Dump(v) && text[|Dump(v)|..] == x && text[0] == Dump(v)[0];
  }

  /** Reading undoes writing, for every value, wherever it ends. */
  lemma {:induction false} ReadsDumped(v: Value, x: seq<byte>)
    requires Ended(x)
    ensures ReadValue(Dump(v) + x) == Some(Read(v, x))
    decreases v, Count(v) + 1
  {
    match v
    case Null => ReadsWord(v, x);
    case Bool(_) => ReadsWord(v, x);
    case Number(t) => ReadsNumber(t, x);
    case Str(s) => ReadsQuoted(s, x);
    case Array(_) => if Count(v) == 0 { ReadsEmpty(v, x); } else { ReadsElements(v, 0, x); ReadsComposite(v, x); }
    case Object(_) => if Count(v) == 0 { ReadsEmpty(v, x); } else { ReadsElements(v, 0, x); ReadsComposite(v, x); }
  }

  /** Two values written alike are the same value. */
  lemma DumpInjective(a: Value, b: Value)
    requires Dump(a) == Dump(b)
    ensures a == b
  {
    assert Dump(a) + [] == Dump(a) && Dump(b) + [] == Dump(b);
    ReadsDumped(a, []);
    ReadsDumped(b, []);
  }
}
