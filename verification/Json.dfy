/** JSON values as Python's json module writes them with sorted keys and compact separators. */
module Json {
  import opened Bytes
  import opened RequestContext

  const COMMA: byte := 0x2C
  const COLON: byte := 0x3A

  predicate IsNumberByte(b: byte) {
    0x30 <= b <= 0x39 || 0x41 <= b <= 0x5A || 0x61 <= b <= 0x7A || b == 0x2B || b == 0x2D || b == 0x2E
  }

  /** What a number is written as: digits, a minus sign, NaN or Infinity come first. */
  predicate IsNumberText(t: seq<byte>) {
    && t != [] && (0x30 <= t[0] <= 0x39 || t[0] == 0x2D || t[0] == 0x4E || t[0] == 0x49)
    && forall i :: 0 <= i < |t| ==> IsNumberByte(t[i])
  }

  type NumberText = t: seq<byte> | IsNumberText(t) witness [0x30]

  datatype Member = Member(name: seq<CodePoint>, value: Value)

  /** Members are listed in the order in which they are written. */
  datatype Value =
    | Null
    | Bool(truth: bool)
    | Number(literal: NumberText)
    | Str(text: seq<CodePoint>)
    | Array(items: seq<Value>)
    | Object(members: seq<Member>)

  predicate IsComposite(v: Value) {
    v.Array? || v.Object?
  }

  function Count(v: Value): nat {
    if v.Array? then |v.items| else if v.Object? then |v.members| else 0
  }

  function Opening(v: Value): byte {
    if v.Array? then 0x5B else 0x7B
  }

  function Closing(v: Value): byte {
    if v.Array? then 0x5D else 0x7D
  }

  function Quoted(s: seq<CodePoint>): seq<byte> {
    [QUOTE] + PythonString(s) + [QUOTE]
  }

  /** json.dumps of a value. */
  function Dump(v: Value): seq<byte>
    decreases v, Count(v) + 1
  {
    match v
    case Null => [0x6E, 0x75, 0x6C, 0x6C]
    case Bool(truth) => if truth then [0x74, 0x72, 0x75, 0x65] else [0x66, 0x61, 0x6C, 0x73, 0x65]
    case Number(text) => text
    case Str(text) => Quoted(text)
    case Array(_) => [Opening(v)] + DumpFrom(v, 0)
    case Object(_) => [Opening(v)] + DumpFrom(v, 0)
  }

  function Label(v: Value, k: nat): seq<byte>
    requires IsComposite(v) && k < Count(v)
  {
    if v.Array? then [] else Quoted(v.members[k].name) + [COLON]
  }

  function Child(v: Value, k: nat): (child: Value)
    requires IsComposite(v) && k < Count(v)
    ensures child < v
  {
    if v.Array? then v.items[k] else v.members[k].value
  }

  /** The k-th and later elements of an array or object, and its closing bracket. */
  function DumpFrom(v: Value, k: nat): seq<byte>
    requires IsComposite(v) && k <= Count(v)
    decreases v, Count(v) - k
  {
    if k == Count(v) then [Closing(v)]
    else (if k > 0 then [COMMA] else []) + Label(v, k) + Dump(Child(v, k)) + DumpFrom(v, k + 1)
  }

  /** The member of that name; null when there is none, as Python's get answers. */
  function Get(members: seq<Member>, name: seq<CodePoint>): Value {
    if members == [] then Null
    else if members[0].name == name then members[0].value
    else Get(members[1..], name)
  }

  lemma {:induction false} GetAt(members: seq<Member>, i: nat)
    requires i < |members| && forall j :: 0 <= j < i ==> members[j].name != members[i].name
    ensures Get(members, members[i].name) == members[i].value
  {
    if i > 0 {
      GetAt(members[1..], i - 1);
    }
  }

  lemma {:induction false} GetMissing(members: seq<Member>, name: seq<CodePoint>)
    requires forall i :: 0 <= i < |members| ==> members[i].name != name
    ensures Get(members, name) == Null
  {
    if members != [] {
      GetMissing(members[1..], name);
    }
  }

  /** A value has ended: nothing follows, or a separator or closing bracket does. */
  predicate Ended(rest: seq<byte>) {
    rest == [] || rest[0] == COMMA || rest[0] == 0x5D || rest[0] == 0x7D
  }

  // ----- Text -----

  /** A literal name or text. */
  function Text(s: string): (t: seq<CodePoint>)
    ensures |t| == |s|
  {
    seq(|s|, i requires 0 <= i < |s| => s[i] as int)
  }

  /** Printable ASCII without quotation mark and backslash is written as it is. */
  predicate IsPlain(s: seq<CodePoint>) {
    forall i :: 0 <= i < |s| ==> 0x20 <= s[i] <= 0x7E && s[i] != 0x22 && s[i] != 0x5C
  }

  lemma PlainCharacter(c: CodePoint)
    requires 0x20 <= c <= 0x7E && c != 0x22 && c != 0x5C
    ensures PythonEscape(c) == [c]
  {
  }

  lemma {:induction false} PlainText(s: seq<CodePoint>)
    requires IsPlain(s)
    ensures PythonString(s) == s
  {
    hide PythonEscape;
    if s != [] {
      PlainCharacter(s[0]);
      PlainText(s[1..]);
      assert s == [s[0]] + s[1..];
    }
  }

  lemma {:induction false} HexIsPlain(s: seq<byte>)
    ensures IsPlain(Hex(s))
  {
    if s != [] {
      HexIsPlain(s[1..]);
    }
  }

  /** The object that the verifier hashes into a binding. */
  function ContextObject(nonce: seq<byte>, request: seq<CodePoint>): Value {
    Object([Member(Text("nonce"), Str(Hex(nonce))), Member(Text("request"), Str(request))])
  }

  lemma TwoMembers(v: Value)
    requires v.Object? && |v.members| == 2
    ensures Dump(v) == [Opening(v)] + (Label(v, 0) + Dump(v.members[0].value))
                     + ([COMMA] + Label(v, 1) + Dump(v.members[1].value) + [Closing(v)])
  {
    assert DumpFrom(v, 2) == [Closing(v)];
    assert DumpFrom(v, 1) == [COMMA] + Label(v, 1) + Dump(v.members[1].value) + DumpFrom(v, 2);
    assert DumpFrom(v, 0) == [] + Label(v, 0) + Dump(v.members[0].value) + DumpFrom(v, 1);
  }

  lemma Framed(open: seq<byte>, first: seq<byte>, nonce: seq<byte>, second: seq<byte>, request: seq<byte>, close: seq<byte>)
    ensures open + (first + ([QUOTE] + nonce + [QUOTE])) + ([COMMA] + second + ([QUOTE] + request + [QUOTE]) + close)
         == (open + first + [QUOTE]) + nonce + ([QUOTE] + [COMMA] + second + [QUOTE]) + request + ([QUOTE] + close)
  {
  }

  lemma PlainLabel(name: seq<CodePoint>)
    requires IsPlain(name)
    ensures Quoted(name) + [COLON] == [QUOTE] + name + [QUOTE, COLON]
  {
    PlainText(name);
  }

  lemma ContextNames()
    ensures Quoted(Text("nonce")) + [COLON] == [0x22, 0x6E, 0x6F, 0x6E, 0x63, 0x65, 0x22, 0x3A]
    ensures Quoted(Text("request")) + [COLON] == [0x22, 0x72, 0x65, 0x71, 0x75, 0x65, 0x73, 0x74, 0x22, 0x3A]
  {
    hide PythonString, Quoted;
    var nonce, request := [0x6E, 0x6F, 0x6E, 0x63, 0x65], [0x72, 0x65, 0x71, 0x75, 0x65, 0x73, 0x74];
    assert Text("nonce") == nonce && Text("request") == request;
    PlainLabel(nonce);
    PlainLabel(request);
  }

  /** The context is what json.dumps writes for that object. */
  lemma ContextIsDumped(nonce: seq<byte>, request: seq<CodePoint>)
    ensures Dump(ContextObject(nonce, request)) == PythonContext(nonce, request)
  {
    hide PythonString;
    var v := ContextObject(nonce, request);
    HexIsPlain(nonce);
    PlainText(Hex(nonce));
    ContextNames();
    TwoMembers(v);
    Framed([Opening(v)], Label(v, 0), Hex(nonce), Label(v, 1), PythonString(request), [Closing(v)]);
    assert [Opening(v)] + Label(v, 0) + [QUOTE] == BEFORE_NONCE;
    assert [QUOTE] + [COMMA] + Label(v, 1) + [QUOTE] == BEFORE_REQUEST;
  }
}
