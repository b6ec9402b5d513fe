/** Byte strings and their big- and little-endian readings. */
module Bytes {
  type byte = x: int | 0 <= x < 256

  const LIMB_BASE: nat := 0x1_0000_0000_0000_0000

  /** 256^n. */
  function BytePower(n: nat): (p: nat)
    ensures p > 0
  {
    if n == 0 then 1 else 256 * BytePower(n - 1)
  }

  function LittleEndian(s: seq<byte>): nat {
    if s == [] then 0 else s[0] + 256 * LittleEndian(s[1..])
  }

  function BigEndian(s: seq<byte>): nat {
    if s == [] then 0 else 256 * BigEndian(s[..|s| - 1]) + s[|s| - 1]
  }

  /** The n low bytes of v, least significant first. */
  function LittleEndianBytes(v: nat, n: nat): (s: seq<byte>)
    ensures |s| == n
  {
    if n == 0 then [] else [v % 256] + LittleEndianBytes(v / 256, n - 1)
  }

  function Reverse(s: seq<byte>): (r: seq<byte>)
    ensures |r| == |s|
    ensures forall i :: 0 <= i < |s| ==> r[i] == s[|s| - 1 - i]
  {
    seq(|s|, i requires 0 <= i < |s| => s[|s| - 1 - i])
  }

  lemma {:induction false} EncodeDecode(v: nat, n: nat)
    requires v < BytePower(n)
    ensures LittleEndian(LittleEndianBytes(v, n)) == v
  {
    if n > 0 {
      EncodeDecode(v / 256, n - 1);
      assert LittleEndianBytes(v, n)[1..] == LittleEndianBytes(v / 256, n - 1);
    }
  }

  lemma {:induction false} DecodeEncode(s: seq<byte>)
    ensures LittleEndian(s) < BytePower(|s|)
    ensures LittleEndianBytes(LittleEndian(s), |s|) == s
  {
    if s != [] {
      DecodeEncode(s[1..]);
    }
  }

  /** Reading a byte string backwards exchanges the two byte orders. */
  lemma {:induction false} ReverseExchanges(s: seq<byte>)
    ensures BigEndian(Reverse(s)) == LittleEndian(s)
  {
    if s != [] {
      ReverseExchanges(s[1..]);
      assert Reverse(s)[..|s| - 1] == Reverse(s[1..]);
    }
  }

  lemma ReverseTwice(s: seq<byte>)
    ensures Reverse(Reverse(s)) == s
  {
  }

  lemma ReverseConcat(a: seq<byte>, b: seq<byte>)
    ensures Reverse(a + b) == Reverse(b) + Reverse(a)
  {
  }

  lemma {:induction false} LittleEndianConcat(a: seq<byte>, b: seq<byte>)
    ensures LittleEndian(a + b) == LittleEndian(a) + BytePower(|a|) * LittleEndian(b)
  {
    if a == [] {
      assert a + b == b;
    } else {
      assert (a + b)[1..] == a[1..] + b;
      LittleEndianConcat(a[1..], b);
    }
  }

  lemma EightBytesFillALimb()
    ensures BytePower(8) == LIMB_BASE
  {
    assert BytePower(2) == 65536;
    assert BytePower(4) == 0x1_0000_0000;
    assert BytePower(6) == 0x1_0000_0000_0000;
  }
}
