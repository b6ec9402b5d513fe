/** Multi-limb integers: little-endian sequences of 64-bit limbs, of any length. */
module Vli {
  import opened Bytes
  import opened Outcomes
  import Modular

  type Limb = x: int | 0 <= x < LIMB_BASE

  /** The integer a limb sequence stands for. */
  function Value(v: seq<Limb>): nat {
    if v == [] then 0 else v[0] + LIMB_BASE * Value(v[1..])
  }

  /** 2^(64n). */
  function LimbPower(n: nat): (p: nat)
    ensures p > 0
  {
    if n == 0 then 1 else LIMB_BASE * LimbPower(n - 1)
  }

  function FromValue(v: nat, n: nat): (limbs: seq<Limb>)
    ensures |limbs| == n
  {
    if n == 0 then [] else [v % LIMB_BASE] + FromValue(v / LIMB_BASE, n - 1)
  }

  lemma {:induction false} ValueFits(v: seq<Limb>)
    ensures Value(v) < LimbPower(|v|)
  {
    if v != [] { ValueFits(v[1..]); }
  }

  lemma {:induction false} FromValueHasValue(v: nat, n: nat)
    requires v < LimbPower(n)
    ensures Value(FromValue(v, n)) == v
  {
    if n > 0 {
      FromValueHasValue(v / LIMB_BASE, n - 1);
      assert FromValue(v, n)[1..] == FromValue(v / LIMB_BASE, n - 1);
    }
  }

  lemma {:induction false} ValueDeterminesLimbs(a: seq<Limb>, b: seq<Limb>)
    requires |a| == |b| && Value(a) == Value(b)
    ensures a == b
  {
    if a != [] {
      assert a[0] == Value(a) % LIMB_BASE && b[0] == Value(b) % LIMB_BASE;
      ValueDeterminesLimbs(a[1..], b[1..]);
    }
  }

  lemma {:induction false} ValueAppend(v: seq<Limb>, x: Limb)
    ensures Value(v + [x]) == Value(v) + x * LimbPower(|v|)
  {
    if v == [] {
      assert v + [x] == [x];
      assert Value([x]) == x + LIMB_BASE * Value([x][1..]);
    } else {
      assert (v + [x])[1..] == v[1..] + [x];
      ValueAppend(v[1..], x);
      assert x * LimbPower(|v|) == LIMB_BASE * (x * LimbPower(|v| - 1));
    }
  }

  lemma ValuePrefix(v: seq<Limb>, i: nat)
    requires i < |v|
    ensures Value(v[..i + 1]) == Value(v[..i]) + v[i] * LimbPower(i)
  {
    assert v[..i + 1] == v[..i] + [v[i]];
    ValueAppend(v[..i], v[i]);
  }

  /** u64::overflowing_add. */
  function OverflowingAdd(a: Limb, b: Limb): (r: (Limb, bool))
    ensures r.0 + (if r.1 then LIMB_BASE else 0) == a + b
  {
    if a + b < LIMB_BASE then (a + b, false) else (a + b - LIMB_BASE, true)
  }

  lemma CarryStep(sum: nat, l: nat, r: nat, carry: nat, carry': nat, p: nat)
    requires sum + carry' * LIMB_BASE == l + r + carry
    ensures sum * p + carry' * (LIMB_BASE * p) == l * p + r * p + carry * p
  {
    calc {
      sum * p + carry' * (LIMB_BASE * p);
      (sum + carry' * LIMB_BASE) * p;
      (l + r + carry) * p;
      l * p + r * p + carry * p;
    }
  }

  /** Limb-wise addition with any initial carry. */
  method CarryingAdd(left: seq<Limb>, right: seq<Limb>, initialCarry: Limb) returns (sum: seq<Limb>, carry: Limb)
    requires |left| == |right|
    ensures |sum| == |left|
    ensures Value(sum) + carry * LimbPower(|left|) == Value(left) + Value(right) + initialCarry
    ensures initialCarry <= 1 ==> carry <= 1
    ensures left != [] ==> carry <= 2
  {
    var limbs := new Limb[|left|];
    carry := initialCarry;
    for i := 0 to |left|
      invariant Value(limbs[..i]) + carry * LimbPower(i) == Value(left[..i]) + Value(right[..i]) + initialCarry
      invariant initialCarry <= 1 ==> carry <= 1
      invariant i > 0 ==> carry <= 2
    {
      var (half, leftCarry) := OverflowingAdd(left[i], right[i]);
      var (total, carryCarry) := OverflowingAdd(half, carry);
      limbs[i] := total;
      var carry': Limb := (if leftCarry then 1 else 0) + (if carryCarry then 1 else 0);
      assert total + carry' * LIMB_BASE == left[i] + right[i] + carry;
      CarryStep(total, left[i], right[i], carry, carry', LimbPower(i));
      ValuePrefix(left, i);
      ValuePrefix(right, i);
      ValuePrefix(limbs[..], i);
      assert limbs[..][..i] == limbs[..i] && limbs[..][..i + 1] == limbs[..i + 1];
      carry := carry';
    }
    assert limbs[..|left|] == limbs[..] && left[..|left|] == left && right[..|right|] == right;
    sum := limbs[..];
  }

  lemma BorrowStep(diff: int, l: int, r: int, borrow: int, borrow': int, p: int)
    requires diff == l - r - borrow + borrow' * LIMB_BASE
    ensures diff * p == l * p - r * p - borrow * p + borrow' * (LIMB_BASE * p)
  {
    calc {
      diff * p;
      (l - r - borrow + borrow' * LIMB_BASE) * p;
      l * p - r * p - borrow * p + borrow' * (LIMB_BASE * p);
    }
  }

  /** Limb-wise wrapping subtraction and the final borrow. */
  method SubWithBorrow(left: seq<Limb>, right: seq<Limb>) returns (difference: seq<Limb>, borrow: Limb)
    requires |left| == |right|
    ensures |difference| == |left| && borrow <= 1
    ensures Value(difference) == Value(left) - Value(right) + borrow * LimbPower(|left|)
  {
    var limbs := new Limb[|left|];
    borrow := 0;
    for i := 0 to |left|
      invariant borrow <= 1
      invariant Value(limbs[..i]) == Value(left[..i]) - Value(right[..i]) + borrow * LimbPower(i)
    {
      var diff: Limb := (left[i] - right[i] - borrow) % LIMB_BASE;
      var borrow' := borrow;
      if diff != left[i] {
        borrow' := if diff > left[i] then 1 else 0;
      }
      limbs[i] := diff;
      BorrowStep(diff, left[i], right[i], borrow, borrow', LimbPower(i));
      ValuePrefix(left, i);
      ValuePrefix(right, i);
      ValuePrefix(limbs[..], i);
      assert limbs[..][..i] == limbs[..i] && limbs[..][..i + 1] == limbs[..i + 1];
      borrow := borrow';
    }
    assert limbs[..|left|] == limbs[..] && left[..|left|] == left && right[..|right|] == right;
    difference := limbs[..];
  }

  lemma {:induction false} HigherLimbDecides(a: seq<Limb>, b: seq<Limb>, i: nat)
    requires |a| == |b| && i < |a| && a[i] < b[i] && a[i + 1..] == b[i + 1..]
    ensures Value(a) < Value(b)
  {
    if i == 0 {
      assert Value(a[1..]) == Value(b[1..]);
    } else {
      assert a[1..][i..] == a[i + 1..] && b[1..][i..] == b[i + 1..];
      HigherLimbDecides(a[1..], b[1..], i - 1);
    }
  }

  /** The order of two limb sequences, decided from the most significant limb down. */
  method Compare(left: seq<Limb>, right: seq<Limb>) returns (order: int)
    requires |left| == |right|
    ensures order < 0 <==> Value(left) < Value(right)
    ensures order == 0 <==> Value(left) == Value(right)
  {
    var i := |left|;
    while i > 0
      invariant 0 <= i <= |left|
      invariant left[i..] == right[i..]
    {
      i := i - 1;
      if left[i] > right[i] {
        HigherLimbDecides(right, left, i);
        return 1;
      } else if left[i] < right[i] {
        HigherLimbDecides(left, right, i);
        return -1;
      }
      assert left[i..] == [left[i]] + left[i + 1..] && right[i..] == [right[i]] + right[i + 1..];
    }
    assert left[0..] == left && right[0..] == right;
    order := 0;
  }

  lemma ReducedBySubtraction(v: nat, m: nat)
    requires 0 < m && v < 2 * m
    ensures v % m == if v < m then v else v - m
  {
    if v < m {
      Modular.SmallRemainder(v, m);
    } else {
      Modular.DividesBy(m, v - (v - m), 1);
      Modular.CongruentRemainders(v, v - m, m);
      Modular.SmallRemainder(v - m, m);
    }
  }

  /** One conditional subtraction: full reduction of anything below twice the modulus. */
  method ReduceOnce(v: seq<Limb>, modulus: seq<Limb>) returns (reduced: seq<Limb>)
    requires |v| == |modulus| && Value(v) < 2 * Value(modulus)
    ensures |reduced| == |v| && Value(reduced) == Value(v) % Value(modulus)
  {
    ReducedBySubtraction(Value(v), Value(modulus));
    reduced := v;
    var order := Compare(v, modulus);
    if order >= 0 {
      var difference, borrow := SubWithBorrow(v, modulus);
      ValueFits(difference);
      assert borrow == 0;
      reduced := difference;
    }
  }

  /** A sum with carry below twice the modulus, reduced. The sum may overflow the limbs: then
      the subtraction wraps, and the borrow it discards is exactly the carry. */
  method AddCarryReduced(a: seq<Limb>, b: seq<Limb>, carryIn: Limb, modulus: seq<Limb>) returns (reduced: seq<Limb>)
    requires |a| == |b| == |modulus| && Value(a) + Value(b) + carryIn < 2 * Value(modulus)
    requires carryIn <= 1
    ensures |reduced| == |a| && Value(reduced) == (Value(a) + Value(b) + carryIn) % Value(modulus)
  {
    ReducedBySubtraction(Value(a) + Value(b) + carryIn, Value(modulus));
    var sum, carry := CarryingAdd(a, b, carryIn);
    ValueFits(sum);
    ValueFits(modulus);
    var order := Compare(sum, modulus);
    reduced := sum;
    if carry != 0 || order >= 0 {
      var difference, borrow := SubWithBorrow(sum, modulus);
      ValueFits(difference);
      assert borrow == carry;
      reduced := difference;
    }
  }

  /** The sum of two reduced numbers, reduced again. */
  method AddReduced(a: seq<Limb>, b: seq<Limb>, modulus: seq<Limb>) returns (reduced: seq<Limb>)
    requires |a| == |b| == |modulus| && Value(a) < Value(modulus) && Value(b) < Value(modulus)
    ensures |reduced| == |a| && Value(reduced) == (Value(a) + Value(b)) % Value(modulus)
  {
    reduced := AddCarryReduced(a, b, 0, modulus);
  }

  method IsZero(v: seq<Limb>) returns (zero: bool)
    ensures zero <==> Value(v) == 0
  {
    zero := true;
    for i := 0 to |v|
      invariant zero <==> Value(v[..i]) == 0
    {
      ValuePrefix(v, i);
      zero := zero && v[i] == 0;
      assert v[i] > 0 ==> v[i] * LimbPower(i) > 0;
    }
    assert v[..|v|] == v;
  }

  // ----- Byte order -----

  /** The bytes of a limb array as they lie in memory on a little-endian machine. */
  function MemoryBytes(v: seq<Limb>): (s: seq<byte>)
    ensures |s| == 8 * |v|
  {
    if v == [] then [] else LittleEndianBytes(v[0], 8) + MemoryBytes(v[1..])
  }

  /** u64::from_be on a little-endian machine. */
  function ByteSwap(x: Limb): (y: Limb)
    ensures LittleEndianBytes(y, 8) == Reverse(LittleEndianBytes(x, 8))
  {
    EightBytesFillALimb();
    var swapped := Reverse(LittleEndianBytes(x, 8));
    DecodeEncode(swapped);
    LittleEndian(swapped)
  }

  lemma ByteSwapTwice(x: Limb)
    ensures ByteSwap(ByteSwap(x)) == x
  {
    EightBytesFillALimb();
    ReverseTwice(LittleEndianBytes(x, 8));
    EncodeDecode(x, 8);
    EncodeDecode(ByteSwap(ByteSwap(x)), 8);
  }

  /** Limbs in reverse order, each byte-swapped: the format in which coordinates are returned. */
  function Swapped(v: seq<Limb>): (r: seq<Limb>)
    ensures |r| == |v|
  {
    seq(|v|, i requires 0 <= i < |v| => ByteSwap(v[|v| - 1 - i]))
  }

  /** Swapping undoes itself, so unswapping a swapped coordinate restores its limbs. */
  lemma SwappedTwice(v: seq<Limb>)
    ensures Swapped(Swapped(v)) == v
  {
    forall i | 0 <= i < |v| ensures Swapped(Swapped(v))[i] == v[i] {
      ByteSwapTwice(v[i]);
    }
  }

  method Unswap(v: seq<Limb>) returns (r: seq<Limb>)
    ensures r == Swapped(v)
  {
    var out := new Limb[|v|];
    for i := 0 to |v|
      invariant forall j :: 0 <= j < i ==> out[j] == ByteSwap(v[|v| - 1 - j])
    {
      out[i] := ByteSwap(v[|v| - 1 - i]);
    }
    r := out[..];
  }

  /** Limbs and memory bytes are the same little-endian number. */
  lemma {:induction false} MemoryValue(v: seq<Limb>)
    ensures LittleEndian(MemoryBytes(v)) == Value(v)
  {
    if v != [] {
      EightBytesFillALimb();
      MemoryValue(v[1..]);
      EncodeDecode(v[0], 8);
      LittleEndianConcat(LittleEndianBytes(v[0], 8), MemoryBytes(v[1..]));
    }
  }

  lemma {:induction false} MemoryAppend(v: seq<Limb>, x: Limb)
    ensures MemoryBytes(v + [x]) == MemoryBytes(v) + LittleEndianBytes(x, 8)
  {
    if v == [] {
      assert v + [x] == [x];
      assert MemoryBytes([x][1..]) == [];
    } else {
      assert (v + [x])[1..] == v[1..] + [x];
      MemoryAppend(v[1..], x);
    }
  }

  lemma {:induction false} SwappedMemory(v: seq<Limb>)
    ensures MemoryBytes(Swapped(v)) == Reverse(MemoryBytes(v))
  {
    if v != [] {
      assert Swapped(v) == Swapped(v[1..]) + [ByteSwap(v[0])];
      SwappedMemory(v[1..]);
      MemoryAppend(Swapped(v[1..]), ByteSwap(v[0]));
      ReverseConcat(LittleEndianBytes(v[0], 8), MemoryBytes(v[1..]));
    }
  }

  /** A swapped coordinate read as raw memory is its big-endian encoding. */
  lemma SwappedMemoryIsBigEndian(v: seq<Limb>)
    ensures BigEndian(MemoryBytes(Swapped(v))) == Value(v)
  {
    SwappedMemory(v);
    ReverseExchanges(MemoryBytes(v));
    MemoryValue(v);
  }

  lemma BigEndianLimb(group: seq<byte>)
    requires |group| == 8
    ensures BigEndian(group) < LIMB_BASE
    ensures LittleEndianBytes(BigEndian(group), 8) == Reverse(group)
  {
    EightBytesFillALimb();
    DecodeEncode(Reverse(group));
    ReverseExchanges(Reverse(group));
    ReverseTwice(group);
  }

  lemma PrependGroup(limbs: seq<Limb>, group: seq<byte>, rest: seq<byte>)
    requires |group| == 8 && MemoryBytes(limbs) == Reverse(rest)
    ensures BigEndian(group) < LIMB_BASE
    ensures MemoryBytes(limbs + [BigEndian(group)]) == Reverse(group + rest)
  {
    BigEndianLimb(group);
    MemoryAppend(limbs, BigEndian(group));
    ReverseConcat(group, rest);
  }

  /** Limbs from exactly 8 bytes each, most significant byte first; any other length is refused. */
  method FromBigEndianBytes(s: seq<byte>, n: nat) returns (r: Result<seq<Limb>>)
    ensures r.Ok? <==> |s| == 8 * n
    ensures r.Ok? ==> |r.value| == n && Value(r.value) == BigEndian(s)
    ensures r.Err? ==> r.error == EINVAL
  {
    if |s| != 8 * n {
      return Err(EINVAL);
    }
    var out := new Limb[n];
    for i := 0 to n
      invariant MemoryBytes(out[..i]) == Reverse(s[8 * (n - i)..])
    {
      var group := s[8 * (n - 1 - i)..8 * (n - i)];
      PrependGroup(out[..i], group, s[8 * (n - i)..]);
      out[i] := BigEndian(group);
      assert out[..i + 1] == out[..i] + [BigEndian(group)];
      assert s[8 * (n - 1 - i)..] == group + s[8 * (n - i)..];
    }
    assert out[..n] == out[..] && s[0..] == s;
    MemoryValue(out[..]);
    ReverseTwice(s);
    ReverseExchanges(Reverse(s));
    r := Ok(out[..]);
  }

  /** The big-endian bytes of a number, filled in limb by limb from the top limb down. */
  method ToBigEndianBytes(v: seq<Limb>) returns (s: seq<byte>)
    ensures |s| == 8 * |v|
    ensures BigEndian(s) == Value(v)
  {
    var out := new byte[8 * |v|];
    for i := 0 to |v|
      invariant out[..8 * i] == MemoryBytes(Swapped(v)[..i])
    {
      ghost var before := out[..8 * i];
      var limbBytes := Reverse(LittleEndianBytes(v[|v| - 1 - i], 8));
      forall j | 0 <= j < 8 { out[8 * i + j] := limbBytes[j]; }
      assert out[..8 * i] == before;
      assert out[8 * i..8 * i + 8] == limbBytes;
      assert out[..8 * (i + 1)] == out[..8 * i] + out[8 * i..8 * i + 8];
      assert Swapped(v)[..i + 1] == Swapped(v)[..i] + [ByteSwap(v[|v| - 1 - i])];
      MemoryAppend(Swapped(v)[..i], ByteSwap(v[|v| - 1 - i]));
    }
    assert Swapped(v)[..|v|] == Swapped(v);
    SwappedMemoryIsBigEndian(v);
    assert out[..8 * |v|] == out[..];
    s := out[..];
  }
}
