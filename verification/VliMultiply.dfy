/** Multiplication modulo a number on limbs: the full product row by row, then reduction by shifting
    in one bit at a time and subtracting. */
module VliMultiply {
  import opened Bytes
  import opened Vli
  import opened Modular

  // ----- The full product -----

  lemma {:induction false} ValueConcat(a: seq<Limb>, b: seq<Limb>)
    ensures Value(a + b) == Value(a) + LimbPower(|a|) * Value(b)
  {
    if a == [] {
      assert a + b == b;
    } else {
      assert (a + b)[1..] == a[1..] + b;
      ValueConcat(a[1..], b);
      assert LimbPower(|a|) * Value(b) == LIMB_BASE * (LimbPower(|a| - 1) * Value(b));
    }
  }

  lemma ProductBound(x: int, y: int, b: int)
    requires 0 <= x <= b && 0 <= y <= b
    ensures x * y <= b * b
  {
    assert x * y <= x * b <= b * b;
  }

  /** A limb product with two limbs added fits two limbs. */
  lemma ProductFits(x: Limb, y: Limb, a: Limb, carry: Limb)
    ensures a + x * y + carry < LIMB_BASE * LIMB_BASE
  {
    ProductBound(x, y, LIMB_BASE - 1);
  }

  lemma DivisionSplits(total: nat)
    requires total < LIMB_BASE * LIMB_BASE
    ensures total / LIMB_BASE < LIMB_BASE && total == total % LIMB_BASE + total / LIMB_BASE * LIMB_BASE
  {
  }

  lemma RowStep(limb: int, a: int, x: int, y: int, carry: int, carry': int, p: int)
    requires limb + carry' * LIMB_BASE == a + x * y + carry
    ensures limb * p + carry' * (LIMB_BASE * p) == a * p + x * (y * p) + carry * p
  {
    calc {
      limb * p + carry' * (LIMB_BASE * p);
      (limb + carry' * LIMB_BASE) * p;
      (a + x * y + carry) * p;
      a * p + (x * y) * p + carry * p;
      { assert (x * y) * p == x * (y * p); }
      a * p + x * (y * p) + carry * p;
    }
  }

  lemma RowExtends(done: int, a: int, x: int, right: int, step: int, row: int)
    requires done == a + x * right
    ensures done + row + x * step == (a + row) + x * (right + step)
  {
  }

  /** acc + x * right, one limb at a time. */
  method MultiplyRow(acc: seq<Limb>, x: Limb, right: seq<Limb>) returns (row: seq<Limb>, carry: Limb)
    requires |acc| == |right|
    ensures |row| == |right|
    ensures Value(row) + carry * LimbPower(|right|) == Value(acc) + x * Value(right)
  {
    row, carry := [], 0;
    for i := 0 to |right|
      invariant |row| == i
      invariant Value(row) + carry * LimbPower(i) == Value(acc[..i]) + x * Value(right[..i])
    {
      var total := acc[i] + x * right[i] + carry;
      ProductFits(x, right[i], acc[i], carry);
      DivisionSplits(total);
      var limb: Limb, carry': Limb := total % LIMB_BASE, total / LIMB_BASE;
      RowStep(limb, acc[i], x, right[i], carry, carry', LimbPower(i));
      ValueAppend(row, limb);
      ValuePrefix(acc, i);
      ValuePrefix(right, i);
      RowExtends(Value(acc[..i]) + x * Value(right[..i]), Value(acc[..i]), x, Value(right[..i]), right[i] * LimbPower(i),
                 acc[i] * LimbPower(i));
      row, carry := row + [limb], carry';
    }
    assert acc[..|right|] == acc && right[..|right|] == right;
  }

  lemma ProductStep(low: int, high: int, first: int, high': int, p: int, left: int, x: int, right: int)
    requires low + p * high == left * right && first + LIMB_BASE * high' == high + x * right
    ensures (low + first * p) + (LIMB_BASE * p) * high' == (left + x * p) * right
  {
    calc {
      (low + first * p) + (LIMB_BASE * p) * high';
      { assert (LIMB_BASE * p) * high' == p * (LIMB_BASE * high'); }
      low + p * (first + LIMB_BASE * high');
      low + p * (high + x * right);
      { assert p * (high + x * right) == p * high + p * (x * right); }
      left * right + p * (x * right);
      { assert p * (x * right) == (x * p) * right; }
      (left + x * p) * right;
    }
  }

  /** The row's lowest limb is final; the others and the carry are carried over to the next row. */
  lemma RowShifts(row: seq<Limb>, carry: Limb)
    requires row != []
    ensures row[0] + LIMB_BASE * Value(row[1..] + [carry]) == Value(row) + carry * LimbPower(|row|)
  {
    ValueAppend(row, carry);
    assert (row + [carry])[1..] == row[1..] + [carry];
  }

  /** The double-length product. */
  method Multiply(left: seq<Limb>, right: seq<Limb>) returns (product: seq<Limb>)
    requires |left| == |right|
    ensures |product| == 2 * |right| && Value(product) == Value(left) * Value(right)
  {
    var low: seq<Limb>, high: seq<Limb> := [], FromValue(0, |right|);
    FromValueHasValue(0, |right|);
    for i := 0 to |left|
      invariant |low| == i && |high| == |right|
      invariant Value(low) + LimbPower(i) * Value(high) == Value(left[..i]) * Value(right)
    {
      var row, carry := MultiplyRow(high, left[i], right);
      RowShifts(row, carry);
      ProductStep(Value(low), Value(high), row[0], Value(row[1..] + [carry]), LimbPower(i), Value(left[..i]), left[i],
                  Value(right));
      ValueAppend(low, row[0]);
      ValuePrefix(left, i);
      low, high := low + [row[0]], row[1..] + [carry];
    }
    assert left[..|left|] == left;
    ValueConcat(low, high);
    product := low + high;
  }

  // ----- Reduction -----

  /** 2^k. */
  function Two(k: nat): (p: nat)
    ensures p > 0
  {
    if k == 0 then 1 else 2 * Two(k - 1)
  }

  lemma {:induction false} TwoSum(a: nat, b: nat)
    ensures Two(a + b) == Two(a) * Two(b)
  {
    if a > 0 {
      TwoSum(a - 1, b);
      assert (2 * Two(a - 1)) * Two(b) == 2 * (Two(a - 1) * Two(b));
    }
  }

  lemma SixtyFourBits()
    ensures Two(64) == LIMB_BASE
  {
    assert Two(4) == 16;
    TwoSum(4, 4);
    TwoSum(8, 8);
    TwoSum(16, 16);
    TwoSum(32, 32);
  }

  lemma DivisionIsUnique(a: int, d: int, q: int, r: int)
    requires d > 0 && a == q * d + r && 0 <= r < d
    ensures a / d == q
  {
    var q', r' := a / d, a % d;
    assert a == q' * d + r';
    assert (q' - q) * d == r - r';
    SmallMultipleIsZero(r - r', q' - q, d);
    assert q' - q >= 1 ==> (q' - q) * d >= d;
    assert q' - q <= -1 ==> (q' - q) * d <= -d;
  }

  lemma BitBelow(half: int, bit: int, p: int, r: int)
    requires 0 <= r < p && (bit == 0 || bit == 1)
    ensures (2 * half + bit) * p + r == half * (2 * p) + (bit * p + r)
    ensures 0 <= bit * p + r < 2 * p
  {
    assert (2 * half + bit) * p == half * (2 * p) + bit * p;
  }

  /** The next lower bit of x joins the bits taken so far. */
  lemma NextBit(x: nat, p: nat)
    requires p > 0
    ensures x / p == 2 * (x / (2 * p)) + x / p % 2
  {
    var q, r := x / p, x % p;
    var half, bit := q / 2, q % 2;
    assert q == 2 * half + bit && x == q * p + r;
    BitBelow(half, bit, p, r);
    DivisionIsUnique(x, 2 * p, half, bit * p + r);
  }

  /** Reducing before multiplying and adding makes no difference. */
  lemma RemainderStep(v: int, b: int, x: int, m: int)
    requires m > 0
    ensures Congruent(b * (v % m) + x, b * v + x, m)
  {
    CongruentToRemainder(v, m);
    CongruentScale(v % m, v, b, m);
    DividesBy(m, x - x, 0);
    CongruentAdd(b * (v % m), b * v, x, x, m);
  }

  lemma TakenBits(v: int, p: int, taken: int, bit: int, taken': int)
    requires taken' == 2 * taken + bit
    ensures 2 * (v * p + taken) + bit == v * (2 * p) + taken'
  {
  }

  /** Shifting in the k-th bit of x. */
  lemma BitStep(v: nat, x: nat, k: nat, m: nat)
    requires m > 0 && k < 64
    ensures var before := v * Two(63 - k) + x / Two(k + 1);
            (2 * (before % m) + x / Two(k) % 2) % m == (v * Two(64 - k) + x / Two(k)) % m
  {
    var taken, bit := x / Two(k + 1), x / Two(k) % 2;
    NextBit(x, Two(k));
    var before := v * Two(63 - k) + taken;
    RemainderStep(before, 2, bit, m);
    CongruentRemainders(2 * (before % m) + bit, 2 * before + bit, m);
    TakenBits(v, Two(63 - k), taken, bit, x / Two(k));
  }

  /** Above its top bit a limb is empty. */
  lemma NoBitsAbove(x: Limb)
    ensures Two(64) == LIMB_BASE && x / Two(64) == 0
  {
    SixtyFourBits();
    DivisionIsUnique(x, LIMB_BASE, 0, x);
  }

  /** Shift one limb into a remainder, bit by bit from the top, subtracting where it overflows. */
  method ShiftInLimb(remainder: seq<Limb>, x: Limb, modulus: seq<Limb>) returns (shifted: seq<Limb>)
    requires |remainder| == |modulus| && Value(remainder) < Value(modulus)
    ensures |shifted| == |modulus| && Value(shifted) == (Value(remainder) * LIMB_BASE + x) % Value(modulus)
  {
    ghost var v, m := Value(remainder), Value(modulus);
    NoBitsAbove(x);
    SmallRemainder(v, m);
    shifted := remainder;
    for k := 64 downto 0
      invariant |shifted| == |modulus| && Value(shifted) < m
      invariant Value(shifted) == (v * Two(64 - k) + x / Two(k)) % m
    {
      shifted := AddCarryReduced(shifted, shifted, x / Two(k) % 2, modulus);
      BitStep(v, x, k, m);
    }
  }

  /** A number of any length modulo the modulus. */
  method Reduce(v: seq<Limb>, modulus: seq<Limb>) returns (remainder: seq<Limb>)
    requires Value(modulus) > 0
    ensures |remainder| == |modulus| && Value(remainder) == Value(v) % Value(modulus)
  {
    remainder := FromValue(0, |modulus|);
    FromValueHasValue(0, |modulus|);
    SmallRemainder(0, Value(modulus));
    for i := |v| downto 0
      invariant |remainder| == |modulus| && Value(remainder) == Value(v[i..]) % Value(modulus)
    {
      remainder := ShiftInLimb(remainder, v[i], modulus);
      assert v[i..][0] == v[i] && v[i..][1..] == v[i + 1..];
      RemainderStep(Value(v[i + 1..]), LIMB_BASE, v[i], Value(modulus));
      CongruentRemainders(LIMB_BASE * (Value(v[i + 1..]) % Value(modulus)) + v[i], Value(v[i..]), Value(modulus));
    }
    assert v[0..] == v;
  }

  /** left * right modulo modulus. */
  method ModMult(left: seq<Limb>, right: seq<Limb>, modulus: seq<Limb>) returns (r: seq<Limb>)
    requires |left| == |right| && Value(modulus) > 0
    ensures |r| == |modulus| && Value(r) == (Value(left) * Value(right)) % Value(modulus)
  {
    var product := Multiply(left, right);
    r := Reduce(product, modulus);
  }
}
