/**
  Bytes as C computes with them, bit by bit where the operator is one on bits.
*/
module Bytes {
  import opened Powers

  type Byte = x: nat | x < 256

  datatype BitOp = And | AndNot | Or | Xor {
    function OnBit(x: nat, y: nat): nat {
      match this
      case And => if x == 1 && y == 1 then 1 else 0
      case AndNot => if x == 1 && y == 0 then 1 else 0
      case Or => if x == 1 || y == 1 then 1 else 0
      case Xor => if x != y then 1 else 0
    }
  }

  // The operator on all bits of x and y: where both have none left, the result has none either.
  function OnBits(op: BitOp, x: nat, y: nat): nat
    decreases x + y
  {
    if x == 0 && y == 0 then 0 else op.OnBit(x % 2, y % 2) + 2 * OnBits(op, x / 2, y / 2)
  }

  lemma {:induction false} OnBitsFits(op: BitOp, x: nat, y: nat, k: nat)
    requires x < Pow2(k) && y < Pow2(k)
    ensures OnBits(op, x, y) < Pow2(k)
  {
    if k > 0 && (x > 0 || y > 0) {
      OnBitsFits(op, x / 2, y / 2, k - 1);
    }
  }

  function OnBytes(op: BitOp, x: Byte, y: Byte): Byte {
    assert Pow2(4) == 16 && Pow2(8) == 256;
    OnBitsFits(op, x, y, 8);
    OnBits(op, x, y)
  }

  lemma {:induction false} XorIsDifference(x: nat, y: nat)
    ensures OnBits(Xor, x, y) == 0 <==> x == y
    decreases x + y
  {
    if x > 0 || y > 0 {
      XorIsDifference(x / 2, y / 2);
    }
  }

  lemma {:induction false} OrWithNothing(x: nat)
    ensures OnBits(Or, x, 0) == x == OnBits(Or, 0, x)
  {
    if x > 0 {
      OrWithNothing(x / 2);
    }
  }

  // The highest of k bits
  lemma {:induction false} HighestBit(x: nat, y: nat, k: nat)
    requires k > 0 && x < Pow2(k) && y < Pow2(k)
    ensures OnBits(And, x, Pow2(k - 1)) == if x >= Pow2(k - 1) then Pow2(k - 1) else 0
    ensures OnBits(AndNot, x, y) >= Pow2(k - 1) <==> x >= Pow2(k - 1) && y < Pow2(k - 1)
  {
    if k > 1 {
      HighestBit(x / 2, y / 2, k - 1);
      assert Pow2(k - 1) / 2 == Pow2(k - 2) && Pow2(k - 1) % 2 == 0;
    }
  }

  // One byte of a subtraction, negative when it borrows from the next
  function Difference(x: Byte, y: Byte, borrow: bool): int {
    x - y - if borrow then 1 else 0
  }

  // The high bit, if subtracting one sets it in a byte that had it clear
  function TestByte(x: Byte, borrow: bool): Byte {
    OnBytes(And, OnBytes(AndNot, Difference(x, 1, borrow) % 256, x), 0x80)
  }

  // The test on k bits
  lemma TestBits(difference: nat, x: nat, k: nat, highest: nat)
    requires k > 0 && x < Pow2(k) && difference < Pow2(k) && highest == Pow2(k - 1)
    ensures OnBits(And, OnBits(AndNot, difference, x), highest) == 0 <==> difference < highest || x >= highest
  {
    HighestBit(difference, x, k);
    OnBitsFits(AndNot, difference, x, k);
    HighestBit(OnBits(AndNot, difference, x), 0, k);
  }

  lemma TestByteFindsZero(x: Byte)
    ensures TestByte(x, false) == 0 <==> x != 0
  {
    var difference: nat := if x == 0 then 255 else x - 1;
    assert difference == Difference(x, 1, false) % 256;
    assert Pow2(3) == 8 && Pow2(7) == 128 && Pow2(8) == 256;
    TestBits(difference, x, 8, 0x80);
  }
}

/**
  Unsigned machine words of any size, as their bytes from the least significant up. The operators
  work byte by byte; subtraction carries a borrow, and is subtraction of the words' values.
*/
module Words {
  import opened Bytes
  import opened Powers

  type Word = seq<Byte>

  function Bitwise(op: BitOp, a: Word, b: Word): (r: Word)
    requires |a| == |b|
    ensures |r| == |a| && forall i :: 0 <= i < |a| ==> r[i] == OnBytes(op, a[i], b[i])
  {
    seq(|a|, i requires 0 <= i < |a| => OnBytes(op, a[i], b[i]))
  }

  // The byte c in each of w bytes
  function Repeated(c: Byte, w: nat): (r: Word)
    ensures |r| == w && forall i :: 0 <= i < w ==> r[i] == c
  {
    seq(w, _ => c)
  }

  // a << 8 * k
  function ShlBytes(a: Word, k: nat): (r: Word)
    ensures |r| == |a|
    ensures forall i {:trigger r[i]} :: 0 <= i < |a| ==> r[i] == if i < k then 0 else a[i - k]
  {
    seq(|a|, i requires 0 <= i < |a| => if i < k then 0 else a[i - k])
  }

  // One byte of a << 7: its highest bit is the lowest of x, the others come from the byte below.
  function ShlSevenByte(x: Byte, below: Byte): Byte {
    x % 2 * 128 + below / 2
  }

  function ShlSeven(a: Word): (r: Word)
    ensures |r| == |a|
    ensures forall i {:trigger r[i]} :: 0 <= i < |a| ==> r[i] == ShlSevenByte(a[i], if i == 0 then 0 else a[i - 1])
  {
    seq(|a|, i requires 0 <= i < |a| => ShlSevenByte(a[i], if i == 0 then 0 else a[i - 1]))
  }

  lemma OnesShiftToHighBits(w: nat)
    ensures ShlSeven(Repeated(1, w)) == Repeated(0x80, w)
  {
    var (ones, highBits) := (Repeated(1, w), Repeated(0x80, w));
    var shifted := ShlSeven(ones);
    forall i | 0 <= i < w ensures shifted[i] == highBits[i] {
      assert shifted[i] == ShlSevenByte(1, if i == 0 then 0 else 1);
    }
  }

  function Sub(a: Word, b: Word, borrow: bool): (r: Word)
    requires |a| == |b|
    ensures |r| == |a|
  {
    if a == [] then []
    else [Difference(a[0], b[0], borrow) % 256] + Sub(a[1..], b[1..], Difference(a[0], b[0], borrow) < 0)
  }

  // ----- the value of a word -----

  function Pow256(w: nat): nat {
    if w == 0 then 1 else 256 * Pow256(w - 1)
  }

  function Value(a: Word): (v: nat)
    ensures v < Pow256(|a|)
  {
    if a == [] then 0 else a[0] + 256 * Value(a[1..])
  }

  // A difference modulo power
  function Wrapped(difference: int, power: nat): int {
    if difference < 0 then difference + power else difference
  }

  // d is the difference of the lowest bytes, high that of the rest, and power 256 to the number of bytes in the rest.
  lemma BorrowIsCarriedOn(d: int, high: int, power: nat)
    requires -256 <= d < 256
    ensures Wrapped(d, 256) + 256 * Wrapped(high - if d < 0 then 1 else 0, power)
            == Wrapped(d + 256 * high, 256 * power)
  {
  }

  lemma SubSplits(a: Word, b: Word, borrow: bool) returns (d: int)
    requires a != [] && |a| == |b|
    ensures -256 <= d < 256
    ensures Value(a) - Value(b) - (if borrow then 1 else 0) == d + 256 * (Value(a[1..]) - Value(b[1..]))
    ensures Value(Sub(a, b, borrow)) == Wrapped(d, 256) + 256 * Value(Sub(a[1..], b[1..], d < 0))
  {
    d := Difference(a[0], b[0], borrow);
    assert d % 256 == Wrapped(d, 256);
    ValueOfCons(d % 256, Sub(a[1..], b[1..], d < 0));
  }

  // Sub is subtraction modulo 256^w.
  lemma {:induction false} SubIsModular(a: Word, b: Word, borrow: bool)
    requires |a| == |b|
    ensures Value(Sub(a, b, borrow)) == Wrapped(Value(a) - Value(b) - if borrow then 1 else 0, Pow256(|a|))
  {
    if a != [] {
      var d := SubSplits(a, b, borrow);
      SubIsModular(a[1..], b[1..], d < 0);
      BorrowIsCarriedOn(d, Value(a[1..]) - Value(b[1..]), Pow256(|a| - 1));
    }
  }

  lemma ValueOfCons(x: Byte, rest: Word)
    ensures Value([x] + rest) == x + 256 * Value(rest)
  {
  }

  predicate IsZero(a: Word) {
    forall i :: 0 <= i < |a| ==> a[i] == 0
  }

  // ----- shifts by values -----

  lemma {:induction false} ValueOfConcat(low: Word, high: Word)
    ensures Value(low + high) == Value(low) + Pow256(|low|) * Value(high)
  {
    if low == [] {
      assert low + high == high;
    } else {
      var rest := low[1..] + high;
      assert low + high == [low[0]] + rest;
      ValueOfCons(low[0], rest);
      ValueOfConcat(low[1..], high);
      Distributes(256, Value(low[1..]), Pow256(|low| - 1), Value(high));
    }
  }

  lemma {:induction false} Pow256Adds(a: nat, b: nat)
    ensures Pow256(a + b) == Pow256(a) * Pow256(b)
  {
    if a > 0 {
      Pow256Adds(a - 1, b);
      assert Pow256(a) * Pow256(b) == 256 * (Pow256(a - 1) * Pow256(b));
    }
  }

  lemma {:induction false} ZerosHaveNoValue(a: Word)
    requires IsZero(a)
    ensures Value(a) == 0
  {
    if a != [] {
      ZerosHaveNoValue(a[1..]);
    }
  }

  lemma {:induction false} PowerIsPositive(w: nat)
    ensures Pow256(w) > 0
  {
    if w > 0 {
      PowerIsPositive(w - 1);
    }
  }

  lemma IsRemainder(v: nat, m: nat, q: int, r: nat)
    requires r < m && v == m * q + r
    ensures v % m == r
  {
    RemainderIsUnique(m, q, r, v / m, v % m);
  }

  // Shifted in are k zeros; shifted out is the part of a from m on.
  lemma ShlBytesSplits(a: Word, k: nat)
    ensures var m := if k <= |a| then |a| - k else 0;
            Value(ShlBytes(a, k)) == Pow256(|a| - m) * Value(a[..m])
    ensures k <= |a| ==> Value(a) == Value(a[..|a| - k]) + Pow256(|a| - k) * Value(a[|a| - k..])
  {
    var m := if k <= |a| then |a| - k else 0;
    var zeros := ShlBytes(a, k)[..|a| - m];
    assert ShlBytes(a, k) == zeros + a[..m];
    assert a == a[..m] + a[m..];
    ZerosHaveNoValue(zeros);
    ValueOfConcat(zeros, a[..m]);
    ValueOfConcat(a[..m], a[m..]);
  }

  lemma Distributes(x: nat, y: nat, p: nat, z: nat)
    ensures x * (y + p * z) == (x * p) * z + x * y
  {
    assert x * (p * z) == (x * p) * z;
  }

  lemma RemainderOfSum(x: nat, low: nat, p: nat, high: nat, value: nat, power: nat, r: nat)
    requires value == low + p * high && power == x * p && r == x * low && r < power
    ensures x * value % power == r
  {
    Distributes(x, low, p, high);
    IsRemainder(x * value, power, high, r);
  }

  lemma NoRemainder(m: nat, x: nat, power: nat, value: nat)
    requires m > 0 && power == m * x
    ensures power * value % m == 0
  {
    var quotient := x * value;
    assert (m * x) * value == m * quotient;
    IsRemainder(power * value, m, quotient, 0);
  }

  // a << 8 * k is multiplication modulo 256^w.
  lemma ShlBytesMultiplies(a: Word, k: nat)
    ensures Pow256(|a|) > 0 && Value(ShlBytes(a, k)) == Pow256(k) * Value(a) % Pow256(|a|)
  {
    PowerIsPositive(|a|);
    if k <= |a| {
      ShlBytesWithin(a, k);
    } else {
      ShlBytesBeyond(a, k);
    }
  }

  lemma ShlBytesWithin(a: Word, k: nat)
    requires k <= |a| && Pow256(|a|) > 0
    ensures Value(ShlBytes(a, k)) == Pow256(k) * Value(a) % Pow256(|a|)
  {
    var m := |a| - k;
    ShlBytesSplits(a, k);
    Pow256Adds(k, m);
    assert k + m == |a|;
    RemainderOfSum(Pow256(k), Value(a[..m]), Pow256(m), Value(a[m..]), Value(a), Pow256(|a|), Value(ShlBytes(a, k)));
  }

  lemma ShlBytesBeyond(a: Word, k: nat)
    requires k > |a| && Pow256(|a|) > 0
    ensures Value(ShlBytes(a, k)) == Pow256(k) * Value(a) % Pow256(|a|)
  {
    assert IsZero(ShlBytes(a, k));
    ZerosHaveNoValue(ShlBytes(a, k));
    Pow256Adds(|a|, k - |a|);
    NoRemainder(Pow256(|a|), Pow256(k - |a|), Pow256(k), Value(a));
  }

  lemma ShlSevenStep(x: Byte, below: Byte, value: nat, shifted: nat, power: nat, carry: nat)
    requires shifted + power * carry == 128 * value + x / 2
    ensures ShlSevenByte(x, below) + 256 * shifted + (256 * power) * carry == 128 * (x + 256 * value) + below / 2
  {
    assert (256 * power) * carry == 256 * (power * carry);
  }

  predicate IsShiftedSeven(a: Word, below: Byte, r: Word) {
    && |r| == |a|
    && forall i {:trigger r[i]} :: 0 <= i < |a| ==> r[i] == ShlSevenByte(a[i], if i == 0 then below else a[i - 1])
  }

  // a << 7 with the highest bits of a lower byte coming in; what goes out at the top is carried.
  lemma {:induction false} ShlSevenCarries(a: Word, below: Byte, r: Word) returns (carry: nat)
    requires IsShiftedSeven(a, below, r)
    ensures Value(r) + Pow256(|a|) * carry == 128 * Value(a) + below / 2
  {
    if a == [] {
      carry := below / 2;
    } else {
      RestIsShiftedSeven(a, below, r);
      carry := ShlSevenCarries(a[1..], a[0], r[1..]);
      ShlSevenStep(a[0], below, Value(a[1..]), Value(r[1..]), Pow256(|a| - 1), carry);
    }
  }

  lemma RestIsShiftedSeven(a: Word, below: Byte, r: Word)
    requires a != [] && IsShiftedSeven(a, below, r)
    ensures IsShiftedSeven(a[1..], a[0], r[1..]) && r[0] == ShlSevenByte(a[0], below)
  {
    var (tail, shifted) := (a[1..], r[1..]);
    forall i | 0 <= i < |tail|
      ensures shifted[i] == ShlSevenByte(tail[i], if i == 0 then a[0] else tail[i - 1])
    {
      assert shifted[i] == r[i + 1];
    }
  }

  lemma ShlSevenMultiplies(a: Word)
    ensures Pow256(|a|) > 0 && Value(ShlSeven(a)) == 128 * Value(a) % Pow256(|a|)
  {
    PowerIsPositive(|a|);
    var carry := ShlSevenCarries(a, 0, ShlSeven(a));
    IsRemainder(128 * Value(a), Pow256(|a|), carry, Value(ShlSeven(a)));
  }

  // ----- the test for a zero byte -----

  // Where subtracting a one from each byte sets a high bit that was clear (lib/memchr.c:141-142); with a borrow coming
  // in
  function ZeroTest(a: Word, borrow: bool): (r: Word)
    ensures |r| == |a|
  {
    Bitwise(And, Bitwise(AndNot, Sub(a, Repeated(1, |a|), borrow), a), Repeated(0x80, |a|))
  }

  lemma BitwiseSplits(op: BitOp, a: Word, b: Word)
    requires a != [] && |a| == |b|
    ensures Bitwise(op, a, b) == [OnBytes(op, a[0], b[0])] + Bitwise(op, a[1..], b[1..])
  {
  }

  lemma RepeatedSplits(c: Byte, w: nat)
    requires w > 0
    ensures Repeated(c, w)[1..] == Repeated(c, w - 1)
  {
  }

  lemma ZeroTestSplits(a: Word, borrow: bool) returns (first: Byte)
    requires a != []
    ensures ZeroTest(a, borrow) == [first] + ZeroTest(a[1..], Difference(a[0], 1, borrow) < 0)
    ensures first == TestByte(a[0], borrow)
  {
    first := TestByte(a[0], borrow);
    var (ones, highBits) := (Repeated(1, |a|), Repeated(0x80, |a|));
    RepeatedSplits(1, |a|);
    RepeatedSplits(0x80, |a|);
    var difference := Sub(a, ones, borrow);
    assert difference[1..] == Sub(a[1..], ones[1..], Difference(a[0], 1, borrow) < 0);
    BitwiseSplits(AndNot, difference, a);
    BitwiseSplits(And, Bitwise(AndNot, difference, a), highBits);
  }

  lemma ZeroPrefix(whole: Word, x: Byte, rest: Word)
    requires whole == [x] + rest
    ensures IsZero(whole) <==> x == 0 && IsZero(rest)
  {
    assert whole[0] == x && forall i :: 0 <= i < |rest| ==> rest[i] == whole[i + 1];
  }

  // The test is non-zero exactly when some byte is zero: below the lowest zero byte nothing is borrowed, and what
  // the bytes above it make of the borrow does not matter.
  lemma {:induction false} ZeroTestFindsZero(a: Word)
    ensures IsZero(ZeroTest(a, false)) <==> 0 !in a
  {
    if a != [] {
      TestDecidesOnFirst(a);
      if a[0] != 0 {
        ZeroTestFindsZero(a[1..]);
      }
    }
  }

  lemma TestDecidesOnFirst(a: Word)
    requires a != []
    ensures IsZero(ZeroTest(a, false)) <==> a[0] != 0 && IsZero(ZeroTest(a[1..], false))
    ensures 0 !in a <==> a[0] != 0 && 0 !in a[1..]
  {
    var first := FirstIsZeroTest(a);
    ZeroPrefix(ZeroTest(a, false), first, ZeroTest(a[1..], a[0] == 0));
    FirstOrRest(a);
  }

  lemma FirstOrRest(a: Word)
    requires a != []
    ensures 0 in a <==> a[0] == 0 || 0 in a[1..]
  {
  }

  lemma FirstIsZeroTest(a: Word) returns (first: Byte)
    requires a != []
    ensures ZeroTest(a, false) == [first] + ZeroTest(a[1..], a[0] == 0)
    ensures first == 0 <==> a[0] != 0
  {
    first := ZeroTestSplits(a, false);
    TestByteFindsZero(a[0]);
  }

  // ----- filling a word -----

  // c in the first k of w bytes
  function Filled(c: Byte, k: nat, w: nat): (r: Word)
    ensures |r| == w && forall i :: 0 <= i < w ==> r[i] == if i < k then c else 0
  {
    seq(w, i => if i < k then c else 0)
  }

  // Or-ing a word with itself, shifted by k bytes, doubles the number of bytes that are filled.
  lemma DoublingFills(c: Byte, k: nat, w: nat)
    ensures Bitwise(Or, Filled(c, k, w), ShlBytes(Filled(c, k, w), k)) == Filled(c, 2 * k, w)
  {
    OrWithNothing(c);
    OrWithNothing(0);
    var r := Bitwise(Or, Filled(c, k, w), ShlBytes(Filled(c, k, w), k));
    assert r == Filled(c, 2 * k, w);
  }

  lemma FilledIsRepeated(c: Byte, k: nat, w: nat)
    requires k >= w
    ensures Filled(c, k, w) == Repeated(c, w)
  {
  }

  // A byte of a ^ c...c is zero exactly where a has the byte c.
  lemma XorFindsByte(a: Word, c: Byte)
    ensures 0 in Bitwise(Xor, a, Repeated(c, |a|)) <==> c in a
  {
    var x := Bitwise(Xor, a, Repeated(c, |a|));
    forall i | 0 <= i < |a| ensures x[i] == 0 <==> a[i] == c {
      XorIsDifference(a[i], c);
    }
    if c in a {
      var i :| 0 <= i < |a| && a[i] == c;
      assert x[i] == 0;
    }
  }
}
