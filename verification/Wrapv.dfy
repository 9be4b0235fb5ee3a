/**
  The macros of lib/intprops-internal.h that store a result and say whether it overflowed, and the two sizes that
  lib/fnmatch_loop.c computes with them.
*/
module Wrapv {
  import opened Wrappers
  import opened Powers
  import opened Integers
  import opened RangeOverflow
  import opened MultiplyOverflow

  datatype Op = Add | Subtract | Multiply

  function Exact(op: Op, a: int, b: int): int {
    match op
    case Add => a + b
    case Subtract => a - b
    case Multiply => a * b
  }

  function Overflows(op: Op, a: Typed, b: Typed, tmin: Typed, tmax: Typed): Option<bool> {
    match op
    case Add => AddOverflows(a, b, tmin, tmax)
    case Subtract => SubtractOverflows(a, b, tmin, tmax)
    case Multiply => MultiplyOverflows(a, b, tmin, tmax)
  }

  // The extrema of t as the macros spell them: of type int if t is narrower, and zero is always of type int.
  function Least(t: CType): Typed {
    if t.bits < INT_BITS || !t.signed then Int(Min(t)) else Typed(t, Min(t))
  }

  function Greatest(t: CType): Typed {
    if t.bits < INT_BITS then Int(Max(t)) else Typed(t, Max(t))
  }

  lemma ExtremaAreBounds(t: CType)
    requires t.bits >= 2
    ensures Bounds(Least(t), Greatest(t)) && Least(t).v == Min(t) && Greatest(t).v == Max(t)
  {
    WiderIsLarger(t, Int(0).t);
    WiderIsLarger(CType(true, 1), t);
    WiderIsLarger(CType(true, 1), Int(0).t);
  }

  // The predicates answer without overflowing themselves; they err only on sums that wrap around.
  lemma OverflowsIsExact(op: Op, a: Typed, b: Typed, t: CType)
    requires Valid(a) && Valid(b) && t.bits >= 2
    ensures Overflows(op, a, b, Least(t), Greatest(t)) ==
            Some(!InType(t, Exact(op, a.v, b.v)) || (op.Add? && WrapsAround(a, b, Least(t), Greatest(t))))
  {
    ExtremaAreBounds(t);
    match op
    case Add => AddRange(a, b, Least(t), Greatest(t));
    case Subtract => SubtractRange(a, b, Least(t), Greatest(t));
    case Multiply => MultiplyRange(a, b, Least(t), Greatest(t));
  }

  // ----- the stored value -----

  // (t) v: the value of t that is v modulo 2^width
  function LowBits(t: CType, v: int): (r: int)
    ensures InType(t, r)
  {
    var m := v % (2 * Half(t));
    if t.signed && m >= Half(t) then m - 2 * Half(t) else m
  }

  // _GL_INT_OP_WRAPV_VIA_UNSIGNED
  function ViaUnsigned(op: Op, a: int, b: int, ut: CType, t: CType): int {
    LowBits(t, LowBits(ut, Exact(op, LowBits(ut, a), LowBits(ut, b))))
  }

  lemma MultiplesDoNotMatter(v: int, k: int, m: nat)
    requires m > 0
    ensures (v + k * m) % m == v % m
  {
    var sum := v + k * m;
    assert m * (v / m + k) + v % m == sum;
    RemainderIsUnique(m, v / m + k, v % m, sum / m, sum % m);
  }

  lemma WiderIsMultiple(t: CType, ut: CType) returns (k: nat)
    requires 0 < t.bits <= ut.bits
    ensures 2 * Half(ut) == k * (2 * Half(t))
    decreases ut.bits
  {
    if t.bits == ut.bits {
      k := 1;
    } else {
      k := WiderIsMultiple(t, ut.(bits := ut.bits - 1));
      k := 2 * k;
    }
  }

  // v and what is stored of it differ by a multiple of 2^width.
  lemma LowBitsDiffer(t: CType, v: int) returns (k: int)
    ensures LowBits(t, v) == v + k * (2 * Half(t))
  {
    var m := 2 * Half(t);
    k := -(v / m);
    assert v == m * (v / m) + v % m;
    if t.signed && v % m >= Half(t) {
      k := k - 1;
    }
  }

  lemma LowBitsOfMultiple(t: CType, v: int, k: int)
    ensures LowBits(t, v + k * (2 * Half(t))) == LowBits(t, v)
  {
    MultiplesDoNotMatter(v, k, 2 * Half(t));
  }

  lemma LowBitsOfFitting(t: CType, v: int)
    requires InType(t, v)
    ensures LowBits(t, v) == v
  {
    var m := 2 * Half(t);
    if v < 0 {
      MultiplesDoNotMatter(v, 1, m);
      SmallRemainder(v + m, m);
    } else {
      SmallRemainder(v, m);
    }
  }

  lemma SmallRemainder(v: nat, m: nat)
    requires v < m
    ensures v % m == v
  {
  }

  lemma LowBitsThroughWider(t: CType, ut: CType, v: int)
    requires 0 < t.bits <= ut.bits
    ensures LowBits(t, LowBits(ut, v)) == LowBits(t, v)
  {
    var wide := LowBitsDiffer(ut, v);
    var k := WiderIsMultiple(t, ut);
    assert wide * (2 * Half(ut)) == (wide * k) * (2 * Half(t));
    LowBitsOfMultiple(t, v, wide * k);
  }

  // The operands' multiples of m stay multiples of m.
  lemma ExactOfMultiples(op: Op, a: int, b: int, i: int, j: int, m: nat) returns (k: int)
    ensures Exact(op, a + i * m, b + j * m) == Exact(op, a, b) + k * m
  {
    match op
    case Add => k := i + j;
    case Subtract => k := i - j;
    case Multiply => k := a * j + i * b + i * m * j;
      ProductExpands(a, i, b, j, m);
  }

  lemma ProductExpands(a: int, i: int, b: int, j: int, m: int)
    ensures (a + i * m) * (b + j * m) == a * b + (a * j + i * b + i * m * j) * m
  {
  }

  // Computed in an unsigned type that is wide enough, the stored value is that of the exact result.
  lemma ViaUnsignedIsExact(op: Op, a: int, b: int, ut: CType, t: CType)
    requires 0 < t.bits <= ut.bits && !ut.signed
    ensures ViaUnsigned(op, a, b, ut, t) == LowBits(t, Exact(op, a, b))
  {
    var i := LowBitsDiffer(ut, a);
    var j := LowBitsDiffer(ut, b);
    var k := ExactOfMultiples(op, a, b, i, j, 2 * Half(ut));
    LowBitsOfMultiple(ut, Exact(op, a, b), k);
    LowBitsThroughWider(t, ut, Exact(op, a, b));
  }

  // ----- the macros -----

  // What *r gets and what the macro answers, for a result of type t: the value of the type that is the exact result
  // modulo 2^width, and whether the exact result is out of range. `errs` is the family in which the predicate errs.
  ghost predicate Stores(t: CType, exact: int, errs: bool, stored: int, overflow: bool) {
    && InType(t, stored) && (stored - exact) % (2 * Half(t)) == 0
    && (overflow <==> !InType(t, exact) || errs)
    && (!overflow ==> stored == exact)
  }

  ghost predicate StoresExactly(op: Op, a: Typed, b: Typed, t: CType, stored: int, overflow: bool) {
    match op
    case Add => Stores(t, a.v + b.v, WrapsAround(a, b, Least(t), Greatest(t)), stored, overflow)
    case Subtract => Stores(t, a.v - b.v, false, stored, overflow)
    case Multiply => Stores(t, a.v * b.v, false, stored, overflow)
  }

  lemma LowBitsAreStored(t: CType, exact: int, errs: bool, stored: int, overflow: bool)
    requires stored == LowBits(t, exact) && (overflow <==> !InType(t, exact) || errs)
    ensures Stores(t, exact, errs, stored, overflow)
  {
    var k := LowBitsDiffer(t, exact);
    MultiplesDoNotMatter(0, k, 2 * Half(t));
    if !overflow {
      LowBitsOfFitting(t, exact);
    }
  }

  // _GL_INT_OP_CALC
  method OpCalc(op: Op, a: Typed, b: Typed, ut: CType, t: CType) returns (stored: int, overflow: bool)
    requires Valid(a) && Valid(b) && 2 <= t.bits <= ut.bits && !ut.signed
    ensures StoresExactly(op, a, b, t, stored, overflow)
  {
    OverflowsIsExact(op, a, b, t);
    ViaUnsignedIsExact(op, a.v, b.v, ut, t);
    stored := ViaUnsigned(op, a.v, b.v, ut, t);
    overflow := Overflows(op, a, b, Least(t), Greatest(t)).value;
    var exact := Exact(op, a.v, b.v);
    LowBitsAreStored(t, exact, op.Add? && WrapsAround(a, b, Least(t), Greatest(t)), stored, overflow);
  }

  // What the blind macro makes of the two predicates, for the signed and for the unsigned type of the width
  function BlindAnswer(signedOverflow: bool, unsignedOverflow: bool, stored: int): bool {
    if signedOverflow then if unsignedOverflow then true else stored < 0
    else if unsignedOverflow then stored >= 0 else false
  }

  lemma BlindAnswerIsForActualType(t: CType, exact: int, stored: int, wraps: bool)
    requires stored == LowBits(t, exact)
    requires wraps ==> InType(t.(signed := true), exact) && exact < 0
    ensures BlindAnswer(!InType(t.(signed := true), exact) || wraps, !InType(t.(signed := false), exact), stored) <==>
            !InType(t, exact) || (t.signed && wraps)
  {
    if InType(t, exact) {
      LowBitsOfFitting(t, exact);
    } else if InType(t.(signed := false), exact) {
      SmallRemainder(exact, 2 * Half(t));
    }
  }

  // _GL_INT_OP_WRAPV_SMALLISH without __typeof__: only the width of *r is known when the predicates are chosen. t is
  // the type that *r has; the store converts through the signed type of that width.
  method OpWrapvBlind(op: Op, a: Typed, b: Typed, t: CType) returns (stored: int, overflow: bool)
    requires Valid(a) && Valid(b) && 2 <= t.bits < INT_BITS
    ensures StoresExactly(op, a, b, t, stored, overflow)
  {
    var st, ut := t.(signed := true), t.(signed := false);
    OverflowsIsExact(op, a, b, st);
    OverflowsIsExact(op, a, b, ut);
    ViaUnsignedIsExact(op, a.v, b.v, CType(false, INT_BITS), st);
    LowBitsThroughWider(t, st, Exact(op, a.v, b.v));
    stored := LowBits(t, ViaUnsigned(op, a.v, b.v, CType(false, INT_BITS), st));
    var exact := Exact(op, a.v, b.v);
    ExtremaAreBounds(t);
    ExtremaAreBounds(st);
    ExtremaAreBounds(ut);
    BlindAnswerIsForActualType(t, exact, stored, op.Add? && WrapsAround(a, b, Least(st), Greatest(st)));
    overflow := BlindAnswer(Overflows(op, a, b, Least(st), Greatest(st)).value,
                            Overflows(op, a, b, Least(ut), Greatest(ut)).value, stored);
    LowBitsAreStored(t, exact, op.Add? && WrapsAround(a, b, Least(t), Greatest(t)), stored, overflow);
  }

  // ----- where the addition errs, and where it does not -----

  lemma AddIsExactFor(a: Typed, b: Typed, t: CType)
    requires Valid(a) && Valid(b) && t.bits >= 2
    requires (a.t.signed || a.t.bits <= t.bits || !t.signed) && (b.t.signed || b.t.bits <= t.bits || !t.signed)
    ensures !WrapsAround(a, b, Least(t), Greatest(t))
  {
    ExtremaAreBounds(t);
    WiderIsLarger(a.t, t);
    WiderIsLarger(b.t, t);
    WiderIsLarger(a.t, b.t);
    WiderIsLarger(b.t, a.t);
  }

  // 200u + -300 is -100, which a signed char holds, yet the predicate says that it overflows.
  lemma AddRejectsSumThatFits()
    ensures var a, b, t := Typed(CType(false, 32), 200), Int(-300), CType(true, 8);
            && Valid(a) && Valid(b) && InType(t, a.v + b.v)
            && AddOverflows(a, b, Least(t), Greatest(t)) == Some(true)
  {
    var a, b, t := Typed(CType(false, 32), 200), Int(-300), CType(true, 8);
    assert Half(t) == 128 by {
      assert Pow2(3) == 8 && Pow2(5) == 32 && Pow2(7) == 128;
    }
    WiderIsLarger(t.(bits := 9), a.t);
    WiderIsLarger(t, t.(bits := 9));
    WiderIsLarger(t.(bits := 9), t.(bits := 10));
    WiderIsLarger(t.(bits := 10), a.t);
    OverflowsIsExact(Add, a, b, t);
    ExtremaAreBounds(t);
  }

  // ----- the sizes of a group's alternatives -----

  const SIZE: CType := CType(false, 64)
  const IDX: CType := CType(true, 64)

  // The stack that lib/fnmatch_loop.c:1037-1043 counts as used, with a header of slen bytes and plen characters more;
  // None when that does not fit.
  method PatternSize(used: int, slen: nat, plen: nat, charSize: nat) returns (r: Option<int>)
    requires used >= 0 && InType(IDX, used + slen) && InType(SIZE, plen) && InType(SIZE, charSize)
    ensures r == if InType(IDX, used + slen + plen * charSize) then Some(used + slen + plen * charSize) else None
  {
    NaturalProduct(plen, charSize);
    var plensize, tooLarge := OpCalc(Multiply, Typed(SIZE, plen), Typed(SIZE, charSize), SIZE, IDX);
    if tooLarge {
      return None;
    }
    AddIsExactFor(Typed(IDX, used + slen), Typed(IDX, plensize), IDX);
    var newUsed;
    newUsed, tooLarge := OpCalc(Add, Typed(IDX, used + slen), Typed(IDX, plensize), SIZE, IDX);
    return if tooLarge then None else Some(newUsed);
  }
}
