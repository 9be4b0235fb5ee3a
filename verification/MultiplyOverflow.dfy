/**
  The predicate of lib/intprops-internal.h for a * b, for operands of any two integer types.
*/
module MultiplyOverflow {
  import opened Wrappers
  import opened Powers
  import opened Integers
  import opened RangeOverflow

  // _GL_INT_NEGATE_OVERFLOW
  predicate NegateOverflows(x: Typed) {
    if x.t.signed then x.v < -Max(x.t) else 0 < x.v
  }

  // tmax in the common type with b, shifted right by one bit less than b has
  function ShiftOut(tmax: Typed, b: CType): Typed {
    Typed(Common(b, tmax.t), As(Common(b, tmax.t), tmax) / Half(b))
  }

  // _GL_INT_MULTIPLY_RANGE_OVERFLOW
  function MultiplyOverflows(a: Typed, b: Typed, tmin: Typed, tmax: Typed): Option<bool> {
    if Less(b, Int(0)) then
      if Less(a, Int(0)) then BothNegative(a, b, tmax)
      else if NegateOverflows(Convert(b.t, tmin)) && b.v == -1 then MinusOneTimes(a, tmin)
      else Exceeds(tmin, b, a)
    else if b.v == 0 then Some(false)
    else if Less(a, Int(0)) then
      if NegateOverflows(Convert(a.t, tmin)) && a.v == -1 then MinusOneTimes(b, tmin)
      else Exceeds(tmin, a, b)
    else Exceeds(tmax, b, a)
  }

  // bound / divisor < factor
  function Exceeds(bound: Typed, divisor: Typed, factor: Typed): Option<bool> {
    var most :- Over(bound, divisor);
    Some(Less(most, factor))
  }

  function BothNegative(a: Typed, b: Typed, tmax: Typed): Option<bool> {
    if Common(tmax.t, b.t).signed then
      var least :- Over(tmax, b);
      Some(Less(a, least))
    else
      var most :- if NegateOverflows(b) then Some(ShiftOut(tmax, b.t)) else (var size :- Negate(b); Over(tmax, size));
      var size :- Minus(Int(-1), a);
      Some(AtMost(most, size))
  }

  // -x < tmin, where -tmin does not fit
  function MinusOneTimes(x: Typed, tmin: Typed): Option<bool> {
    if x.t.signed then
      var sum :- Plus(x, tmin);
      Some(Less(Int(0), sum))
    else if Less(Int(0), x) then
      var room :- Minus(Int(-1), tmin);
      var less :- Minus(x, Int(1));
      Some(Less(room, less))
    else Some(false)
  }

  // A division bounds the other factor.
  lemma DivisionBoundsFactor(n: nat, d: nat, k: int)
    requires d > 0
    ensures n / d <= n
    ensures n / d < k <==> n < k * d
  {
    var q := n / d;
    assert n == q * d + n % d;
    if q < k {
      assert k * d == (q + 1) * d + (k - q - 1) * d;
      NaturalProduct(k - q - 1, d);
    } else {
      assert q * d == k * d + (q - k) * d;
      NaturalProduct(q - k, d);
    }
    NaturalProduct(q, d - 1);
    assert q * d == q * (d - 1) + q;
  }

  lemma DivisionHalves(n: nat, d: nat)
    requires d >= 2
    ensures n / d <= n / 2
  {
    var q := n / d;
    assert n == q * d + n % d;
    NaturalProduct(q, d - 2);
    assert q * d == q * (d - 2) + 2 * q;
  }

  // What Exceeds answers, whatever the quotient is of the common type
  lemma ExceedsIsComparison(bound: Typed, divisor: Typed, factor: Typed, q: nat)
    requires Valid(bound) && Valid(divisor) && Valid(factor) && divisor.v != 0 && factor.v >= 0
    requires Common(bound.t, divisor.t).signed || (bound.v >= 0 && divisor.v > 0)
    requires Quotient(bound.v, divisor.v) == q && InType(Common(bound.t, divisor.t), q)
    ensures Exceeds(bound, divisor, factor) == Some(q < factor.v)
  {
  }

  lemma NaturalExceeds(bound: Typed, divisor: Typed, factor: Typed)
    requires Valid(bound) && Valid(divisor) && Valid(factor) && bound.v >= 0 && divisor.v > 0 && factor.v >= 0
    ensures Exceeds(bound, divisor, factor) == Some(bound.v / divisor.v < factor.v)
  {
    var q := bound.v / divisor.v;
    DivisionBoundsFactor(bound.v, divisor.v, 0);
    CommonHolds(bound, divisor);
    ExceedsIsComparison(bound, divisor, factor, q);
  }

  lemma NegativeQuotient(n: int, d: int) returns (q: nat)
    requires n <= 0 && d < 0
    ensures q == Quotient(n, d) == -n / -d
    ensures q <= -n && (d <= -2 ==> 2 * q <= -n)
  {
    q := -n / -d;
    DivisionBoundsFactor(-n, -d, 0);
    if d <= -2 {
      DivisionHalves(-n, -d);
    }
  }

  lemma NegativeExceeds(bound: Typed, divisor: Typed, factor: Typed)
    requires Valid(bound) && Valid(divisor) && Valid(factor) && bound.v <= 0 && divisor.v < 0 && factor.v >= 0
    requires bound.t.signed
    requires InType(Common(bound.t, divisor.t), -bound.v) || divisor.v <= -2
    ensures Exceeds(bound, divisor, factor) == Some(-bound.v / -divisor.v < factor.v)
  {
    var q := NegativeQuotient(bound.v, divisor.v);
    CommonHolds(bound, divisor);
    ExceedsIsComparison(bound, divisor, factor, q);
  }

  lemma MinusOneIsExact(x: Typed, tmin: Typed)
    requires Valid(x) && Valid(tmin) && tmin.t.signed && tmin.v < 0 <= x.v
    ensures MinusOneTimes(x, tmin) == Some(-tmin.v < x.v)
  {
    Comparisons(Int(0), x);
    if x.t.signed {
      CommonHolds(x, tmin);
      Sum(x, tmin);
      Comparisons(Int(0), Typed(Common(x.t, tmin.t), x.v + tmin.v));
    } else if x.v > 0 {
      Difference(Int(-1), tmin);
      Difference(x, Int(1));
      Comparisons(Typed(tmin.t, -1 - tmin.v), Typed(x.t, x.v - 1));
    }
  }

  lemma TminNegates(b: Typed, tmin: Typed)
    requires Valid(b) && Valid(tmin) && b.v < 0 && tmin.t.signed && tmin.v <= 0
    ensures NegateOverflows(Convert(b.t, tmin)) <==> !InType(Common(tmin.t, b.t), -tmin.v)
    ensures NegateOverflows(Convert(b.t, tmin)) ==> tmin.v < 0
  {
  }

  // factor * b < tmin, where b < 0 <= factor
  lemma OppositeSigns(factor: Typed, b: Typed, tmin: Typed)
    requires Valid(factor) && Valid(b) && Valid(tmin) && tmin.t.signed && tmin.v <= 0 && b.v < 0 <= factor.v
    ensures (if NegateOverflows(Convert(b.t, tmin)) && b.v == -1 then MinusOneTimes(factor, tmin)
             else Exceeds(tmin, b, factor)) ==
            Some(-tmin.v / -b.v < factor.v)
  {
    TminNegates(b, tmin);
    if NegateOverflows(Convert(b.t, tmin)) && b.v == -1 {
      MinusOneIsExact(factor, tmin);
    } else {
      NegativeExceeds(tmin, b, factor);
    }
  }

  lemma SignedBothNegative(a: Typed, b: Typed, tmax: Typed, q: nat)
    requires Valid(a) && Valid(b) && Valid(tmax) && a.v < 0 && b.v < 0 < tmax.v && Common(tmax.t, b.t).signed
    requires q <= tmax.v && Quotient(tmax.v, b.v) == 0 - q
    ensures BothNegative(a, b, tmax) == Some(q < -a.v)
  {
    CommonHolds(tmax, b);
    var t := Common(tmax.t, b.t);
    assert Over(tmax, b) == Some(Typed(t, 0 - q));
    Comparisons(a, Typed(t, 0 - q));
  }

  lemma UnsignedBothNegative(a: Typed, b: Typed, tmax: Typed, q: nat)
    requires Valid(a) && Valid(b) && Valid(tmax) && a.v < 0 && b.v < 0 < tmax.v && !Common(tmax.t, b.t).signed
    requires q <= tmax.v && tmax.v / -b.v == q
    ensures BothNegative(a, b, tmax) == Some(q < -a.v)
  {
  }

  // -a > tmax / -b, where a and b are negative
  lemma BothNegativeIsExact(a: Typed, b: Typed, tmax: Typed)
    requires Valid(a) && Valid(b) && Valid(tmax) && a.v < 0 && b.v < 0 < tmax.v
    ensures BothNegative(a, b, tmax) == Some(tmax.v / -b.v < -a.v)
  {
    var q := tmax.v / -b.v;
    DivisionBoundsFactor(tmax.v, -b.v, 0);
    if Common(tmax.t, b.t).signed {
      SignedBothNegative(a, b, tmax, q);
    } else {
      UnsignedBothNegative(a, b, tmax, q);
    }
  }

  // Whether a product leaves tmin..tmax, told by a division
  predicate ByDivision(a: int, b: int, tmin: int, tmax: int)
    requires tmin <= 0 < tmax
  {
    if b < 0 then if a < 0 then tmax / -b < -a else -tmin / -b < a
    else if b == 0 then false
    else if a < 0 then -tmin / -a < b
    else tmax / b < a
  }

  lemma ByDivisionIsExact(a: int, b: int, tmin: int, tmax: int)
    requires tmin <= 0 < tmax
    ensures ByDivision(a, b, tmin, tmax) <==> !(tmin <= a * b <= tmax)
  {
    if b < 0 && a < 0 {
      DivisionBoundsFactor(tmax, -b, -a);
      NaturalProduct(-b, -a);
      assert -a * -b == a * b;
    } else if b < 0 {
      DivisionBoundsFactor(-tmin, -b, a);
      NaturalProduct(-b, a);
      assert a * -b == -(a * b);
    } else if b > 0 && a < 0 {
      DivisionBoundsFactor(-tmin, -a, b);
      NaturalProduct(b, -a);
      assert b * -a == -(a * b);
    } else if b > 0 {
      DivisionBoundsFactor(tmax, b, a);
      NaturalProduct(a, b);
    }
  }

  lemma MultiplyNegative(a: Typed, b: Typed, tmin: Typed, tmax: Typed)
    requires Valid(a) && Valid(b) && Bounds(tmin, tmax) && b.v < 0
    ensures MultiplyOverflows(a, b, tmin, tmax) == Some(ByDivision(a.v, b.v, tmin.v, tmax.v))
  {
    Comparisons(a, Int(0));
    Comparisons(b, Int(0));
    if a.v < 0 {
      BothNegativeIsExact(a, b, tmax);
    } else {
      OppositeSigns(a, b, tmin);
    }
  }

  lemma MultiplyPositive(a: Typed, b: Typed, tmin: Typed, tmax: Typed)
    requires Valid(a) && Valid(b) && Bounds(tmin, tmax) && b.v >= 0
    ensures MultiplyOverflows(a, b, tmin, tmax) == Some(ByDivision(a.v, b.v, tmin.v, tmax.v))
  {
    Comparisons(a, Int(0));
    Comparisons(b, Int(0));
    if b.v > 0 && a.v < 0 {
      OppositeSigns(b, a, tmin);
    } else if b.v > 0 {
      NaturalExceeds(tmax, b, a);
    }
  }

  // The multiplication's predicate is exact for operands of any types.
  lemma MultiplyRange(a: Typed, b: Typed, tmin: Typed, tmax: Typed)
    requires Valid(a) && Valid(b) && Bounds(tmin, tmax)
    ensures MultiplyOverflows(a, b, tmin, tmax) == Some(Outside(a.v * b.v, tmin, tmax))
  {
    if b.v < 0 {
      MultiplyNegative(a, b, tmin, tmax);
    } else {
      MultiplyPositive(a, b, tmin, tmax);
    }
    ByDivisionIsExact(a.v, b.v, tmin.v, tmax.v);
  }
}
