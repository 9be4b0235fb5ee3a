/**
  The predicates of lib/intprops-internal.h that say whether a + b, a - b and a * b leave tmin..tmax,
  for operands of any two integer types.
*/
module RangeOverflow {
  import opened Wrappers
  import opened Integers

  // _GL_INT_ADD_RANGE_OVERFLOW
  function AddOverflows(a: Typed, b: Typed, tmin: Typed, tmax: Typed): Option<bool> {
    if Less(b, Int(0)) then
      var under :- SumIsBelow(a, b, tmin);
      if under then Some(true)
      else if if a.t.signed then AtMost(Int(0), a) else Less(tmax, a) then SumIsAbove(a, b, tmax)
      else Some(false)
    else if Less(a, Int(0)) then
      var under :- SumIsBelow(b, a, tmin);
      if under then Some(true)
      else if Common(a.t, b.t).signed || Less(tmax, b) then SumIsAbove(a, b, tmax)
      else Some(false)
    else if Less(tmax, b) then Some(true)
    else
      var room :- Minus(tmax, b);
      Some(Less(room, a))
  }

  // a + b < tmin, where b < 0
  function SumIsBelow(a: Typed, b: Typed, tmin: Typed): Option<bool> {
    if tmin.v != 0 then
      if Common(a.t, Common(tmin.t, b.t)).signed || Less(b, tmin) then
        var least :- Minus(tmin, b);
        Some(Less(a, least))
      else Some(false)
    else
      var most :- Minus(Int(-1), b);
      Some(AtMost(a, most))
  }

  function SumIsAbove(a: Typed, b: Typed, tmax: Typed): Option<bool> {
    var sum :- Plus(a, b);
    Some(Less(tmax, sum))
  }

  // _GL_INT_SUBTRACT_RANGE_OVERFLOW
  function SubtractOverflows(a: Typed, b: Typed, tmin: Typed, tmax: Typed): Option<bool> {
    if Less(a, Int(0)) == Less(b, Int(0)) then
      if Less(a, b) then
        if tmin.v == 0 then Some(true)
        else
          var room :- Minus(Int(-1), tmin);
          var excess :- Minus(b, a);
          var less :- Minus(excess, Int(1));
          Some(Less(room, less))
      else
        var difference :- Minus(a, b);
        Some(Less(tmax, difference))
    else if Less(a, Int(0)) then
      var room :- Minus(a, tmin);
      if !Common(room.t, b.t).signed && Less(room, Int(0)) then Some(true)
      else Some(Less(room, b))
    else
      var least :- if Common(tmax.t, b.t).signed && Common(Common(tmax.t, b.t), a.t).signed then Some(false)
                   else (var most :- Minus(Int(-1), b); Some(AtMost(tmax, most)));
      if least then Some(true)
      else
        var room :- Plus(tmax, b);
        Some(Less(room, a))
  }

  // TMIN is signed and not positive, TMAX is positive, and is of TMIN's type unless TMIN is zero.
  predicate Bounds(tmin: Typed, tmax: Typed) {
    && Valid(tmin) && Valid(tmax)
    && tmin.t.signed && tmin.v <= 0 < tmax.v
    && (tmin.t == tmax.t || tmin == Int(0))
  }

  // One operand is negative, the other unsigned, at least as wide, and above TMAX, although the sum is back in range
  // below zero: the sum is computed modulo 2^width, and taken for a large one.
  predicate WrapsAround(a: Typed, b: Typed, tmin: Typed, tmax: Typed) {
    var large, negative := if b.v < 0 then a else b, if b.v < 0 then b else a;
    && negative.v < 0 && !large.t.signed && large.t.bits >= negative.t.bits
    && tmax.v < large.v && tmin.v <= a.v + b.v < 0
  }

  predicate Outside(exact: int, tmin: Typed, tmax: Typed) {
    !(tmin.v <= exact <= tmax.v)
  }

  lemma Comparisons(x: Typed, y: Typed)
    requires Valid(x) && Valid(y) && (Common(x.t, y.t).signed || (x.v >= 0 && y.v >= 0))
    ensures Less(x, y) == (x.v < y.v) && AtMost(x, y) == (x.v <= y.v)
  {
  }

  lemma Sum(x: Typed, y: Typed)
    requires Valid(x) && Valid(y) && InType(Common(x.t, y.t), x.v + y.v)
    ensures Plus(x, y) == Some(Typed(Common(x.t, y.t), x.v + y.v))
  {
  }

  lemma Difference(x: Typed, y: Typed)
    requires Valid(x) && Valid(y) && InType(Common(x.t, y.t), x.v - y.v)
    ensures Minus(x, y) == Some(Typed(Common(x.t, y.t), x.v - y.v))
  {
  }

  lemma Below(a: Typed, b: Typed, tmin: Typed)
    requires Valid(a) && Valid(b) && Valid(tmin) && b.v < 0 && tmin.v <= 0 && tmin.t.signed
    ensures SumIsBelow(a, b, tmin) == Some(a.v + b.v < tmin.v)
  {
    WiderIsLarger(tmin.t, b.t);
    WiderIsLarger(b.t, tmin.t);
    if tmin.v != 0 {
      Comparisons(b, tmin);
      Difference(tmin, b);
      var least := Typed(Common(tmin.t, b.t), tmin.v - b.v);
      if Common(a.t, least.t).signed || Less(b, tmin) {
        Comparisons(a, least);
      }
    } else {
      Difference(Int(-1), b);
      Comparisons(a, Typed(b.t, -1 - b.v));
    }
  }

  // large + small, with small < 0, once it is known not to be below TMIN
  lemma Above(large: Typed, small: Typed, tmin: Typed, tmax: Typed)
    requires Valid(large) && Valid(small) && Bounds(tmin, tmax) && small.v < 0 <= large.v
    requires tmin.v <= large.v + small.v
    ensures Common(large.t, small.t).signed || tmax.v < large.v ==>
              SumIsAbove(large, small, tmax) ==
              Some(tmax.v < large.v + small.v || WrapsAround(large, small, tmin, tmax))
  {
    WiderIsLarger(large.t, small.t);
    WiderIsLarger(small.t, large.t);
    var t := Common(large.t, small.t);
    if t.signed || large.v + small.v >= 0 {
      Sum(large, small);
      Comparisons(tmax, Typed(t, large.v + small.v));
    } else {
      WiderIsLarger(tmax.t, t);
      WiderIsLarger(t, tmax.t);
    }
  }

  lemma CommonHolds(x: Typed, y: Typed)
    requires Valid(x) && Valid(y)
    ensures var t := Common(x.t, y.t);
            && Promoted(t) && InType(t, 0)
            && (x.v >= 0 || t.signed ==> InType(t, x.v))
            && (y.v >= 0 || t.signed ==> InType(t, y.v))
  {
    WiderIsLarger(x.t, y.t);
    WiderIsLarger(y.t, x.t);
  }

  lemma AddToNegative(a: Typed, b: Typed, tmin: Typed, tmax: Typed)
    requires Valid(a) && Valid(b) && Bounds(tmin, tmax) && b.v < 0
    ensures AddOverflows(a, b, tmin, tmax) ==
            Some(Outside(a.v + b.v, tmin, tmax) || WrapsAround(a, b, tmin, tmax))
  {
    Below(a, b, tmin);
    Comparisons(b, Int(0));
    if a.t.signed { Comparisons(Int(0), a); } else { Comparisons(tmax, a); }
    if a.v >= 0 && tmin.v <= a.v + b.v { Above(a, b, tmin, tmax); }
  }

  lemma AddNegative(a: Typed, b: Typed, tmin: Typed, tmax: Typed)
    requires Valid(a) && Valid(b) && Bounds(tmin, tmax) && a.v < 0 <= b.v
    ensures AddOverflows(a, b, tmin, tmax) ==
            Some(Outside(a.v + b.v, tmin, tmax) || WrapsAround(a, b, tmin, tmax))
  {
    Below(b, a, tmin);
    Comparisons(a, Int(0));
    Comparisons(b, Int(0));
    Comparisons(tmax, b);
    if tmin.v <= b.v + a.v {
      Above(b, a, tmin, tmax);
      assert SumIsAbove(b, a, tmax) == SumIsAbove(a, b, tmax) by {
        assert Plus(a, b) == Plus(b, a);
      }
    }
  }

  lemma AddNatural(a: Typed, b: Typed, tmin: Typed, tmax: Typed)
    requires Valid(a) && Valid(b) && Bounds(tmin, tmax) && a.v >= 0 && b.v >= 0
    ensures AddOverflows(a, b, tmin, tmax) == Some(Outside(a.v + b.v, tmin, tmax))
  {
    Comparisons(a, Int(0));
    Comparisons(b, Int(0));
    Comparisons(tmax, b);
    if b.v <= tmax.v {
      CommonHolds(tmax, b);
      Difference(tmax, b);
      Comparisons(Typed(Common(tmax.t, b.t), tmax.v - b.v), a);
    }
  }

  // The addition's predicate is exact, but for the sums that wrap around.
  lemma AddRange(a: Typed, b: Typed, tmin: Typed, tmax: Typed)
    requires Valid(a) && Valid(b) && Bounds(tmin, tmax)
    ensures AddOverflows(a, b, tmin, tmax) ==
            Some(Outside(a.v + b.v, tmin, tmax) || WrapsAround(a, b, tmin, tmax))
  {
    if b.v < 0 {
      AddToNegative(a, b, tmin, tmax);
    } else if a.v < 0 {
      AddNegative(a, b, tmin, tmax);
    } else {
      AddNatural(a, b, tmin, tmax);
    }
  }

  // b - a - 1 against -1 - TMIN, for a < b of one sign
  lemma SubtractLarger(a: Typed, b: Typed, tmin: Typed)
    requires Valid(a) && Valid(b) && Valid(tmin) && tmin.t.signed && tmin.v <= 0
    requires (a.v < 0 <==> b.v < 0) && a.v < b.v
    ensures var t := Common(b.t, a.t);
            && Minus(Int(-1), tmin) == Some(Typed(tmin.t, -1 - tmin.v))
            && Minus(b, a) == Some(Typed(t, b.v - a.v))
            && Minus(Typed(t, b.v - a.v), Int(1)) == Some(Typed(t, b.v - a.v - 1))
            && (tmin.v < 0 ==> Less(Typed(tmin.t, -1 - tmin.v), Typed(t, b.v - a.v - 1)) == (a.v - b.v < tmin.v))
  {
    CommonHolds(b, a);
    var t := Common(b.t, a.t);
    Difference(Int(-1), tmin);
    Difference(b, a);
    Difference(Typed(t, b.v - a.v), Int(1));
    if tmin.v < 0 {
      Comparisons(Typed(tmin.t, -1 - tmin.v), Typed(t, b.v - a.v - 1));
    }
  }

  lemma SubtractSameSign(a: Typed, b: Typed, tmin: Typed, tmax: Typed)
    requires Valid(a) && Valid(b) && Bounds(tmin, tmax) && (a.v < 0 <==> b.v < 0)
    ensures SubtractOverflows(a, b, tmin, tmax) == Some(Outside(a.v - b.v, tmin, tmax))
  {
    Comparisons(a, Int(0));
    Comparisons(b, Int(0));
    Comparisons(a, b);
    if a.v < b.v {
      SubtractLarger(a, b, tmin);
    } else {
      CommonHolds(a, b);
      Difference(a, b);
      Comparisons(tmax, Typed(Common(a.t, b.t), a.v - b.v));
    }
  }

  lemma SubtractFromNegative(a: Typed, b: Typed, tmin: Typed, tmax: Typed)
    requires Valid(a) && Valid(b) && Bounds(tmin, tmax) && a.v < 0 <= b.v
    ensures SubtractOverflows(a, b, tmin, tmax) == Some(Outside(a.v - b.v, tmin, tmax))
  {
    Comparisons(a, Int(0));
    Comparisons(b, Int(0));
    CommonHolds(a, tmin);
    Difference(a, tmin);
    var room := Typed(Common(a.t, tmin.t), a.v - tmin.v);
    Comparisons(room, Int(0));
    if Common(room.t, b.t).signed || room.v >= 0 {
      Comparisons(room, b);
    }
  }

  lemma SubtractNegative(a: Typed, b: Typed, tmin: Typed, tmax: Typed)
    requires Valid(a) && Valid(b) && Bounds(tmin, tmax) && b.v < 0 <= a.v
    ensures SubtractOverflows(a, b, tmin, tmax) == Some(Outside(a.v - b.v, tmin, tmax))
  {
    Comparisons(a, Int(0));
    Comparisons(b, Int(0));
    var t := Common(tmax.t, b.t);
    Difference(Int(-1), b);
    Comparisons(tmax, Typed(b.t, -1 - b.v));
    if (t.signed && Common(t, a.t).signed) || tmax.v > -1 - b.v {
      CommonHolds(tmax, b);
      Sum(tmax, b);
      Comparisons(Typed(t, tmax.v + b.v), a);
    }
  }

  // The subtraction's predicate is exact for operands of any types.
  lemma SubtractRange(a: Typed, b: Typed, tmin: Typed, tmax: Typed)
    requires Valid(a) && Valid(b) && Bounds(tmin, tmax)
    ensures SubtractOverflows(a, b, tmin, tmax) == Some(Outside(a.v - b.v, tmin, tmax))
  {
    if a.v < 0 <==> b.v < 0 {
      SubtractSameSign(a, b, tmin, tmax);
    } else if a.v < 0 {
      SubtractFromNegative(a, b, tmin, tmax);
    } else {
      SubtractNegative(a, b, tmin, tmax);
    }
  }
}
