/**
  Powers of two, and division with remainder.
*/
module Powers {

  function Pow2(n: nat): (p: nat)
    ensures p >= 1
  {
    if n == 0 then 1 else 2 * Pow2(n - 1)
  }

  lemma NaturalProduct(x: nat, y: nat)
    ensures x * y >= 0
  {
  }

  lemma RemainderIsUnique(m: nat, q: int, r: nat, q': int, r': nat)
    requires m > 0 && r < m && r' < m && m * q + r == m * q' + r'
    ensures q == q' && r == r'
  {
    assert m * (q - q') == r' - r;
    if q > q' {
      assert m * (q - q') == m + m * (q - q' - 1);
      NaturalProduct(m, q - q' - 1);
    } else if q < q' {
      assert m * (q' - q) == m + m * (q' - q - 1);
      NaturalProduct(m, q' - q - 1);
    }
  }
}

/**
  Integer arithmetic as C evaluates it, on types of at least the width of int: the usual arithmetic conversions,
  unsigned results modulo 2^width, and no result for a signed one that does not fit.
*/
module Integers {
  import opened Wrappers
  import opened Powers

  const INT_BITS: nat := 32

  datatype CType = CType(signed: bool, bits: nat)

  // A value after integer promotion
  datatype Typed = Typed(t: CType, v: int)

  // The number of non-negative values of the signed type of this width
  function Half(t: CType): (h: nat)
    ensures h >= 1
  {
    if t.bits == 0 then 1 else Pow2(t.bits - 1)
  }

  function Min(t: CType): int {
    if t.signed then 0 - Half(t) else 0
  }

  function Max(t: CType): int {
    if t.signed then Half(t) - 1 else 2 * Half(t) - 1
  }

  predicate Promoted(t: CType) {
    t.bits >= INT_BITS
  }

  predicate InType(t: CType, v: int) {
    Min(t) <= v <= Max(t)
  }

  predicate Valid(x: Typed) {
    Promoted(x.t) && InType(x.t, x.v)
  }

  lemma WiderIsLarger(s: CType, t: CType)
    requires 0 < s.bits
    ensures s.bits == t.bits ==> Half(s) == Half(t)
    ensures s.bits < t.bits ==> 2 * Half(s) <= Half(t)
    decreases t.bits
  {
    if s.bits + 1 < t.bits {
      WiderIsLarger(s, t.(bits := t.bits - 1));
    }
  }

  // The usual arithmetic conversions
  function Common(s: CType, t: CType): CType {
    if s.bits > t.bits then s else if t.bits > s.bits then t else CType(s.signed && t.signed, s.bits)
  }

  // The value of x in the common type of x and some other operand
  function As(t: CType, x: Typed): int {
    if !t.signed && x.v < 0 then x.v + 2 * Half(t) else x.v
  }

  // The result of an operation: an unsigned one is taken modulo 2^width, which is one step for a sum or a difference.
  function Fit(t: CType, exact: int): Option<Typed> {
    if InType(t, exact) then Some(Typed(t, exact))
    else if t.signed then None
    else Some(Typed(t, if exact < 0 then exact + 2 * Half(t) else exact - 2 * Half(t)))
  }

  function Plus(x: Typed, y: Typed): Option<Typed> {
    var t := Common(x.t, y.t);
    Fit(t, As(t, x) + As(t, y))
  }

  function Minus(x: Typed, y: Typed): Option<Typed> {
    var t := Common(x.t, y.t);
    Fit(t, As(t, x) - As(t, y))
  }

  // Division rounds towards zero.
  function Quotient(n: int, d: int): int
    requires d != 0
  {
    if n >= 0 then if d > 0 then n / d else -(n / -d)
    else if d > 0 then -(-n / d) else -n / -d
  }

  function Over(x: Typed, y: Typed): Option<Typed> {
    var t := Common(x.t, y.t);
    if As(t, y) == 0 then None else Fit(t, Quotient(As(t, x), As(t, y)))
  }

  function Negate(x: Typed): Option<Typed> {
    Fit(x.t, -x.v)
  }

  predicate Less(x: Typed, y: Typed) {
    var t := Common(x.t, y.t);
    As(t, x) < As(t, y)
  }

  predicate AtMost(x: Typed, y: Typed) {
    var t := Common(x.t, y.t);
    As(t, x) <= As(t, y)
  }

  // The constant v of type int
  function Int(v: int): Typed {
    Typed(CType(true, INT_BITS), v)
  }

  // _GL_INT_CONVERT (e, v)
  function Convert(e: CType, x: Typed): Typed {
    var t := Common(e, x.t);
    Typed(t, As(t, x))
  }
}
