/**
  What the matcher accepts, as a relation that searches instead of committing: a `*` may leave the
  text behind it at any later place. It differs from Glob.Matches only in carrying the code's
  own no_leading_period, and in the two places where the code is stricter (see CodedRun).
*/
module Placement {
  import opened Wrappers
  import opened Text
  import opened Glob

  ghost predicate FitsNlp(env: Env, element: Element, s: CString, n: nat, nlp: bool)
    requires n < |s|
  {
    match element
    case Literal(c, _) => env.Fold(s[n]) == c
    case AnyOne => Wild(env, s, n) && !(s[n] == '.' && nlp)
    case Set(negated, items) => Wild(env, s, n) && !(s[n] == '.' && nlp) && InItems(env, items, s[n]) != negated
    case _ => false
  }

  // no_leading_period behind an element: only the unquoted slash sets it (lines 902-918)
  predicate NextNlp(env: Env, element: Element) {
    env.NoLeadingPeriod() && element == Literal('/', false)
  }

  predicate AtEnd(env: Env, s: CString, n: nat, e: nat)
    requires n <= e <= |s|
  {
    n == e || (env.flags.leadingDir && s[n] == '/')
  }

  ghost predicate Coded(env: Env, g: Glob, s: CString, n: nat, e: nat, nlp: bool)
    requires n <= e <= |s|
    decreases g, 0
  {
    match g
    case Nil => AtEnd(env, s, n, e)
    case Cons(Run, tail) => !(n < e && s[n] == '.' && nlp) && CodedRun(env, tail, s, n, e, nlp)
    case Cons(element, tail) =>
      n < e && FitsNlp(env, element, s, n, nlp) && Coded(env, tail, s, n + 1, e, NextNlp(env, element))
  }

  // Behind a `*`: wildcards that follow take their characters at once and leave nlp as it was, and an
  // escaped slash under FNM_FILE_NAME is never found.
  ghost predicate CodedRun(env: Env, g: Glob, s: CString, n: nat, e: nat, nlp: bool)
    requires n <= e <= |s|
    decreases g, 1
  {
    match g
    case Nil => !env.flags.fileName || env.flags.leadingDir || AllWild(env, s, n, e)
    case Cons(Run, tail) => CodedRun(env, tail, s, n, e, nlp)
    case Cons(AnyOne, tail) => n < e && Wild(env, s, n) && CodedRun(env, tail, s, n + 1, e, nlp)
    case Cons(element, tail) =>
      && !(env.flags.fileName && element == Literal('/', true))
      && exists k :: n <= k <= e && AllWild(env, s, n, k) && Coded(env, g, s, k, e, k == n && nlp)
  }

  predicate Wildcard(g: Glob) {
    g.Cons? && (g.head.Run? || g.head.AnyOne?)
  }

  // ----- one chunk: the elements up to the next `*` -----

  function Rest(g: Glob): Glob {
    match g
    case Nil => Nil
    case Cons(head, tail) => if head.Run? then g else Rest(tail)
  }

  // Where the chunk ends when it starts at n, with no_leading_period there; None if it does not fit
  ghost function Place(env: Env, g: Glob, s: CString, n: nat, e: nat, nlp: bool): (r: Option<(nat, bool)>)
    requires n <= e <= |s|
    ensures r.Some? ==> n <= r.value.0 <= e
    decreases g
  {
    match g
    case Nil => Some((n, nlp))
    case Cons(head, tail) =>
      if head.Run? then Some((n, nlp))
      else if n < e && FitsNlp(env, head, s, n, nlp) then Place(env, tail, s, n + 1, e, NextNlp(env, head))
      else None
  }

  lemma {:induction false} CodedSplitsAtTheChunk(env: Env, g: Glob, s: CString, n: nat, e: nat, nlp: bool)
    requires n <= e <= |s|
    ensures var r := Place(env, g, s, n, e, nlp);
            Coded(env, g, s, n, e, nlp) <==> r.Some? && Coded(env, Rest(g), s, r.value.0, e, r.value.1)
    decreases g
  {
    if g.Cons? && !g.head.Run? && n < e && FitsNlp(env, g.head, s, n, nlp) {
      CodedSplitsAtTheChunk(env, g.tail, s, n + 1, e, NextNlp(env, g.head));
    }
  }

  lemma CodedIsMonotone(env: Env, g: Glob, s: CString, n: nat, e: nat, nlp: bool)
    requires n <= e <= |s| && !Wildcard(g)
    requires Coded(env, g, s, n, e, nlp)
    ensures Coded(env, g, s, n, e, false)
  {
  }

  // The heart of the leftmost commitment: a chunk that fits at b and, with no slash in between, already at
  // a < b leaves behind at a only characters that the next `*` may take.
  lemma {:induction false} LeftmostLosesNothing(env: Env, g: Glob, s: CString, a: nat, b: nat, e: nat,
        na: bool, nb: bool)
    requires env.Sane() && a < b <= e <= |s| && AllWild(env, s, a, b)
    requires Place(env, g, s, a, e, na).Some? && Place(env, g, s, b, e, nb).Some?
    ensures var (ma, la) := Place(env, g, s, a, e, na).value;
            var (mb, lb) := Place(env, g, s, b, e, nb).value;
            && ma < mb && AllWild(env, s, ma, mb)
            && (g.Cons? && !g.head.Run? ==> !la)
    decreases g
  {
    if g.Cons? && !g.head.Run? {
      assert IsSpecial('/');
      LeftmostLosesNothing(env, g.tail, s, a + 1, b + 1, e, NextNlp(env, g.head), NextNlp(env, g.head));
    }
  }

  // A `*` can start earlier, when it can take the characters it gains.
  lemma {:induction false} RunStartsEarlier(env: Env, g: Glob, s: CString, a: nat, b: nat, e: nat, la: bool, lb: bool)
    requires a < b <= e <= |s| && AllWild(env, s, a, b)
    requires CodedRun(env, g, s, b, e, lb)
    ensures CodedRun(env, g, s, a, e, la)
    decreases g
  {
    if g.Nil? {
      assert AllWild(env, s, a, e) || !AllWild(env, s, b, e);
    } else if g.head.Run? {
      RunStartsEarlier(env, g.tail, s, a, b, e, la, lb);
    } else if g.head.AnyOne? {
      RunStartsEarlier(env, g.tail, s, a + 1, b + 1, e, la, lb);
    } else {
      var k :| b <= k <= e && AllWild(env, s, b, k) && Coded(env, g, s, k, e, k == b && lb);
      CodedIsMonotone(env, g, s, k, e, k == b && lb);
      assert AllWild(env, s, a, k);
    }
  }
}
