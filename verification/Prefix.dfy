/**
  A plain pattern before a group: EXT decides where the group is tried, and the committed search tries it wherever that
  can matter. A `*` leaves the group, or the text before it, at any later place; but a group directly behind a `*` and
  its wildcards is not tried at the end (see StarGroup).
*/
module Prefix {
  import opened Wrappers
  import opened Text
  import opened Glob
  import opened Reading
  import opened Placement
  import opened Fnmatch
  import opened Commitment
  import opened StarGroup
  import opened Choice
  import Agreement
  import Group
  import Meaning

  predicate IsGroupAt(env: Env, p: CString, j: nat) {
    && env.flags.extMatch && j + 1 < |p| && Group.IsOperator(p[j]) && p[j + 1] == '('
    && Group.SplitGroup(env.locale, p, j + 1).Some?
  }

  // The group at j takes the rest of the string from k on.
  predicate Opens(env: Env, p: CString, j: nat, s: CString, k: nat, e: nat, nlp: bool)
    requires IsGroupAt(env, p, j) && k <= e <= |s|
  {
    Ext(env, p[j], p, j + 1, s, k, e, nlp) == Some(true)
  }

  // A star at n leaves the group at k, which is before the end and before any slash that stars do not pass.
  predicate TriedAt(env: Env, p: CString, j: nat, s: CString, n: nat, k: nat, e: nat, nlp: bool)
    requires IsGroupAt(env, p, j) && n <= k < e <= |s|
  {
    AllWild(env, s, n, k + 1) && Opens(env.Inner(), p, j, s, k, e, k == n && nlp)
  }

  // The elements from i up to j
  function ParseTo(env: Env, p: CString, i: nat, j: nat): (r: Option<Glob>)
    requires i <= j <= |p|
    decreases j - i
  {
    if i == j then Some(Nil)
    else
      var (element, next) :- ParseElement(env, p, i);
      if next > j then None
      else
        var tail :- ParseTo(env, p, next, j);
        Some(Cons(element, tail))
  }

  ghost predicate IsPrefix(env: Env, p: CString, i: nat, j: nat, g: Glob) {
    && env.Sane() && IsGroupAt(env, p, j) && i <= j && ParseTo(env, p, i, j) == Some(g)
    && forall x :: i <= x < j && Group.OpensGroup(p, x) ==> IsIdle(env, p, x)
  }

  // Only `@(`, `+(` and `!(` stand directly behind a star and its wildcards; END decides about the others there.
  predicate IsBlindBehindRun(p: CString, j: nat, g: Glob, run: bool)
    requires j < |p|
  {
    match g
    case Nil => !run || IsBlindOperator(p[j])
    case Cons(head, tail) => IsBlindBehindRun(p, j, tail, head.Run? || (run && head.AnyOne?))
  }

  // The code's relation of a plain pattern (see Placement), with the group at j behind it. The calls behind a star run
  // under the inner flags.
  ghost predicate Led(env: Env, p: CString, j: nat, g: Glob, s: CString, n: nat, e: nat, nlp: bool)
    requires IsGroupAt(env, p, j) && n <= e <= |s|
    decreases g, 0
  {
    match g
    case Nil => Opens(env, p, j, s, n, e, nlp)
    case Cons(Run, tail) => !(n < e && s[n] == '.' && nlp) && LedRun(env, p, j, tail, s, n, e, nlp)
    case Cons(element, tail) =>
      n < e && FitsNlp(env, element, s, n, nlp) && Led(env, p, j, tail, s, n + 1, e, NextNlp(env, element))
  }

  ghost predicate LedRun(env: Env, p: CString, j: nat, g: Glob, s: CString, n: nat, e: nat, nlp: bool)
    requires IsGroupAt(env, p, j) && n <= e <= |s|
    decreases g, 1
  {
    match g
    case Nil => exists k :: n <= k < e && TriedAt(env, p, j, s, n, k, e, nlp)
    case Cons(Run, tail) => LedRun(env, p, j, tail, s, n, e, nlp)
    case Cons(AnyOne, tail) => n < e && Wild(env, s, n) && LedRun(env, p, j, tail, s, n + 1, e, nlp)
    case Cons(element, tail) =>
      && !(env.flags.fileName && element == Literal('/', true))
      && exists k :: n <= k <= e && AllWild(env, s, n, k) && Led(env.Inner(), p, j, g, s, k, e, k == n && nlp)
  }

  // ----- the inner flags -----

  lemma {:induction false} InnerRunIsLed(env: Env, p: CString, j: nat, g: Glob, s: CString, n: nat, e: nat, nlp: bool)
    requires IsGroupAt(env, p, j) && n <= e <= |s|
    ensures LedRun(env.Inner(), p, j, g, s, n, e, nlp) == LedRun(env, p, j, g, s, n, e, nlp)
    decreases g
  {
    assert env.Inner().Inner() == env.Inner();
    if Wildcard(g) {
      if g.head.Run? || n < e {
        InnerRunIsLed(env, p, j, g.tail, s, if g.head.Run? then n else n + 1, e, nlp);
      }
    } else if g.Nil? {
      forall k | n <= k < e
        ensures TriedAt(env.Inner(), p, j, s, n, k, e, nlp) == TriedAt(env, p, j, s, n, k, e, nlp)
      {
      }
    } else if LedRun(env, p, j, g, s, n, e, nlp) {
      var k :| n <= k <= e && AllWild(env, s, n, k) && Led(env.Inner(), p, j, g, s, k, e, k == n && nlp);
      assert AllWild(env.Inner(), s, n, k);
    } else if LedRun(env.Inner(), p, j, g, s, n, e, nlp) {
      var k :| n <= k <= e && AllWild(env.Inner(), s, n, k) && Led(env.Inner(), p, j, g, s, k, e, k == n && nlp);
      assert AllWild(env, s, n, k);
    }
  }

  lemma {:induction false} InnerParsesToAlike(env: Env, p: CString, i: nat, j: nat)
    requires i <= j <= |p|
    ensures ParseTo(env.Inner(), p, i, j) == ParseTo(env, p, i, j)
    decreases j - i
  {
    if i < j {
      InnerParsesElementAlike(env, p, i);
      var r := ParseElement(env, p, i);
      if r.Some? && r.value.1 <= j {
        InnerParsesToAlike(env, p, r.value.1, j);
      }
    }
  }

  lemma InnerIsPrefix(env: Env, p: CString, i: nat, j: nat, g: Glob)
    requires IsPrefix(env, p, i, j, g)
    ensures IsPrefix(env.Inner(), p, i, j, g)
  {
    InnerParsesToAlike(env, p, i, j);
    assert forall c: char :: env.Inner().Fold(c) == env.Fold(c);
  }

  // ----- one chunk -----

  ghost predicate AnswersTo(env: Env, p: CString, j: nat, g: Glob, s: CString, e: nat, place: Option<(nat, bool)>,
        v: Verdict)
    requires IsGroupAt(env, p, j) && e <= |s| && (place.Some? ==> place.value.0 <= e)
  {
    match place
    case None => v == NoMatch
    case Some((m, l)) =>
      if Rest(g).Nil? then v == if Opens(env, p, j, s, m, e, l) then Match else NoMatch
      else
        && v.Ends? && v.str == m && v.noLeadingPeriod == l
        && v.pattern <= j && ParseTo(env, p, v.pattern, j) == Some(Rest(g))
  }

  lemma PrefixTurn(env: Env, p: CString, i: nat, j: nat, g: Glob, s: CString, n: nat, e: nat, nlp: bool)
    requires IsPrefix(env, p, i, j, g) && i < j && n <= e <= |s| && p[i] != '*'
    ensures g.Cons? && !g.head.Run? && ParseElement(env, p, i).Some? && ParseElement(env, p, i).value.0 == g.head
    ensures var next := ParseElement(env, p, i).value.1;
            && next <= j && IsPrefix(env, p, next, j, g.tail)
            && LoopTurn(env, p, i, s, n, e, nlp, true) == LoopTurn(env, p, i, s, n, e, nlp, false)
               == if n < e && FitsNlp(env, g.head, s, n, nlp) then Continue(next, n + 1, NextNlp(env, g.head))
                  else Return(NoMatch)
  {
    assert IsSpecial('*') && IsSpecial('?') && IsSpecial('+') && IsSpecial('@') && IsSpecial('!');
    assert Group.OpensGroup(p, i) ==> IsIdle(env, p, i);
    StepIsFits(env, p, i, s, n, e, nlp);
  }

  lemma GroupTurn(env: Env, p: CString, j: nat, s: CString, n: nat, e: nat, nlp: bool, chunk: bool)
    requires env.Sane() && IsGroupAt(env, p, j) && n <= e <= |s|
    ensures Fct(env, p, j, s, n, e, nlp, chunk) == if Opens(env, p, j, s, n, e, nlp) then Match else NoMatch
  {
    assert IsSpecial('*') && IsSpecial('?') && IsSpecial('+') && IsSpecial('@') && IsSpecial('!');
  }

  lemma ChunkStops(env: Env, p: CString, i: nat, j: nat, g: Glob, s: CString, n: nat, e: nat, nlp: bool)
    requires IsPrefix(env, p, i, j, g) && i < j && n <= e <= |s| && p[i] == '*'
    ensures g.Cons? && g.head.Run? && IsPrefix(env, p, i + 1, j, g.tail)
    ensures Fct(env, p, i, s, n, e, nlp, true) == Ends(i, n, nlp)
    ensures LoopTurn(env, p, i, s, n, e, nlp, false) == Star(env, p, i + 1, s, n, e, nlp)
  {
    assert IsSpecial('*') && (Group.OpensGroup(p, i) ==> IsIdle(env, p, i));
    assert LoopTurn(env, p, i, s, n, e, nlp, true) == Return(Ends(i, n, nlp));
  }

  lemma {:induction false} PrefixChunk(env: Env, p: CString, i: nat, j: nat, g: Glob, s: CString, n: nat, e: nat,
        nlp: bool)
    requires IsPrefix(env, p, i, j, g) && n <= e <= |s|
    ensures AnswersTo(env, p, j, g, s, e, Place(env, g, s, n, e, nlp), Fct(env, p, i, s, n, e, nlp, true))
    decreases j - i
  {
    if i == j {
      GroupTurn(env, p, j, s, n, e, nlp, true);
    } else if p[i] == '*' {
      ChunkStops(env, p, i, j, g, s, n, e, nlp);
    } else {
      PrefixTurn(env, p, i, j, g, s, n, e, nlp);
      if n < e && FitsNlp(env, g.head, s, n, nlp) {
        PrefixChunk(env, p, ParseElement(env, p, i).value.1, j, g.tail, s, n + 1, e, NextNlp(env, g.head));
      }
    }
  }

  // What the first character says of the first element
  lemma PrefixHead(env: Env, p: CString, i: nat, j: nat, g: Glob)
    requires IsPrefix(env, p, i, j, g) && i < j
    ensures g.Cons? && ParseElement(env, p, i).Some? && ParseElement(env, p, i).value.0 == g.head
    ensures (p[i] == '*' <==> g.head.Run?) && (p[i] == '?' <==> g.head.AnyOne?)
    ensures g.head == Literal('/', false) ==> p[i] == '/'
    ensures Wildcard(g) ==> IsPrefix(env, p, i + 1, j, g.tail)
  {
    assert IsSpecial('/');
  }

  // A chunk call behind a `*`
  lemma InnerPrefixChunk(env: Env, p: CString, i: nat, j: nat, g: Glob, s: CString, n: nat, e: nat, nlp: bool)
    requires IsPrefix(env, p, i, j, g) && n <= e <= |s|
    ensures AnswersTo(env.Inner(), p, j, g, s, e, Place(env, g, s, n, e, nlp),
                      Fct(env.Inner(), p, i, s, n, e, nlp, true))
  {
    InnerIsPrefix(env, p, i, j, g);
    InnerPlacesAlike(env, g, s, n, e, nlp);
    PrefixChunk(env.Inner(), p, i, j, g, s, n, e, nlp);
  }

  lemma {:induction false} LedSplitsAtTheChunk(env: Env, p: CString, j: nat, g: Glob, s: CString, n: nat, e: nat,
        nlp: bool)
    requires IsGroupAt(env, p, j) && n <= e <= |s|
    ensures var r := Place(env, g, s, n, e, nlp);
            Led(env, p, j, g, s, n, e, nlp) <==> r.Some? && Led(env, p, j, Rest(g), s, r.value.0, e, r.value.1)
    decreases g
  {
    if g.Cons? && !g.head.Run? && n < e && FitsNlp(env, g.head, s, n, nlp) {
      LedSplitsAtTheChunk(env, p, j, g.tail, s, n + 1, e, NextNlp(env, g.head));
    }
  }

  // ----- the leftmost placement suffices -----

  // Behind a chunk, whether periods are protected depends on its last element only.
  lemma {:induction false} PlacesProtectAlike(env: Env, g: Glob, s: CString, a: nat, b: nat, e: nat, na: bool, nb: bool)
    requires a <= e <= |s| && b <= e && g.Cons? && !g.head.Run?
    requires Place(env, g, s, a, e, na).Some? && Place(env, g, s, b, e, nb).Some?
    ensures Place(env, g, s, a, e, na).value.1 == Place(env, g, s, b, e, nb).value.1
    decreases g
  {
    if g.tail.Cons? && !g.tail.head.Run? {
      PlacesProtectAlike(env, g.tail, s, a + 1, b + 1, e, NextNlp(env, g.head), NextNlp(env, g.head));
    }
  }

  lemma {:induction false} LedRunStartsEarlier(env: Env, p: CString, j: nat, g: Glob, s: CString, a: nat, b: nat,
        e: nat, la: bool)
    requires IsGroupAt(env, p, j) && a < b <= e <= |s| && AllWild(env, s, a, b) && LedRun(env, p, j, g, s, b, e, false)
    ensures LedRun(env, p, j, g, s, a, e, la)
    decreases g
  {
    if g.Nil? {
      var k :| b <= k < e && TriedAt(env, p, j, s, b, k, e, false);
      assert TriedAt(env, p, j, s, a, k, e, la);
    } else if g.head.Run? {
      LedRunStartsEarlier(env, p, j, g.tail, s, a, b, e, la);
    } else if g.head.AnyOne? {
      LedRunStartsEarlier(env, p, j, g.tail, s, a + 1, b + 1, e, la);
    } else {
      var k :| b <= k <= e && AllWild(env, s, b, k) && Led(env.Inner(), p, j, g, s, k, e, k == b && false);
      assert AllWild(env, s, a, k);
    }
  }

  lemma FirstPlaceSuffices(env: Env, p: CString, j: nat, g: Glob, s: CString, k0: nat, k: nat, e: nat, l0: bool,
        l: bool)
    requires env.Sane() && IsGroupAt(env, p, j) && k0 < k <= e <= |s| && AllWild(env, s, k0, k)
    requires g.Cons? && !g.head.Run? && Rest(g).Cons?
    requires Place(env, g, s, k0, e, l0).Some? && Led(env, p, j, g, s, k, e, l)
    ensures Led(env, p, j, g, s, k0, e, l0)
  {
    LedSplitsAtTheChunk(env, p, j, g, s, k, e, l);
    LedSplitsAtTheChunk(env, p, j, g, s, k0, e, l0);
    LeftmostLosesNothing(env, g, s, k0, k, e, l0, l);
    PlacesProtectAlike(env, g, s, k0, k, e, l0, l);
    RestStartsWithRun(g);
    var (m0, l0') := Place(env, g, s, k0, e, l0).value;
    var (m, l') := Place(env, g, s, k, e, l).value;
    LedRunStartsEarlier(env, p, j, Rest(g).tail, s, m0, m, e, l0');
  }

  // ----- the search -----

  ghost predicate LedAt(env: Env, p: CString, j: nat, g: Glob, s: CString, n: nat, k: nat, e: nat, nlp: bool)
    requires IsGroupAt(env, p, j) && n <= k <= e <= |s|
  {
    Led(env.Inner(), p, j, g, s, k, e, k == n && nlp)
  }

  // What the search answers goes on to a match.
  ghost predicate GoesTo(env: Env, p: CString, j: nat, v: Verdict, s: CString, e: nat)
    requires IsGroupAt(env, p, j) && e <= |s| && (v.Ends? ==> v.str <= e)
  {
    || v == Match
    || (v.Ends? && v.pattern <= j && ParseTo(env, p, v.pattern, j).Some?
        && Led(env, p, j, ParseTo(env, p, v.pattern, j).value, s, v.str, e, v.noLeadingPeriod))
  }

  lemma AttemptAnswers(env: Env, p: CString, i: nat, j: nat, g: Glob, s: CString, n: nat, k: nat, e: nat, nlp: bool)
    requires IsPrefix(env, p, i, j, g) && i < j && n <= k < e <= |s| && p[i] != '*' && p[i] != '?'
    ensures AnswersTo(env.Inner(), p, j, g, s, e, Place(env, g, s, k, e, k == n && nlp),
                      Attempt(env.Inner(), p, i, s, n, k, e, nlp))
  {
    InnerPrefixChunk(env, p, i, j, g, s, k, e, k == n && nlp);
    AttemptTestsFirst(env, p, i, s, n, k, e, nlp);
    PrefixTurn(env, p, i, j, g, s, k, e, k == n && nlp);
  }

  // The quick test on the first character rejects only what the step would reject.
  lemma AttemptTestsFirst(env: Env, p: CString, i: nat, s: CString, n: nat, k: nat, e: nat, nlp: bool)
    requires env.Sane() && i < |p| && n <= k < e <= |s| && p[i] != '*' && p[i] != '?' && ParseElement(env, p, i).Some?
    ensures Attempt(env.Inner(), p, i, s, n, k, e, nlp) != Fct(env.Inner(), p, i, s, k, e, k == n && nlp, true) ==>
              && Attempt(env.Inner(), p, i, s, n, k, e, nlp) == NoMatch
              && !FitsNlp(env, ParseElement(env, p, i).value.0, s, k, k == n && nlp)
  {
    assert env.Inner().Fold(s[k]) == env.Fold(s[k]);
    assert FirstLiteral(env.Inner(), p, i) == FirstLiteral(env, p, i);
    assert IsSpecial('[') && IsSpecial('\\');
  }

  lemma AnswerLeads(env: Env, p: CString, j: nat, g: Glob, s: CString, k: nat, e: nat, l: bool, v: Verdict)
    requires IsGroupAt(env, p, j) && k <= e <= |s| && (v.Ends? ==> v.str <= e) && v != NoMatch
    requires AnswersTo(env.Inner(), p, j, g, s, e, Place(env, g, s, k, e, l), v)
    ensures Place(env, g, s, k, e, l).Some?
    ensures v.Ends? ==> v.pattern <= j && ParseTo(env, p, v.pattern, j).Some?
    ensures GoesTo(env, p, j, v, s, e) <==> Led(env.Inner(), p, j, g, s, k, e, l)
    ensures Rest(g).Nil? ==> Led(env.Inner(), p, j, g, s, k, e, l)
  {
    InnerPlacesAlike(env, g, s, k, e, l);
    LedSplitsAtTheChunk(env.Inner(), p, j, g, s, k, e, l);
    RestStartsWithRun(g);
    if v.Ends? {
      InnerParsesToAlike(env, p, v.pattern, j);
      InnerRunIsLed(env, p, j, Rest(g).tail, s, v.str, e, v.noLeadingPeriod);
    }
  }

  lemma NoAnswerLeadsNowhere(env: Env, p: CString, j: nat, g: Glob, s: CString, k: nat, e: nat, l: bool)
    requires IsGroupAt(env, p, j) && k <= e <= |s|
    requires AnswersTo(env.Inner(), p, j, g, s, e, Place(env, g, s, k, e, l), NoMatch)
    ensures !Led(env.Inner(), p, j, g, s, k, e, l)
  {
    InnerPlacesAlike(env, g, s, k, e, l);
    LedSplitsAtTheChunk(env.Inner(), p, j, g, s, k, e, l);
  }

  lemma SearchAnswers(env: Env, p: CString, i: nat, j: nat, g: Glob, s: CString, n: nat, endp: nat, e: nat, nlp: bool)
    returns (k: nat)
    requires IsPrefix(env, p, i, j, g) && i < j && n <= endp <= e <= |s| && p[i] != '*' && p[i] != '?'
    ensures n <= k <= endp && forall m :: n <= m < k ==> !LedAt(env, p, j, g, s, n, m, e, nlp)
    ensures var v := Search(env.Inner(), p, i, s, n, endp, e, nlp);
            if k == endp then v == NoMatch
            else v != NoMatch && AnswersTo(env.Inner(), p, j, g, s, e, Place(env, g, s, k, e, k == n && nlp), v)
  {
    k := SearchFindsFirst(env.Inner(), p, i, s, n, endp, e, nlp);
    forall m | n <= m < k ensures !LedAt(env, p, j, g, s, n, m, e, nlp) {
      AttemptAnswers(env, p, i, j, g, s, n, m, e, nlp);
      NoAnswerLeadsNowhere(env, p, j, g, s, m, e, m == n && nlp);
    }
    if k < endp {
      AttemptAnswers(env, p, i, j, g, s, n, k, e, nlp);
    }
  }

  lemma SearchIsLed(env: Env, p: CString, i: nat, j: nat, g: Glob, s: CString, n: nat, endp: nat, e: nat, nlp: bool)
    requires IsPrefix(env, p, i, j, g) && i < j && SearchRange(env, s, n, endp, e) && p[i] != '*' && p[i] != '?'
    requires !(env.flags.fileName && p[i] == '/')
    ensures var v := Search(env.Inner(), p, i, s, n, endp, e, nlp);
            && (v.Ends? ==> v.pattern <= j && ParseTo(env, p, v.pattern, j) == Some(Rest(g)) && Rest(g).Cons?)
            && (GoesTo(env, p, j, v, s, e) <==> LedRun(env, p, j, g, s, n, e, nlp))
  {
    var k := SearchAnswers(env, p, i, j, g, s, n, endp, e, nlp);
    if k < endp {
      PlaceLeads(env, p, i, j, g, s, n, k, endp, e, nlp, Search(env.Inner(), p, i, s, n, endp, e, nlp));
    }
    if LedRun(env, p, j, g, s, n, e, nlp) {
      SearchMeetsLed(env, p, i, j, g, s, n, endp, e, nlp, k);
    }
  }

  lemma PlaceLeads(env: Env, p: CString, i: nat, j: nat, g: Glob, s: CString, n: nat, k: nat, endp: nat, e: nat,
        nlp: bool, v: Verdict)
    requires IsPrefix(env, p, i, j, g) && i < j && SearchRange(env, s, n, endp, e) && p[i] != '*' && p[i] != '?'
    requires n <= k < endp && v != NoMatch && (v.Ends? ==> v.str <= e)
    requires AnswersTo(env.Inner(), p, j, g, s, e, Place(env, g, s, k, e, k == n && nlp), v)
    ensures v.Ends? ==> v.pattern <= j && ParseTo(env, p, v.pattern, j) == Some(Rest(g)) && Rest(g).Cons?
    ensures GoesTo(env, p, j, v, s, e) ==> LedRun(env, p, j, g, s, n, e, nlp)
  {
    PrefixTurn(env, p, i, j, g, s, n, e, nlp);
    AnswerLeads(env, p, j, g, s, k, e, k == n && nlp, v);
    if v.Ends? {
      InnerParsesToAlike(env, p, v.pattern, j);
    }
    if GoesTo(env, p, j, v, s, e) {
      RunFromPlace(env, p, j, g, s, n, k, endp, e, nlp);
    }
  }

  lemma RunFromPlace(env: Env, p: CString, j: nat, g: Glob, s: CString, n: nat, k: nat, endp: nat, e: nat, nlp: bool)
    requires env.Sane() && IsGroupAt(env, p, j) && SearchRange(env, s, n, endp, e) && n <= k < endp
    requires g.Cons? && !Wildcard(g) && LedAt(env, p, j, g, s, n, k, e, nlp)
    ensures LedRun(env, p, j, g, s, n, e, nlp)
  {
    assert AllWild(env, s, n, k) && IsSpecial('/');
  }

  lemma SearchMeetsLed(env: Env, p: CString, i: nat, j: nat, g: Glob, s: CString, n: nat, endp: nat, e: nat, nlp: bool,
        k0: nat)
    requires IsPrefix(env, p, i, j, g) && i < j && SearchRange(env, s, n, endp, e) && p[i] != '*' && p[i] != '?'
    requires !(env.flags.fileName && p[i] == '/') && LedRun(env, p, j, g, s, n, e, nlp) && n <= k0 <= endp
    requires forall m :: n <= m < k0 ==> !LedAt(env, p, j, g, s, n, m, e, nlp)
    requires var v := Search(env.Inner(), p, i, s, n, endp, e, nlp);
             if k0 == endp then v == NoMatch
             else v != NoMatch && AnswersTo(env.Inner(), p, j, g, s, e, Place(env, g, s, k0, e, k0 == n && nlp), v)
    ensures GoesTo(env, p, j, Search(env.Inner(), p, i, s, n, endp, e, nlp), s, e)
  {
    PrefixHead(env, p, i, j, g);
    var k := LedInRange(env, p, i, j, g, s, n, endp, e, nlp);
    assert k0 <= k;
    var v := Search(env.Inner(), p, i, s, n, endp, e, nlp);
    AnswerLeads(env, p, j, g, s, k0, e, k0 == n && nlp, v);
    if k0 < k && Rest(g).Cons? {
      InnerPlacesAlike(env, g, s, k0, e, k0 == n && nlp);
      InnerIsPrefix(env, p, i, j, g);
      FirstPlaceSuffices(env.Inner(), p, j, g, s, k0, k, e, k0 == n && nlp, k == n && nlp);
    }
  }

  lemma LedInRange(env: Env, p: CString, i: nat, j: nat, g: Glob, s: CString, n: nat, endp: nat, e: nat, nlp: bool)
    returns (k: nat)
    requires IsPrefix(env, p, i, j, g) && i < j && SearchRange(env, s, n, endp, e) && p[i] != '*' && p[i] != '?'
    requires !(env.flags.fileName && p[i] == '/') && LedRun(env, p, j, g, s, n, e, nlp)
    ensures n <= k < endp && AllWild(env, s, n, k) && LedAt(env, p, j, g, s, n, k, e, nlp)
  {
    PrefixHead(env, p, i, j, g);
    k :| n <= k <= e && AllWild(env, s, n, k) && Led(env.Inner(), p, j, g, s, k, e, k == n && nlp);
    InnerFitsAlike(env, g.head, s, k, k == n && nlp);
    HeadIsInRange(env, g.head, s, n, k, endp, e, k == n && nlp);
  }

  lemma HeadIsInRange(env: Env, element: Element, s: CString, n: nat, k: nat, endp: nat, e: nat, nlp: bool)
    requires env.Sane() && SearchRange(env, s, n, endp, e) && n <= k < e && AllWild(env, s, n, k)
    requires FitsNlp(env, element, s, k, nlp)
    requires env.flags.fileName ==> element != Literal('/', false) && element != Literal('/', true)
    ensures k < endp
  {
    assert IsSpecial('/') && env.Fold('/') == '/';
  }

  // ----- the star -----

  // From i' and n' on, the pattern does what g does from n, and no wildcard is next.
  ghost predicate Skipped(env: Env, p: CString, j: nat, g: Glob, s: CString, n: nat, e: nat, nlp: bool,
        i': nat, n': nat)
    requires IsGroupAt(env, p, j) && n <= e <= |s| && n' <= e
  {
    && i' <= j && ParseTo(env, p, i', j).Some?
    && var g' := ParseTo(env, p, i', j).value;
       && !Wildcard(g') && IsPrefix(env, p, i', j, g') && IsBlindBehindRun(p, j, g', true)
       && (LedRun(env, p, j, g, s, n, e, nlp) <==> LedRun(env, p, j, g', s, n', e, nlp))
       && p[i'] != '*' && p[i'] != '?'
  }

  lemma NothingToSkip(env: Env, p: CString, i: nat, j: nat, g: Glob, s: CString, n: nat, e: nat, nlp: bool)
    requires IsPrefix(env, p, i, j, g) && IsBlindBehindRun(p, j, g, true) && n <= e <= |s|
    requires i < j ==> p[i] != '*' && p[i] != '?'
    ensures SkipWildcards(env, p, i, s, n, e) == Some((i, n)) && Skipped(env, p, j, g, s, n, e, nlp, i, n)
  {
    if i < j {
      PrefixHead(env, p, i, j, g);
    }
  }

  lemma {:induction false} PrefixWildcards(env: Env, p: CString, i: nat, j: nat, g: Glob, s: CString, n: nat, e: nat,
        nlp: bool)
    requires IsPrefix(env, p, i, j, g) && IsBlindBehindRun(p, j, g, true) && n <= e <= |s|
    ensures match SkipWildcards(env, p, i, s, n, e)
            case None => !LedRun(env, p, j, g, s, n, e, nlp)
            case Some((i', n')) => Skipped(env, p, j, g, s, n, e, nlp, i', n')
    decreases j - i
  {
    if i == j || (p[i] != '*' && p[i] != '?') {
      NothingToSkip(env, p, i, j, g, s, n, e, nlp);
    } else {
      PrefixHead(env, p, i, j, g);
      SkipsOne(env, p, i, j, g, s, n, e);
      if p[i] == '*' {
        PrefixWildcards(env, p, i + 1, j, g.tail, s, n, e, nlp);
      } else if n < e && Wild(env, s, n) {
        PrefixWildcards(env, p, i + 1, j, g.tail, s, n + 1, e, nlp);
      }
    }
  }

  lemma SkipsOne(env: Env, p: CString, i: nat, j: nat, g: Glob, s: CString, n: nat, e: nat)
    requires IsPrefix(env, p, i, j, g) && i < j && n <= e <= |s| && (p[i] == '*' || p[i] == '?')
    ensures SkipWildcards(env, p, i, s, n, e)
            == if p[i] == '*' then SkipWildcards(env, p, i + 1, s, n, e)
               else if n < e && Wild(env, s, n) then SkipWildcards(env, p, i + 1, s, n + 1, e)
               else None
  {
    assert Group.OpensGroup(p, i) ==> IsIdle(env, p, i);
  }

  // A `*` directly before the group
  lemma GroupBehindStar(env: Env, p: CString, j: nat, s: CString, n: nat, e: nat, nlp: bool)
    requires env.Sane() && IsGroupAt(env, p, j) && IsBlindOperator(p[j]) && n <= e <= |s|
    ensures BehindStar(env, p, j, s, n, e, nlp)
            == Return(if LedRun(env, p, j, Nil, s, n, e, nlp) then Match else NoMatch)
  {
    assert IsSpecial('@') && IsSpecial('+') && IsSpecial('!');
    var endp := if env.flags.fileName then FindSlash(s, n, e) else e;
    SearchFindsGroup(env, p, j, s, n, endp, e, nlp);
    if SomePlaceTakes(env, p, j, s, n, endp, e, nlp) {
      var k :| n <= k < endp && GroupTakes(env, p, j, s, n, k, e, nlp);
      assert TriedAt(env, p, j, s, n, k, e, nlp);
    } else if LedRun(env, p, j, Nil, s, n, e, nlp) {
      var k :| n <= k < e && TriedAt(env, p, j, s, n, k, e, nlp);
      assert GroupTakes(env, p, j, s, n, k, e, nlp);
    }
  }

  ghost predicate TurnLeads(env: Env, p: CString, j: nat, turn: Turn, s: CString, e: nat)
    requires IsGroupAt(env, p, j) && e <= |s| && (turn.Continue? ==> turn.str <= e)
  {
    match turn
    case Return(v) => v == Match
    case Continue(i, n, nlp) =>
      && i <= j && ParseTo(env, p, i, j).Some?
      && Led(env, p, j, ParseTo(env, p, i, j).value, s, n, e, nlp)
  }

  ghost predicate ContinuesTo(env: Env, p: CString, j: nat, i: nat)
    requires j < |p|
  {
    i <= j && ParseTo(env, p, i, j).Some? && IsBlindBehindRun(p, j, ParseTo(env, p, i, j).value, false)
  }

  lemma {:induction false} RestIsBlind(p: CString, j: nat, g: Glob, run: bool)
    requires j < |p| && IsBlindBehindRun(p, j, g, run)
    ensures Rest(g).Cons? ==> IsBlindBehindRun(p, j, Rest(g), false)
  {
    if g.Cons? && !g.head.Run? {
      RestIsBlind(p, j, g.tail, run && g.head.AnyOne?);
    }
  }

  lemma {:induction false} StarLeads(env: Env, p: CString, i: nat, j: nat, g: Glob, s: CString, n: nat, e: nat,
        nlp: bool)
    requires IsPrefix(env, p, i, j, g) && IsBlindBehindRun(p, j, g, true) && n <= e <= |s|
    ensures var turn := Star(env, p, i, s, n, e, nlp);
            && (turn.Continue? ==> ContinuesTo(env, p, j, turn.pattern))
            && (TurnLeads(env, p, j, turn, s, e)
                <==> !(n < e && s[n] == '.' && nlp) && LedRun(env, p, j, g, s, n, e, nlp))
    decreases j - i, 3
  {
    PrefixWildcards(env, p, i, j, g, s, n, e, nlp);
    var r := SkipWildcards(env, p, i, s, n, e);
    if r.Some? {
      var (i', n') := r.value;
      BehindStarLeads(env, p, i', j, ParseTo(env, p, i', j).value, s, n', e, nlp);
    }
  }

  lemma {:induction false} BehindStarLeads(env: Env, p: CString, i: nat, j: nat, g: Glob, s: CString, n: nat, e: nat,
        nlp: bool)
    requires IsPrefix(env, p, i, j, g) && IsBlindBehindRun(p, j, g, true) && n <= e <= |s|
    requires !Wildcard(g) && p[i] != '*' && p[i] != '?'
    ensures var turn := BehindStar(env, p, i, s, n, e, nlp);
            && (turn.Continue? ==> ContinuesTo(env, p, j, turn.pattern))
            && (TurnLeads(env, p, j, turn, s, e) <==> LedRun(env, p, j, g, s, n, e, nlp))
    decreases j - i, 2
  {
    if i == j {
      GroupBehindStar(env, p, j, s, n, e, nlp);
    } else if p[i] == '/' && env.flags.fileName {
      SlashLeads(env, p, i, j, g, s, n, e, nlp);
    } else {
      SearchIsLed(env, p, i, j, g, s, n, if env.flags.fileName then FindSlash(s, n, e) else e, e, nlp);
      RestIsBlind(p, j, g, true);
    }
  }

  lemma SlashIsNextTo(env: Env, p: CString, j: nat, g: Glob, s: CString, n: nat, e: nat, nlp: bool)
    requires env.Sane() && IsGroupAt(env, p, j) && env.flags.fileName && n <= e <= |s|
    requires g.Cons? && g.head == Literal('/', false)
    ensures var m := FindSlash(s, n, e);
            LedRun(env, p, j, g, s, n, e, nlp) <==> m < e && Led(env, p, j, g.tail, s, m + 1, e, env.flags.period)
  {
    var m := FindSlash(s, n, e);
    assert IsSpecial('/') && env.Fold('/') == '/' && env.Inner() == env;
    if LedRun(env, p, j, g, s, n, e, nlp) {
      var k :| n <= k <= e && AllWild(env, s, n, k) && Led(env.Inner(), p, j, g, s, k, e, k == n && nlp);
      assert s[k] == '/';
    }
    if m < e && Led(env, p, j, g.tail, s, m + 1, e, env.flags.period) {
      assert AllWild(env, s, n, m) && Led(env, p, j, g, s, m, e, m == n && nlp);
    }
  }

  lemma SlashHead(env: Env, p: CString, i: nat, j: nat, g: Glob)
    requires IsPrefix(env, p, i, j, g) && i < j && p[i] == '/' && IsBlindBehindRun(p, j, g, true)
    ensures g.Cons? && g.head == Literal('/', false)
    ensures IsPrefix(env, p, i + 1, j, g.tail) && IsBlindBehindRun(p, j, g.tail, false)
  {
    assert IsSpecial('/') && env.Fold('/') == '/';
  }

  lemma {:induction false} SlashLeads(env: Env, p: CString, i: nat, j: nat, g: Glob, s: CString, n: nat, e: nat,
        nlp: bool)
    requires IsPrefix(env, p, i, j, g) && IsBlindBehindRun(p, j, g, true) && i < j && n <= e <= |s|
    requires p[i] == '/' && env.flags.fileName
    ensures var turn := BehindStar(env, p, i, s, n, e, nlp);
            turn.Return? && (turn.verdict == Match <==> LedRun(env, p, j, g, s, n, e, nlp))
    decreases j - i, 1
  {
    SlashHead(env, p, i, j, g);
    SlashIsNextTo(env, p, j, g, s, n, e, nlp);
    var m := FindSlash(s, n, e);
    if m < e {
      FctIsLed(env, p, i + 1, j, g.tail, s, m + 1, e, env.flags.period);
    }
  }

  // FCT answers 0 exactly when the elements before the group can be placed and the group takes what is left.
  lemma {:induction false} FctIsLed(env: Env, p: CString, i: nat, j: nat, g: Glob, s: CString, n: nat, e: nat,
        nlp: bool)
    requires IsPrefix(env, p, i, j, g) && IsBlindBehindRun(p, j, g, false) && n <= e <= |s|
    ensures Fct(env, p, i, s, n, e, nlp, false) == Match <==> Led(env, p, j, g, s, n, e, nlp)
    decreases j - i, 4
  {
    if i == j {
      GroupTurn(env, p, j, s, n, e, nlp, false);
    } else if p[i] == '*' {
      ChunkStops(env, p, i, j, g, s, n, e, nlp);
      StarLeads(env, p, i + 1, j, g.tail, s, n, e, nlp);
      var turn := Star(env, p, i + 1, s, n, e, nlp);
      if turn.Continue? {
        var behind := ParseTo(env, p, turn.pattern, j).value;
        FctIsLed(env, p, turn.pattern, j, behind, s, turn.str, e, turn.noLeadingPeriod);
      }
    } else {
      PrefixTurn(env, p, i, j, g, s, n, e, nlp);
      if n < e && FitsNlp(env, g.head, s, n, nlp) {
        FctIsLed(env, p, ParseElement(env, p, i).value.1, j, g.tail, s, n + 1, e, NextNlp(env, g.head));
      }
    }
  }

  // ----- in terms of the standard's relation, without FNM_PERIOD -----

  // A star, and nothing but wildcards behind it, before the group
  predicate EndsInRun(g: Glob, run: bool) {
    match g
    case Nil => run
    case Cons(head, tail) => EndsInRun(tail, head.Run? || (run && head.AnyOne?))
  }

  // The pattern takes s[n..k], and the group what is left; but directly behind a star and its wildcards the group is
  // not tried at the end, nor before a slash under FNM_FILE_NAME.
  ghost predicate TakesUpTo(env: Env, p: CString, j: nat, g: Glob, s: CString, n: nat, k: nat, e: nat, run: bool)
    requires IsGroupAt(env, p, j) && n <= k <= e <= |s|
  {
    && Matches(Whole(env), g, s, n, k)
    && (EndsInRun(g, run) ==> k < e && Wild(env, s, k))
    && Opens(env, p, j, s, k, e, false)
  }

  lemma {:induction false} LedTakes(env: Env, p: CString, j: nat, g: Glob, s: CString, n: nat, e: nat, run: bool)
    returns (m: nat, k: nat)
    requires IsGroupAt(env, p, j) && !env.flags.period && n <= e <= |s|
    requires if run then LedRun(env, p, j, g, s, n, e, false) else Led(env, p, j, g, s, n, e, false)
    ensures n <= m <= k <= e && AllWild(env, s, n, m) && (!run ==> m == n) && TakesUpTo(env, p, j, g, s, m, k, e, run)
    decreases g, run
  {
    assert env.Inner() == env;
    if g.Nil? {
      m, k := n, n;
      if run {
        k :| n <= k < e && TriedAt(env, p, j, s, n, k, e, false);
        m := k;
      }
    } else if run && !Wildcard(g) {
      m :| n <= m <= e && AllWild(env, s, n, m) && Led(env.Inner(), p, j, g, s, m, e, m == n && false);
      var same;
      same, k := LedTakes(env, p, j, g, s, m, e, false);
    } else if g.head.Run? {
      m, k := LedTakes(env, p, j, g.tail, s, n, e, true);
      assert AllWild(Whole(env), s, n, m);
      m := n;
    } else {
      var first;
      first, k := LedTakes(env, p, j, g.tail, s, n + 1, e, run);
      m := first - 1;
      assert AllWild(env, s, n, m);
      WholeFitsAlike(env, g.head, s, m, e, k);
    }
  }

  lemma {:induction false} TakesIsLed(env: Env, p: CString, j: nat, g: Glob, s: CString, n: nat, m: nat, k: nat, e: nat,
        run: bool)
    requires IsGroupAt(env, p, j) && !env.flags.period && n <= m <= k <= e <= |s|
    requires env.flags.fileName ==> !Meaning.HasStarQuotedSlash(g) && (run ==> !Meaning.QuotedSlashBehind(g))
    requires AllWild(env, s, n, m) && (!run ==> m == n) && TakesUpTo(env, p, j, g, s, m, k, e, run)
    ensures if run then LedRun(env, p, j, g, s, n, e, false) else Led(env, p, j, g, s, n, e, false)
    decreases g, run
  {
    assert env.Inner() == env;
    if g.Nil? {
      if run {
        assert TriedAt(env, p, j, s, n, k, e, false);
      }
    } else if run && !Wildcard(g) {
      TakesIsLed(env, p, j, g, s, m, m, k, e, false);
    } else if g.head.Run? {
      var m' :| m <= m' <= k && AllWild(Whole(env), s, m, m') && Matches(Whole(env), g.tail, s, m', k);
      TakesIsLed(env, p, j, g.tail, s, n, m', k, e, true);
    } else {
      WholeFitsAlike(env, g.head, s, m, e, k);
      TakesIsLed(env, p, j, g.tail, s, n + 1, m + 1, k, e, run);
    }
  }

  lemma {:induction false} LedHasNoStarQuotedSlash(env: Env, p: CString, j: nat, g: Glob, s: CString, n: nat, e: nat,
        nlp: bool, run: bool)
    requires IsGroupAt(env, p, j) && env.flags.fileName && n <= e <= |s|
    requires if run then LedRun(env, p, j, g, s, n, e, nlp) else Led(env, p, j, g, s, n, e, nlp)
    ensures !Meaning.HasStarQuotedSlash(g) && (run ==> !Meaning.QuotedSlashBehind(g))
    decreases g, run
  {
    assert env.Inner() == env;
    if g.Cons? {
      if run && !Wildcard(g) {
        var k :| n <= k <= e && AllWild(env, s, n, k) && Led(env.Inner(), p, j, g, s, k, e, k == n && nlp);
        LedHasNoStarQuotedSlash(env, p, j, g, s, k, e, k == n && nlp, false);
      } else if g.head.Run? {
        LedHasNoStarQuotedSlash(env, p, j, g.tail, s, n, e, nlp, true);
      } else {
        LedHasNoStarQuotedSlash(env, p, j, g.tail, s, n + 1, e, if run then nlp else NextNlp(env, g.head), run);
      }
    }
  }

  // A plain pattern before a group: some part of the string is matched by the pattern, and the group takes what is
  // left.
  lemma PrefixMeaning(env: Env, p: CString, i: nat, j: nat, g: Glob, s: CString, n: nat, e: nat)
    requires IsPrefix(env, p, i, j, g) && IsBlindBehindRun(p, j, g, false) && !env.flags.period && n <= e <= |s|
    ensures Fct(env, p, i, s, n, e, false, false) == Match
            <==> && !(env.flags.fileName && Meaning.HasStarQuotedSlash(g))
                 && exists k :: n <= k <= e && TakesUpTo(env, p, j, g, s, n, k, e, false)
  {
    FctIsLed(env, p, i, j, g, s, n, e, false);
    if Led(env, p, j, g, s, n, e, false) {
      var m, k := LedTakes(env, p, j, g, s, n, e, false);
      if env.flags.fileName {
        LedHasNoStarQuotedSlash(env, p, j, g, s, n, e, false, false);
      }
    } else if !(env.flags.fileName && Meaning.HasStarQuotedSlash(g)) {
      if k :| n <= k <= e && TakesUpTo(env, p, j, g, s, n, k, e, false) {
        TakesIsLed(env, p, j, g, s, n, n, k, e, false);
      }
    }
  }

  // Without FNM_PERIOD, what the prefix is for the matcher can be put as the standard reads it.
  lemma {:induction false} WholeIsAlike(env: Env, g: Glob, std: Glob, s: CString, n: nat, k: nat)
    requires Agreement.Alike(env, g, std) && n <= k <= |s|
    ensures Matches(Whole(env), g, s, n, k) <==> Matches(Whole(env), std, s, n, k)
  {
    AlikeForWhole(env, g, std);
    Agreement.AlikeMatchesAlike(Whole(env), g, std, s, n, k);
  }

  lemma {:induction false} AlikeForWhole(env: Env, g: Glob, std: Glob)
    requires Agreement.Alike(env, g, std)
    ensures Agreement.Alike(Whole(env), g, std)
  {
    if g.Cons? {
      AlikeForWhole(env, g.tail, std.tail);
      if g.head.Set? {
        forall ch: char | Agreement.IsTakeable(env, ch)
          ensures InItems(Whole(env), g.head.items, ch) <==> InItems(Whole(env), std.head.items, ch)
        {
          WholeHoldsAlike(env, g.head.items, ch);
          WholeHoldsAlike(env, std.head.items, ch);
        }
      }
    }
  }

  lemma WholeHoldsAlike(env: Env, items: seq<Item>, ch: char)
    ensures InItems(Whole(env), items, ch) == InItems(env, items, ch)
  {
    assert forall item :: ItemHolds(Whole(env), item, ch) == ItemHolds(env, item, ch);
  }
}
