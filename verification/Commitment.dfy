/**
  The committed search is complete: FCT answers 0 exactly when some placement of the chunks
  exists, although it never retries a chunk it has placed (lib/fnmatch_loop.c:92-226).
*/
module Commitment {
  import opened Wrappers
  import opened Text
  import opened Glob
  import opened Reading
  import opened Placement
  import opened Fnmatch
  import Bracket
  import BracketMeaning
  import Group

  // The operator at j has no group: nothing closes the `(` behind it, for EXT and, where a star asks it, for END. A `*`
  // is left out: behind another star it is not taken for the end of a chunk.
  predicate IsIdle(env: Env, p: CString, j: nat)
    requires j < |p| && Group.OpensGroup(p, j)
  {
    && p[j] != '*' && Group.SplitGroup(env.locale, p, j + 1).None?
    && (p[j] == '?' ==> Group.End(env.locale, p, j + 1) == j + 1)
  }

  // No `?( *( +( @( !(` from i on that is a group, or FNM_EXTMATCH clear
  ghost predicate NoGroups(env: Env, p: CString, i: nat) {
    env.flags.extMatch ==> forall j :: i <= j < |p| && Group.OpensGroup(p, j) ==> IsIdle(env, p, j)
  }

  // ----- the inner flags change nothing here -----

  lemma InnerParsesItemAlike(env: Env, p: CString, j: nat, lenient: bool)
    requires j <= |p|
    ensures ParseItem(env.Inner(), p, j, lenient) == ParseItem(env, p, j, lenient)
  {
  }

  lemma {:induction false} InnerParsesItemsAlike(env: Env, p: CString, j: nat, first: bool, rest: bool)
    requires j <= |p|
    ensures ParseItems(env.Inner(), p, j, first, rest) == ParseItems(env, p, j, first, rest)
    decreases |p| - j
  {
    InnerParsesItemAlike(env, p, j, first);
    var r := ParseItem(env, p, j, first);
    if r.Some? {
      InnerParsesItemsAlike(env, p, r.value.1, rest, rest);
    }
  }

  lemma {:induction false} InnerStandsOpenAlike(env: Env, p: CString, j: nat)
    requires j <= |p|
    ensures StandsOpen(env.Inner(), p, j) == StandsOpen(env, p, j)
    decreases |p| - j
  {
    InnerParsesItemAlike(env, p, j, true);
    var r := ParseItem(env, p, j, true);
    if r.Some? {
      InnerStandsOpenAlike(env, p, r.value.1);
    }
  }

  lemma {:induction false} InnerRunsOutAlike(env: Env, p: CString, j: nat)
    requires j <= |p|
    ensures RunsOut(env.Inner(), p, j) == RunsOut(env, p, j)
    decreases |p| - j
  {
    InnerParsesItemAlike(env, p, j, true);
    var r := ParseItem(env, p, j, true);
    if r.Some? {
      InnerRunsOutAlike(env, p, r.value.1);
    }
  }

  lemma InnerParsesElementAlike(env: Env, p: CString, i: nat)
    requires i < |p|
    ensures ParseElement(env.Inner(), p, i) == ParseElement(env, p, i)
  {
    if p[i] == '[' {
      var j := if Bracket.Negated(env.locale, p, i + 1) then i + 2 else i + 1;
      InnerParsesItemsAlike(env, p, j, true, Bracket.Negated(env.locale, p, i + 1));
      assert ParseSet(env.Inner(), p, i + 1) == ParseSet(env, p, i + 1);
      InnerStandsOpenAlike(env, p, j);
      InnerRunsOutAlike(env, p, j);
    }
  }

  lemma {:induction false} InnerParsesAlike(env: Env, p: CString, i: nat)
    requires i <= |p|
    ensures Parse(env.Inner(), p, i) == Parse(env, p, i)
    decreases |p| - i
  {
    if i < |p| {
      InnerParsesElementAlike(env, p, i);
      var r := ParseElement(env, p, i);
      if r.Some? {
        InnerParsesAlike(env, p, r.value.1);
      }
    }
  }

  lemma {:induction false} InnerPlacesAlike(env: Env, g: Glob, s: CString, n: nat, e: nat, nlp: bool)
    requires n <= e <= |s|
    ensures Place(env.Inner(), g, s, n, e, nlp) == Place(env, g, s, n, e, nlp)
    decreases g
  {
    if g.Cons? && !g.head.Run? && n < e {
      if g.head.Set? {
        assert forall item :: ItemHolds(env.Inner(), item, s[n]) == ItemHolds(env, item, s[n]);
      }
      assert FitsNlp(env.Inner(), g.head, s, n, nlp) == FitsNlp(env, g.head, s, n, nlp);
      if FitsNlp(env, g.head, s, n, nlp) {
        InnerPlacesAlike(env, g.tail, s, n + 1, e, NextNlp(env, g.head));
      }
    }
  }

  // ----- one pattern character, one chunk -----

  lemma StepIsFits(env: Env, p: CString, i: nat, s: CString, n: nat, e: nat, nlp: bool)
    requires env.Sane() && i < |p| && n <= e <= |s|
    requires ParseElement(env, p, i).Some? && p[i] != '*'
    ensures var (head, next) := ParseElement(env, p, i).value;
            Step(env, p, i, s, n, e, nlp)
            == if n < e && FitsNlp(env, head, s, n, nlp) then Some((next, NextNlp(env, head))) else None
  {
    if n < e {
      assert IsSpecial(env.Fold(p[i])) <==> IsSpecial(p[i]);
      assert IsSpecial('[') && IsSpecial('/');
      if p[i] == '[' {
        StepIsFitsAtBracket(env, p, i, s, n, e, nlp);
      } else if p[i] == '?' {
      } else if p[i] == '\\' {
      } else if p[i] == '/' {
      } else {
        assert env.Fold(p[i]) != '?' && env.Fold(p[i]) != '\\' && env.Fold(p[i]) != '[' && env.Fold(p[i]) != '/';
      }
    }
  }

  lemma StepIsFitsAtBracket(env: Env, p: CString, i: nat, s: CString, n: nat, e: nat, nlp: bool)
    requires env.Sane() && i < |p| && n < e <= |s|
    requires ParseElement(env, p, i).Some? && p[i] == '['
    ensures var (head, next) := ParseElement(env, p, i).value;
            Step(env, p, i, s, n, e, nlp)
            == if FitsNlp(env, head, s, n, nlp) then Some((next, NextNlp(env, head))) else None
  {
    assert IsSpecial('[');
    if ParseSet(env, p, i + 1).Some? {
      BracketMeaning.StepIsMembership(env, p, i + 1, s[n]);
    } else {
      BracketMeaning.OpenStep(env, p, i + 1, s[n]);
      if env.Fold(s[n]) == '[' {
        assert IsSpecial(env.Fold(s[n])) && s[n] == '[';
      }
    }
  }

  // A chunk call that found the chunk g at `place`, or not, answers v.
  ghost predicate Answers(env: Env, p: CString, g: Glob, s: CString, e: nat, place: Option<(nat, bool)>, v: Verdict)
    requires e <= |s| && (place.Some? ==> place.value.0 <= e)
    requires v.Ends? ==> v.pattern <= |p|
  {
    match place
    case None => v == NoMatch
    case Some((m, l)) =>
      if Rest(g).Nil? then v == if AtEnd(env, s, m, e) then Match else NoMatch
      else v.Ends? && v.str == m && v.noLeadingPeriod == l && Parse(env, p, v.pattern) == Some(Rest(g))
  }

  // One turn of a chunk call, at anything but a star
  lemma ChunkTurn(env: Env, p: CString, i: nat, s: CString, n: nat, e: nat, nlp: bool)
    requires env.Sane() && NoGroups(env, p, i) && i < |p| && n <= e <= |s| && p[i] != '*'
    ensures Fct(env, p, i, s, n, e, nlp, true)
            == match Step(env, p, i, s, n, e, nlp)
               case None => NoMatch
               case Some((next, nlp')) => Fct(env, p, next, s, n + 1, e, nlp', true)
  {
    assert IsSpecial('*') && IsSpecial('?') && IsSpecial('+') && IsSpecial('@') && IsSpecial('!');
    assert env.flags.extMatch && Group.OpensGroup(p, i) ==> IsIdle(env, p, i);
  }

  // A chunk call at a star has found an empty chunk.
  lemma ChunkEnds(env: Env, p: CString, i: nat, g: Glob, s: CString, n: nat, e: nat, nlp: bool)
    requires env.Sane() && NoGroups(env, p, i) && i < |p| && n <= e <= |s| && p[i] == '*'
    requires Parse(env, p, i) == Some(g)
    ensures Answers(env, p, g, s, e, Place(env, g, s, n, e, nlp), Fct(env, p, i, s, n, e, nlp, true))
  {
    assert IsSpecial('*') && (env.flags.extMatch && Group.OpensGroup(p, i) ==> IsIdle(env, p, i));
    assert LoopTurn(env, p, i, s, n, e, nlp, true) == Return(Ends(i, n, nlp));
  }

  // A chunk goes on behind its first element as it does from there.
  lemma AnswersBehind(env: Env, p: CString, g: Glob, s: CString, n: nat, e: nat, nlp: bool, v: Verdict)
    requires n < e <= |s| && g.Cons? && !g.head.Run? && FitsNlp(env, g.head, s, n, nlp)
    requires v.Ends? ==> v.pattern <= |p|
    requires Answers(env, p, g.tail, s, e, Place(env, g.tail, s, n + 1, e, NextNlp(env, g.head)), v)
    ensures Answers(env, p, g, s, e, Place(env, g, s, n, e, nlp), v)
  {
  }

  lemma {:induction false} ChunkCall(env: Env, p: CString, i: nat, g: Glob, s: CString, n: nat, e: nat, nlp: bool)
    requires env.Sane() && NoGroups(env, p, i) && i <= |p| && n <= e <= |s|
    requires Parse(env, p, i) == Some(g)
    ensures Answers(env, p, g, s, e, Place(env, g, s, n, e, nlp), Fct(env, p, i, s, n, e, nlp, true))
    decreases |p| - i
  {
    if i < |p| {
      if p[i] == '*' {
        ChunkEnds(env, p, i, g, s, n, e, nlp);
      } else {
        ChunkGoesOn(env, p, i, g, s, n, e, nlp);
        var (head, next) := ParseElement(env, p, i).value;
        if n < e && FitsNlp(env, head, s, n, nlp) {
          ChunkCall(env, p, next, g.tail, s, n + 1, e, NextNlp(env, head));
          AnswersBehind(env, p, g, s, n, e, nlp, Fct(env, p, next, s, n + 1, e, NextNlp(env, head), true));
        }
      }
    }
  }

  lemma ChunkGoesOn(env: Env, p: CString, i: nat, g: Glob, s: CString, n: nat, e: nat, nlp: bool)
    requires env.Sane() && NoGroups(env, p, i) && i < |p| && n <= e <= |s| && p[i] != '*'
    requires Parse(env, p, i) == Some(g)
    ensures g.Cons? && !g.head.Run? && ParseElement(env, p, i).Some? && ParseElement(env, p, i).value.0 == g.head
    ensures var next := ParseElement(env, p, i).value.1;
            && Parse(env, p, next) == Some(g.tail)
            && Fct(env, p, i, s, n, e, nlp, true)
               == if n < e && FitsNlp(env, g.head, s, n, nlp)
                  then Fct(env, p, next, s, n + 1, e, NextNlp(env, g.head), true) else NoMatch
  {
    ChunkTurn(env, p, i, s, n, e, nlp);
    StepIsFits(env, p, i, s, n, e, nlp);
  }

  // A chunk call behind a `*` runs under the inner flags.
  lemma InnerChunkCall(env: Env, p: CString, i: nat, g: Glob, s: CString, n: nat, e: nat, nlp: bool)
    requires env.Sane() && NoGroups(env, p, i) && i <= |p| && n <= e <= |s|
    requires Parse(env, p, i) == Some(g)
    ensures Answers(env, p, g, s, e, Place(env, g, s, n, e, nlp), Fct(env.Inner(), p, i, s, n, e, nlp, true))
  {
    InnerParsesAlike(env, p, i);
    InnerPlacesAlike(env, g, s, n, e, nlp);
    assert forall c: char :: env.Inner().Fold(c) == env.Fold(c);
    ChunkCall(env.Inner(), p, i, g, s, n, e, nlp);
    var r := Fct(env.Inner(), p, i, s, n, e, nlp, true);
    if r.Ends? {
      InnerParsesAlike(env, p, r.pattern);
    }
  }

  // ----- the search for a placement -----

  // What the search loop learns at k, when it started at n with nlp
  ghost function Attempt(env: Env, p: CString, i: nat, s: CString, n: nat, k: nat, e: nat, nlp: bool): Verdict
    requires i < |p| && n <= k < e <= |s|
  {
    if SearchesBlindly(env, p, i) || env.Fold(s[k]) == FirstLiteral(env, p, i)
    then Fct(env, p, i, s, k, e, k == n && nlp, true) else NoMatch
  }

  // The search returns the answer at the first position that does not say no.
  lemma {:induction false} SearchFindsFirst(env: Env, p: CString, i: nat, s: CString, n: nat, endp: nat,
        e: nat, nlp: bool)
    returns (k: nat)
    requires i < |p| && n <= endp <= e <= |s|
    ensures n <= k <= endp
    ensures forall j :: n <= j < k ==> Attempt(env, p, i, s, n, j, e, nlp) == NoMatch
    ensures k == endp ==> Search(env, p, i, s, n, endp, e, nlp) == NoMatch
    ensures k < endp ==> Search(env, p, i, s, n, endp, e, nlp) == Attempt(env, p, i, s, n, k, e, nlp) != NoMatch
    decreases e - n
  {
    if n == endp || Attempt(env, p, i, s, n, n, e, nlp) != NoMatch {
      k := n;
    } else {
      k := SearchFindsFirst(env, p, i, s, n + 1, endp, e, false);
      forall j | n <= j < k ensures Attempt(env, p, i, s, n, j, e, nlp) == NoMatch {
        if j > n {
          assert Attempt(env, p, i, s, n + 1, j, e, false) == NoMatch;
        }
      }
    }
  }

  // The quick test on the first character rejects only what the chunk call would reject.
  lemma AttemptIsPlace(env: Env, p: CString, i: nat, g: Glob, s: CString, n: nat, k: nat, e: nat, nlp: bool)
    requires env.Sane() && NoGroups(env, p, i) && i < |p| && n <= k < e <= |s|
    requires Parse(env, p, i) == Some(g) && p[i] != '*' && p[i] != '?'
    ensures Answers(env, p, g, s, e, Place(env, g, s, k, e, k == n && nlp), Attempt(env.Inner(), p, i, s, n, k, e, nlp))
  {
    InnerChunkCall(env, p, i, g, s, k, e, k == n && nlp);
  }

  // ----- the wildcards behind a star -----

  lemma {:induction false} WildcardsAreSkipped(env: Env, p: CString, i: nat, g: Glob, s: CString, n: nat,
        e: nat, nlp: bool)
    requires NoGroups(env, p, i) && i <= |p| && n <= e <= |s|
    requires Parse(env, p, i) == Some(g)
    ensures match SkipWildcards(env, p, i, s, n, e)
            case None => !CodedRun(env, g, s, n, e, nlp)
            case Some((i', n')) =>
              && Parse(env, p, i').Some? && !Wildcard(Parse(env, p, i').value)
              && (CodedRun(env, g, s, n, e, nlp) <==> CodedRun(env, Parse(env, p, i').value, s, n', e, nlp))
              && At(p, i') != '*' && At(p, i') != '?'
    decreases |p| - i
  {
    if i < |p| {
      assert env.flags.extMatch && Group.OpensGroup(p, i) ==> IsIdle(env, p, i);
      if p[i] == '*' {
        WildcardsAreSkipped(env, p, i + 1, g.tail, s, n, e, nlp);
      } else if p[i] == '?' && n < e && Wild(env, s, n) {
        WildcardsAreSkipped(env, p, i + 1, g.tail, s, n + 1, e, nlp);
      }
    }
  }

  // ----- the star -----

  ghost predicate Goes(env: Env, p: CString, v: Verdict, s: CString, e: nat)
    requires e <= |s|
    requires v.Ends? ==> v.pattern <= |p| && v.str <= e
  {
    || v == Match
    || (v.Ends? && Parse(env, p, v.pattern).Some?
        && Coded(env, Parse(env, p, v.pattern).value, s, v.str, e, v.noLeadingPeriod))
  }

  ghost predicate SearchRange(env: Env, s: CString, n: nat, endp: nat, e: nat) {
    n <= endp <= e <= |s| && endp == if env.flags.fileName then FindSlash(s, n, e) else e
  }

  lemma PlacedInRange(env: Env, g: Glob, s: CString, n: nat, endp: nat, e: nat, k: nat, nlp: bool)
    requires env.Sane() && SearchRange(env, s, n, endp, e) && n <= k <= e && AllWild(env, s, n, k)
    requires g.Cons? && !g.head.Run? && Coded(env, g, s, k, e, nlp)
    requires env.flags.fileName ==> g.head != Literal('/', false) && g.head != Literal('/', true)
    ensures k < endp
  {
  }

  ghost predicate CodedAt(env: Env, g: Glob, s: CString, n: nat, k: nat, e: nat, nlp: bool)
    requires n <= k <= e <= |s|
  {
    Coded(env, g, s, k, e, k == n && nlp)
  }

  lemma PlacementIsAnswered(env: Env, p: CString, g: Glob, s: CString, k: nat, e: nat, l: bool, v: Verdict)
    requires k <= e <= |s| && (v.Ends? ==> v.pattern <= |p|)
    requires Answers(env, p, g, s, e, Place(env, g, s, k, e, l), v) && Coded(env, g, s, k, e, l)
    ensures v != NoMatch
  {
  }

  lemma AnswerIsPlacement(env: Env, p: CString, g: Glob, s: CString, k: nat, e: nat, l: bool, v: Verdict)
    requires k <= e <= |s| && (v.Ends? ==> v.pattern <= |p| && v.str <= e)
    requires Answers(env, p, g, s, e, Place(env, g, s, k, e, l), v) && v != NoMatch
    ensures v.Ends? ==> Parse(env, p, v.pattern).Some?
    ensures Goes(env, p, v, s, e) <==> Rest(g).Nil? || Coded(env, g, s, k, e, l)
    ensures Rest(g).Nil? ==> Coded(env, g, s, k, e, l)
    ensures Place(env, g, s, k, e, l).Some?
  {
  }

  // The search answers at k, no later than the first place from which the pattern matches.
  lemma SearchStops(env: Env, p: CString, i: nat, g: Glob, s: CString, n: nat, endp: nat, e: nat, nlp: bool)
    returns (k: nat)
    requires env.Sane() && NoGroups(env, p, i) && i < |p| && n <= endp <= e <= |s|
    requires Parse(env, p, i) == Some(g) && p[i] != '*' && p[i] != '?'
    ensures n <= k <= endp
    ensures forall j :: n <= j < k ==> !CodedAt(env, g, s, n, j, e, nlp)
    ensures var v := Search(env.Inner(), p, i, s, n, endp, e, nlp);
            if k == endp then v == NoMatch
            else v != NoMatch && Answers(env, p, g, s, e, Place(env, g, s, k, e, k == n && nlp), v)
  {
    k := SearchFindsFirst(env.Inner(), p, i, s, n, endp, e, nlp);
    forall j | n <= j < k ensures !CodedAt(env, g, s, n, j, e, nlp) {
      AttemptIsPlace(env, p, i, g, s, n, j, e, nlp);
      if CodedAt(env, g, s, n, j, e, nlp) {
        PlacementIsAnswered(env, p, g, s, j, e, j == n && nlp, Attempt(env.Inner(), p, i, s, n, j, e, nlp));
      }
    }
    if k < endp {
      AttemptIsPlace(env, p, i, g, s, n, k, e, nlp);
    }
  }

  // What the search answers is a placement.
  lemma SearchIsSound(env: Env, p: CString, i: nat, g: Glob, s: CString, n: nat, endp: nat, e: nat, nlp: bool)
    requires env.Sane() && NoGroups(env, p, i) && i < |p| && SearchRange(env, s, n, endp, e)
    requires Parse(env, p, i) == Some(g) && p[i] != '*' && p[i] != '?'
    ensures var v := Search(env.Inner(), p, i, s, n, endp, e, nlp);
            && (v.Ends? ==> Parse(env, p, v.pattern).Some?)
            && (Goes(env, p, v, s, e) ==> CodedRun(env, g, s, n, e, nlp))
  {
    var v := Search(env.Inner(), p, i, s, n, endp, e, nlp);
    var k := SearchStops(env, p, i, g, s, n, endp, e, nlp);
    if k < endp {
      AnswerIsPlacement(env, p, g, s, k, e, k == n && nlp, v);
      if Goes(env, p, v, s, e) {
        RunFromPlacement(env, g, s, n, k, endp, e, nlp);
      }
    }
  }

  lemma RunFromPlacement(env: Env, g: Glob, s: CString, n: nat, k: nat, endp: nat, e: nat, nlp: bool)
    requires env.Sane() && SearchRange(env, s, n, endp, e) && n <= k < endp && !Wildcard(g)
    requires Coded(env, g, s, k, e, k == n && nlp)
    ensures CodedRun(env, g, s, n, e, nlp)
  {
    assert AllWild(env, s, n, k) && IsSpecial('/');
  }

  // Committing to the first placement of the chunk loses no match: from a placement at k, the rest can
  // also be placed behind the first one, at k0.
  lemma FirstPlacementSuffices(env: Env, g: Glob, s: CString, k0: nat, k: nat, e: nat, l0: bool, l: bool)
    requires env.Sane() && k0 < k <= e <= |s| && AllWild(env, s, k0, k)
    requires g.Cons? && !g.head.Run? && Rest(g).Cons?
    requires Place(env, g, s, k0, e, l0).Some? && Coded(env, g, s, k, e, l)
    ensures Coded(env, g, s, k0, e, l0)
  {
    CodedSplitsAtTheChunk(env, g, s, k, e, l);
    CodedSplitsAtTheChunk(env, g, s, k0, e, l0);
    LeftmostLosesNothing(env, g, s, k0, k, e, l0, l);
    RestStartsWithRun(g);
    var (m0, l0') := Place(env, g, s, k0, e, l0).value;
    var (m, l') := Place(env, g, s, k, e, l).value;
    RunStartsEarlier(env, Rest(g).tail, s, m0, m, e, l0', l');
  }

  // What is answered at the first placement k0 goes on, if the pattern matches from k.
  lemma FirstAnswerGoes(env: Env, p: CString, g: Glob, s: CString, n: nat, k0: nat, k: nat, e: nat, nlp: bool,
        v: Verdict)
    requires env.Sane() && n <= k0 <= k <= e <= |s| && AllWild(env, s, n, k) && g.Cons? && !g.head.Run?
    requires (v.Ends? ==> v.pattern <= |p| && v.str <= e) && v != NoMatch
    requires Answers(env, p, g, s, e, Place(env, g, s, k0, e, k0 == n && nlp), v)
    requires CodedAt(env, g, s, n, k, e, nlp)
    ensures Goes(env, p, v, s, e)
  {
    AnswerIsPlacement(env, p, g, s, k0, e, k0 == n && nlp, v);
    if k0 < k && Rest(g).Cons? {
      FirstPlacementSuffices(env, g, s, k0, k, e, k0 == n && nlp, k == n && nlp);
    }
  }

  lemma SearchIsComplete(env: Env, p: CString, i: nat, g: Glob, s: CString, n: nat, endp: nat, e: nat, nlp: bool)
    requires env.Sane() && NoGroups(env, p, i) && i < |p| && SearchRange(env, s, n, endp, e)
    requires Parse(env, p, i) == Some(g) && p[i] != '*' && p[i] != '?'
    requires !(env.flags.fileName && p[i] == '/')
    requires CodedRun(env, g, s, n, e, nlp)
    ensures Goes(env, p, Search(env.Inner(), p, i, s, n, endp, e, nlp), s, e)
  {
    var k :| n <= k <= e && AllWild(env, s, n, k) && Coded(env, g, s, k, e, k == n && nlp);
    assert IsSpecial('/') && env.Fold('/') == '/';
    PlacedInRange(env, g, s, n, endp, e, k, k == n && nlp);
    assert CodedAt(env, g, s, n, k, e, nlp);
    var k0 := SearchStops(env, p, i, g, s, n, endp, e, nlp);
    FirstAnswerGoes(env, p, g, s, n, k0, k, e, nlp, Search(env.Inner(), p, i, s, n, endp, e, nlp));
  }

  lemma {:induction false} RestStartsWithRun(g: Glob)
    ensures Rest(g).Cons? ==> Rest(g).head.Run?
  {
    if g.Cons? && !g.head.Run? {
      RestStartsWithRun(g.tail);
    }
  }

  // `*` directly before a slash: the slash is the next one (lines 188-196).
  lemma SlashIsNext(env: Env, g: Glob, s: CString, n: nat, e: nat, nlp: bool)
    requires env.Sane() && env.flags.fileName && n <= e <= |s|
    requires g.Cons? && g.head == Literal('/', false)
    ensures var m := FindSlash(s, n, e);
            CodedRun(env, g, s, n, e, nlp) <==> m < e && Coded(env, g.tail, s, m + 1, e, env.flags.period)
  {
    var m := FindSlash(s, n, e);
    assert IsSpecial('/') && env.Fold('/') == '/';
    if CodedRun(env, g, s, n, e, nlp) {
      var k :| n <= k <= e && AllWild(env, s, n, k) && Coded(env, g, s, k, e, k == n && nlp);
      assert s[k] == '/';
    }
    if m < e && Coded(env, g.tail, s, m + 1, e, env.flags.period) {
      assert AllWild(env, s, n, m) && Coded(env, g, s, m, e, m == n && nlp);
    }
  }

  // What a turn of the loop at a `*` amounts to
  ghost predicate TurnGoes(env: Env, p: CString, turn: Turn, s: CString, e: nat)
    requires e <= |s|
    requires turn.Continue? ==> turn.pattern <= |p| && turn.str <= e
  {
    match turn
    case Return(v) => v == Match
    case Continue(i, n, nlp) => Parse(env, p, i).Some? && Coded(env, Parse(env, p, i).value, s, n, e, nlp)
  }

  // FCT answers 0 exactly when the chunks can be placed.
  lemma {:induction false} FctIsCoded(env: Env, p: CString, i: nat, g: Glob, s: CString, n: nat, e: nat, nlp: bool)
    requires env.Sane() && NoGroups(env, p, i) && i <= |p| && n <= e <= |s|
    requires Parse(env, p, i) == Some(g)
    ensures Fct(env, p, i, s, n, e, nlp, false) == Match <==> Coded(env, g, s, n, e, nlp)
    decreases |p| - i, 2
  {
    if i < |p| {
      TurnIsCoded(env, p, i, g, s, n, e, nlp);
      var turn := LoopTurn(env, p, i, s, n, e, nlp, false);
      if turn.Continue? {
        FctIsCoded(env, p, turn.pattern, Parse(env, p, turn.pattern).value, s, turn.str, e, turn.noLeadingPeriod);
      }
    }
  }

  lemma {:induction false} TurnIsCoded(env: Env, p: CString, i: nat, g: Glob, s: CString, n: nat, e: nat, nlp: bool)
    requires env.Sane() && NoGroups(env, p, i) && i < |p| && n <= e <= |s|
    requires Parse(env, p, i) == Some(g)
    ensures var turn := LoopTurn(env, p, i, s, n, e, nlp, false);
            && (turn.Continue? ==> Parse(env, p, turn.pattern).Some?)
            && (TurnGoes(env, p, turn, s, e) <==> Coded(env, g, s, n, e, nlp))
    decreases |p| - i, 1
  {
    assert IsSpecial('*') && IsSpecial('?') && IsSpecial('+') && IsSpecial('@') && IsSpecial('!');
    assert env.flags.extMatch && Group.OpensGroup(p, i) ==> IsIdle(env, p, i);
    if p[i] == '*' {
      StarIsCoded(env, p, i + 1, g.tail, s, n, e, nlp);
    } else {
      StepIsFits(env, p, i, s, n, e, nlp);
    }
  }

  lemma {:induction false} BehindStarIsCoded(env: Env, p: CString, i: nat, g: Glob, s: CString, n: nat, e: nat,
        nlp: bool)
    requires env.Sane() && NoGroups(env, p, i) && i <= |p| && n <= e <= |s|
    requires Parse(env, p, i) == Some(g) && At(p, i) != '*' && At(p, i) != '?'
    ensures var turn := BehindStar(env, p, i, s, n, e, nlp);
            && (turn.Continue? ==> Parse(env, p, turn.pattern).Some?)
            && (TurnGoes(env, p, turn, s, e) <==> CodedRun(env, g, s, n, e, nlp))
    decreases |p| - i, 3
  {
    if i == |p| {
    } else if p[i] == '/' && env.flags.fileName {
      SlashIsCoded(env, p, i, g, s, n, e, nlp);
    } else {
      SearchIsCoded(env, p, i, g, s, n, e, nlp);
    }
  }

  lemma {:induction false} SlashIsCoded(env: Env, p: CString, i: nat, g: Glob, s: CString, n: nat, e: nat, nlp: bool)
    requires env.Sane() && NoGroups(env, p, i) && i < |p| && n <= e <= |s|
    requires Parse(env, p, i) == Some(g) && p[i] == '/' && env.flags.fileName
    ensures var turn := BehindStar(env, p, i, s, n, e, nlp);
            turn.Return? && (turn.verdict == Match <==> CodedRun(env, g, s, n, e, nlp))
    decreases |p| - i, 2
  {
    assert IsSpecial('/') && env.Fold('/') == '/';
    SlashIsNext(env, g, s, n, e, nlp);
    var m := FindSlash(s, n, e);
    if m < e {
      FctIsCoded(env, p, i + 1, g.tail, s, m + 1, e, env.flags.period);
    }
  }

  lemma SearchIsCoded(env: Env, p: CString, i: nat, g: Glob, s: CString, n: nat, e: nat, nlp: bool)
    requires env.Sane() && NoGroups(env, p, i) && i < |p| && n <= e <= |s|
    requires Parse(env, p, i) == Some(g) && p[i] != '*' && p[i] != '?' && !(p[i] == '/' && env.flags.fileName)
    ensures var turn := BehindStar(env, p, i, s, n, e, nlp);
            && (turn.Continue? ==> Parse(env, p, turn.pattern).Some?)
            && (TurnGoes(env, p, turn, s, e) <==> CodedRun(env, g, s, n, e, nlp))
  {
    var endp := if env.flags.fileName then FindSlash(s, n, e) else e;
    SearchIsSound(env, p, i, g, s, n, endp, e, nlp);
    if CodedRun(env, g, s, n, e, nlp) {
      SearchIsComplete(env, p, i, g, s, n, endp, e, nlp);
    }
  }

  lemma {:induction false} StarIsCoded(env: Env, p: CString, i: nat, g: Glob, s: CString, n: nat, e: nat, nlp: bool)
    requires env.Sane() && NoGroups(env, p, i) && i <= |p| && n <= e <= |s|
    requires Parse(env, p, i) == Some(g)
    ensures var turn := Star(env, p, i, s, n, e, nlp);
            && (turn.Continue? ==> Parse(env, p, turn.pattern).Some?)
            && (TurnGoes(env, p, turn, s, e) <==> !(n < e && s[n] == '.' && nlp) && CodedRun(env, g, s, n, e, nlp))
    decreases |p| - i, 4
  {
    WildcardsAreSkipped(env, p, i, g, s, n, e, nlp);
    var r := SkipWildcards(env, p, i, s, n, e);
    if r.Some? {
      BehindStarIsCoded(env, p, r.value.0, Parse(env, p, r.value.0).value, s, r.value.1, e, nlp);
    }
  }

  // ----- the flags of inner calls -----

  lemma {:induction false} InnerIsCodedAlike(env: Env, g: Glob, s: CString, n: nat, e: nat, nlp: bool, behindStar: bool)
    requires n <= e <= |s|
    ensures if behindStar then CodedRun(env.Inner(), g, s, n, e, nlp) == CodedRun(env, g, s, n, e, nlp)
            else Coded(env.Inner(), g, s, n, e, nlp) == Coded(env, g, s, n, e, nlp)
    decreases g, behindStar
  {
    if g.Cons? {
      if behindStar && !Wildcard(g) {
        if CodedRun(env, g, s, n, e, nlp) {
          var k :| n <= k <= e && AllWild(env, s, n, k) && Coded(env, g, s, k, e, k == n && nlp);
          InnerIsCodedAlike(env, g, s, k, e, k == n && nlp, false);
          assert AllWild(env.Inner(), s, n, k);
        } else if CodedRun(env.Inner(), g, s, n, e, nlp) {
          var k :| n <= k <= e && AllWild(env.Inner(), s, n, k) && Coded(env.Inner(), g, s, k, e, k == n && nlp);
          InnerIsCodedAlike(env, g, s, k, e, k == n && nlp, false);
          assert AllWild(env, s, n, k);
        }
      } else if g.head.Run? {
        InnerIsCodedAlike(env, g.tail, s, n, e, nlp, true);
      } else if n < e {
        InnerFitsAlike(env, g.head, s, n, nlp);
        InnerIsCodedAlike(env, g.tail, s, n + 1, e, if behindStar then nlp else NextNlp(env, g.head), behindStar);
      }
    }
  }

  lemma InnerFitsAlike(env: Env, element: Element, s: CString, n: nat, nlp: bool)
    requires n < |s|
    ensures FitsNlp(env.Inner(), element, s, n, nlp) == FitsNlp(env, element, s, n, nlp)
    ensures NextNlp(env.Inner(), element) == NextNlp(env, element)
  {
    if element.Set? {
      assert forall item :: ItemHolds(env.Inner(), item, s[n]) == ItemHolds(env, item, s[n]);
    }
  }

  lemma InnerFctIsCoded(env: Env, p: CString, i: nat, g: Glob, s: CString, n: nat, e: nat, nlp: bool)
    requires env.Sane() && NoGroups(env, p, i) && i <= |p| && n <= e <= |s|
    requires Parse(env, p, i) == Some(g)
    ensures Fct(env.Inner(), p, i, s, n, e, nlp, false) == Match <==> Coded(env, g, s, n, e, nlp)
  {
    InnerParsesAlike(env, p, i);
    assert forall c: char :: env.Inner().Fold(c) == env.Fold(c);
    FctIsCoded(env.Inner(), p, i, g, s, n, e, nlp);
    InnerIsCodedAlike(env, g, s, n, e, nlp, false);
  }
}
