/**
  A `*` before `@(`, `+(` or `!(` (lib/fnmatch_loop.c:175-187): the group is tried at every place before the end of the
  string, or before the next slash, but not there.
*/
module StarGroup {
  import opened Wrappers
  import opened Text
  import opened Glob
  import opened Placement
  import opened Fnmatch
  import Agreement
  import Commitment
  import Group
  import GroupEnd
  import Meaning
  import Posix
  import Reading

  predicate IsBlindOperator(c: char) {
    c == '@' || c == '+' || c == '!'
  }

  // The group at i takes the rest of the string from k on.
  predicate GroupTakes(env: Env, p: CString, i: nat, s: CString, n: nat, k: nat, e: nat, nlp: bool)
    requires i + 1 < |p| && n <= k <= e <= |s| && IsBlindOperator(p[i])
  {
    Ext(env.Inner(), p[i], p, i + 1, s, k, e, k == n && nlp) == Some(true)
  }

  lemma ChunkCallIsGroup(env: Env, p: CString, i: nat, s: CString, n: nat, e: nat, nlp: bool)
    requires i + 1 < |p| && n <= e <= |s| && IsBlindOperator(p[i]) && p[i + 1] == '(' && env.flags.extMatch
    requires env.Fold(p[i]) == p[i] && Group.SplitGroup(env.locale, p, i + 1).Some?
    ensures Fct(env, p, i, s, n, e, nlp, true)
            == if Ext(env, p[i], p, i + 1, s, n, e, nlp) == Some(true) then Match else NoMatch
  {
  }

  predicate SomePlaceTakes(env: Env, p: CString, i: nat, s: CString, n: nat, endp: nat, e: nat, nlp: bool)
    requires i + 1 < |p| && n <= endp <= e <= |s| && IsBlindOperator(p[i])
  {
    exists k | n <= k < endp :: GroupTakes(env, p, i, s, n, k, e, nlp)
  }

  lemma FirstPlaceOrLater(env: Env, p: CString, i: nat, s: CString, n: nat, endp: nat, e: nat, nlp: bool)
    requires i + 1 < |p| && n < endp <= e <= |s| && IsBlindOperator(p[i])
    ensures SomePlaceTakes(env, p, i, s, n, endp, e, nlp)
            <==> GroupTakes(env, p, i, s, n, n, e, nlp) || SomePlaceTakes(env, p, i, s, n + 1, endp, e, false)
  {
    forall k | n < k < endp
      ensures GroupTakes(env, p, i, s, n, k, e, nlp) == GroupTakes(env, p, i, s, n + 1, k, e, false)
    {
    }
    if k :| n <= k < endp && GroupTakes(env, p, i, s, n, k, e, nlp) && k > n {
      assert GroupTakes(env, p, i, s, n + 1, k, e, false);
    }
    var m := n + 1;
    if k :| m <= k < endp && GroupTakes(env, p, i, s, m, k, e, false) {
      assert GroupTakes(env, p, i, s, n, k, e, nlp);
    }
  }

  lemma {:induction false} SearchFindsGroup(env: Env, p: CString, i: nat, s: CString, n: nat, endp: nat, e: nat,
        nlp: bool)
    requires i + 1 < |p| && n <= endp <= e <= |s| && IsBlindOperator(p[i]) && p[i + 1] == '(' && env.flags.extMatch
    requires env.Fold(p[i]) == p[i] && Group.SplitGroup(env.locale, p, i + 1).Some?
    ensures Search(env.Inner(), p, i, s, n, endp, e, nlp)
            == if SomePlaceTakes(env, p, i, s, n, endp, e, nlp) then Match else NoMatch
    decreases endp - n
  {
    if n < endp {
      ChunkCallIsGroup(env.Inner(), p, i, s, n, e, nlp);
      SearchFindsGroup(env, p, i, s, n + 1, endp, e, false);
      FirstPlaceOrLater(env, p, i, s, n, endp, e, nlp);
    }
  }

  // The star finds a match if and only if the group takes the rest from some place before the end: a rest that only an
  // empty group at the end would leave is lost.
  lemma StarFindsGroup(env: Env, p: CString, i: nat, s: CString, n: nat, e: nat, nlp: bool)
    requires env.Sane() && env.flags.extMatch && i + 2 < |p| && n <= e <= |s|
    requires p[i] == '*' && IsBlindOperator(p[i + 1]) && p[i + 2] == '(' && Group.SplitGroup(env.locale, p, i + 2).Some?
    ensures var endp := if env.flags.fileName then FindSlash(s, n, e) else e;
            Fct(env, p, i, s, n, e, nlp, false) == Match
            <==> !(n < e && s[n] == '.' && nlp) && SomePlaceTakes(env, p, i + 1, s, n, endp, e, nlp)
  {
    assert IsSpecial('*') && IsSpecial('@') && IsSpecial('+') && IsSpecial('!');
    var endp := if env.flags.fileName then FindSlash(s, n, e) else e;
    assert SkipWildcards(env, p, i + 1, s, n, e) == Some((i + 1, n));
    SearchFindsGroup(env, p, i + 1, s, n, endp, e, nlp);
    var found := SomePlaceTakes(env, p, i + 1, s, n, endp, e, nlp);
    assert BehindStar(env, p, i + 1, s, n, e, nlp) == Return(if found then Match else NoMatch);
    assert LoopTurn(env, p, i, s, n, e, nlp, false) == Star(env, p, i + 1, s, n, e, nlp);
  }

  // ----- groups that a star makes superfluous -----

  // Up to rest there are only further stars and tame groups `?(...)` and `*(...)`, each up to where EXT ends it.
  predicate OnlySuperfluous(env: Env, p: CString, i: nat, rest: nat)
    requires i <= |p| && rest <= |p|
    decreases |p| - i
  {
    || i == rest
    || (i < rest && p[i] == '*' && At(p, i + 1) != '(' && OnlySuperfluous(env, p, i + 1, rest))
    || (i + 1 < rest && p[i] in {'?', '*'} && p[i + 1] == '(' && GroupEnd.IsTame(env.locale, p, i + 2)
        && match Group.SplitGroup(env.locale, p, i + 1)
           case None => false
           case Some(split) => split.rest <= rest && OnlySuperfluous(env, p, split.rest, rest))
  }

  lemma {:induction false} SuperfluousAreSkipped(env: Env, p: CString, i: nat, rest: nat, s: CString, n: nat, e: nat)
    requires env.flags.extMatch && i <= rest <= |p| && OnlySuperfluous(env, p, i, rest) && n <= e <= |s|
    ensures SkipWildcards(env, p, i, s, n, e) == SkipWildcards(env, p, rest, s, n, e)
    decreases |p| - i
  {
    if i < rest {
      if p[i] == '*' && At(p, i + 1) != '(' {
        SuperfluousAreSkipped(env, p, i + 1, rest, s, n, e);
      } else {
        GroupEnd.EndFindsClosing(env.locale, p, i + 1);
        SuperfluousAreSkipped(env, p, Group.SplitGroup(env.locale, p, i + 1).value.rest, rest, s, n, e);
      }
    }
  }

  // A star, such groups and a plain rest are together a star and the rest.
  lemma SuperfluousIsCoded(env: Env, p: CString, i: nat, rest: nat, g: Glob, s: CString, n: nat, e: nat, nlp: bool)
    requires env.Sane() && env.flags.extMatch && i + 1 <= rest <= |p| && p[i] == '*' && At(p, i + 1) != '('
    requires OnlySuperfluous(env, p, i + 1, rest) && n <= e <= |s|
    requires Commitment.NoGroups(env, p, rest) && Reading.Parse(env, p, rest) == Some(g)
    ensures Fct(env, p, i, s, n, e, nlp, false) == Match <==> Coded(env, Cons(Run, g), s, n, e, nlp)
  {
    assert IsSpecial('*');
    SuperfluousAreSkipped(env, p, i + 1, rest, s, n, e);
    var turn := Star(env, p, i + 1, s, n, e, nlp);
    assert turn == Star(env, p, rest, s, n, e, nlp);
    Commitment.StarIsCoded(env, p, rest, g, s, n, e, nlp);
    assert LoopTurn(env, p, i, s, n, e, nlp, false) == turn;
    if turn.Continue? {
      var behind := Reading.Parse(env, p, turn.pattern).value;
      Commitment.FctIsCoded(env, p, turn.pattern, behind, s, turn.str, e, turn.noLeadingPeriod);
    }
  }

  // In terms of the standard's relation
  lemma SuperfluousMeaning(env: Env, p: CString, i: nat, rest: nat, g: Glob, std: Glob, s: CString, n: nat, e: nat)
    requires env.Sane() && env.flags.extMatch && i + 1 <= rest <= |p| && p[i] == '*' && At(p, i + 1) != '('
    requires OnlySuperfluous(env, p, i + 1, rest) && n <= e <= |s|
    requires Commitment.NoGroups(env, p, rest) && Reading.Parse(env, p, rest) == Some(g)
    requires Posix.Read(env, p, rest) == Some(std) && Agreement.Alike(env, g, std)
    requires !(env.NoLeadingPeriod() && Meaning.HidesPeriod(env, std))
    requires !Meaning.BlocksDot(env, Cons(Run, std), Leading(env, s, n))
    ensures Fct(env, p, i, s, n, e, Leading(env, s, n), false) == Match
            <==> Matches(env, Cons(Run, std), s, n, e)
                 && !(env.flags.fileName && Meaning.HasStarQuotedSlash(Cons(Run, std)))
  {
    var nlp := Leading(env, s, n);
    SuperfluousIsCoded(env, p, i, rest, g, s, n, e, nlp);
    Meaning.CodedIsMatches(env, Cons(Run, g), s, n, e);
    Agreement.AlikeMatchesAlike(env, Cons(Run, g), Cons(Run, std), s, n, e);
    Meaning.AlikeIsAlike(env, Cons(Run, g), Cons(Run, std), nlp, false);
  }
}
