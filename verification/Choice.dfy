/**
  The groups `@(...)`, `?(...)` and `!(...)` (lib/fnmatch_loop.c:1123-1173) in terms of the standard's relation. EXT
  reads each alternative and what is behind the group as one pattern for the first two, and as two for the third.
*/
module Choice {
  import opened Wrappers
  import opened Text
  import opened Glob
  import opened Fnmatch
  import opened Closure
  import Agreement
  import Commitment
  import Group
  import Meaning
  import Posix
  import Reading

  // ----- one pattern behind another -----

  function Concat(g: Glob, rest: Glob): Glob {
    match g
    case Nil => rest
    case Cons(head, tail) => Cons(head, Concat(tail, rest))
  }

  // FNM_LEADING_DIR lets only the last part of a pattern leave characters behind.
  function Whole(env: Env): Env {
    env.(flags := env.flags.(leadingDir := false))
  }

  lemma WholeFitsAlike(env: Env, element: Element, s: CString, n: nat, e: nat, e': nat)
    requires !env.flags.period && n < e <= |s| && n < e' <= |s|
    ensures Fits(Whole(env), element, s, n, e') == Fits(env, element, s, n, e)
  {
    if element.Set? {
      assert forall item :: ItemHolds(Whole(env), item, s[n]) == ItemHolds(env, item, s[n]);
    }
  }

  // The first part takes s[n..k], and the second what is behind it.
  ghost predicate SplitsAt(env: Env, g: Glob, rest: Glob, s: CString, n: nat, k: nat, e: nat)
    requires n <= k <= e <= |s|
  {
    Matches(Whole(env), g, s, n, k) && Matches(env, rest, s, k, e)
  }

  lemma {:induction false} PartsMatch(env: Env, g: Glob, rest: Glob, s: CString, n: nat, k: nat, e: nat)
    requires !env.flags.period && n <= k <= e <= |s| && SplitsAt(env, g, rest, s, n, k, e)
    ensures Matches(env, Concat(g, rest), s, n, e)
    decreases g
  {
    if g.Cons? {
      if g.head.Run? {
        var m :| n <= m <= k && AllWild(Whole(env), s, n, m) && Matches(Whole(env), g.tail, s, m, k);
        PartsMatch(env, g.tail, rest, s, m, k, e);
        assert AllWild(env, s, n, m);
      } else {
        WholeFitsAlike(env, g.head, s, n, e, k);
        PartsMatch(env, g.tail, rest, s, n + 1, k, e);
      }
    }
  }

  lemma {:induction false} MatchSplits(env: Env, g: Glob, rest: Glob, s: CString, n: nat, e: nat) returns (k: nat)
    requires !env.flags.period && n <= e <= |s| && Matches(env, Concat(g, rest), s, n, e)
    ensures n <= k <= e && SplitsAt(env, g, rest, s, n, k, e)
    decreases g
  {
    if g.Nil? {
      k := n;
    } else if g.head.Run? {
      var m :| n <= m <= e && AllWild(env, s, n, m) && Matches(env, Concat(g.tail, rest), s, m, e);
      k := MatchSplits(env, g.tail, rest, s, m, e);
      assert AllWild(Whole(env), s, n, m);
    } else {
      k := MatchSplits(env, g.tail, rest, s, n + 1, e);
      WholeFitsAlike(env, g.head, s, n, e, k);
    }
  }

  lemma ConcatSplits(env: Env, g: Glob, rest: Glob, s: CString, n: nat, e: nat)
    requires !env.flags.period && n <= e <= |s|
    ensures Matches(env, Concat(g, rest), s, n, e) <==> exists k :: n <= k <= e && SplitsAt(env, g, rest, s, n, k, e)
  {
    if Matches(env, Concat(g, rest), s, n, e) {
      var k := MatchSplits(env, g, rest, s, n, e);
    } else if k :| n <= k <= e && SplitsAt(env, g, rest, s, n, k, e) {
      PartsMatch(env, g, rest, s, n, k, e);
    }
  }

  // ----- alternatives with the rest behind them -----

  function Joined(split: Group.Split, p: CString, x: nat): CString
    requires x < |split.alts| && split.rest <= |p|
  {
    split.alts[x] + p[split.rest..]
  }

  // Each alternative with the rest behind it is plain, and read as one behind the other.
  ghost predicate IsJoinedPlainly(env: Env, split: Group.Split, p: CString) {
    && split.rest <= |p| && Posix.Read(env, p, split.rest).Some?
    && forall x :: 0 <= x < |split.alts| ==>
         && IsPlain(env, Joined(split, p, x), 0) && Posix.Read(env, split.alts[x], 0).Some?
         && Posix.Read(env, Joined(split, p, x), 0)
            == Some(Concat(Posix.Read(env, split.alts[x], 0).value, Posix.Read(env, p, split.rest).value))
  }

  // Alternative x and the rest, one behind the other
  ghost function Chosen(env: Env, split: Group.Split, p: CString, x: nat): Glob
    requires IsJoinedPlainly(env, split, p) && x < |split.alts|
  {
    Concat(Posix.Read(env, split.alts[x], 0).value, Posix.Read(env, p, split.rest).value)
  }

  ghost predicate ChoiceMeans(env: Env, split: Group.Split, p: CString, x: nat, s: CString, n: nat, e: nat)
    requires IsJoinedPlainly(env, split, p) && x < |split.alts| && n <= e <= |s|
  {
    && Matches(env, Chosen(env, split, p, x), s, n, e)
    && !(env.flags.fileName && Meaning.HasStarQuotedSlash(Chosen(env, split, p, x)))
  }

  lemma ChoiceIsMeant(env: Env, p: CString, i: nat, split: Group.Split, s: CString, n: nat, e: nat)
    requires env.Sane() && 0 < i < |p| && n <= e <= |s| && Group.Covers(p, i + 1, split)
    requires IsJoinedPlainly(env, split, p)
    ensures Fnmatch.Choice(env, p, i, split, s, n, e, Leading(env, s, n))
            <==> exists x :: 0 <= x < |split.alts| && ChoiceMeans(env, split, p, x, s, n, e)
  {
    forall x | 0 <= x < |split.alts|
      ensures Fct(env.Inner(), split.alts[x] + p[split.rest..], 0, s, n, e, Leading(env, s, n), false) == Match
              <==> ChoiceMeans(env, split, p, x, s, n, e)
    {
      InnerFctIsMeans(env, Joined(split, p, x), 0, s, n, e);
    }
  }

  lemma ExtChooses(env: Env, p: CString, i: nat, split: Group.Split, s: CString, n: nat, e: nat, nlp: bool)
    requires 0 < i < |p| && n <= e <= |s| && p[i - 1] in {'@', '?'}
    requires Group.SplitGroup(env.locale, p, i) == Some(split) && Group.Covers(p, i + 1, split)
    ensures Ext(env, p[i - 1], p, i, s, n, e, nlp)
            == Some(Fnmatch.Choice(env, p, i, split, s, n, e, nlp)
                    || (p[i - 1] == '?' && Fct(env, p, split.rest, s, n, e, nlp, false) == Match))
  {
  }

  // `@(...)`: one of the alternatives with the rest behind it, and `?(...)`: that or the rest alone.
  lemma ChoiceMeaning(env: Env, p: CString, i: nat, s: CString, n: nat, e: nat)
    requires 0 < i < |p| && n <= e <= |s| && p[i] == '(' && p[i - 1] in {'@', '?'} && env.flags.extMatch && env.Sane()
    requires Group.SplitGroup(env.locale, p, i).Some?
    requires IsJoinedPlainly(env, Group.SplitGroup(env.locale, p, i).value, p)
    requires p[i - 1] == '?' ==> IsPlain(env, p, Group.SplitGroup(env.locale, p, i).value.rest)
    ensures var split := Group.SplitGroup(env.locale, p, i).value;
            Fct(env, p, i - 1, s, n, e, Leading(env, s, n), false) == Match
            <==> || (exists x :: 0 <= x < |split.alts| && ChoiceMeans(env, split, p, x, s, n, e))
                 || (p[i - 1] == '?' && Means(env, p, split.rest, s, n, e))
  {
    var split := Group.SplitGroup(env.locale, p, i).value;
    assert IsSpecial('@') && IsSpecial('?');
    TriesTheGroupAgain(env, p[i - 1], p, i, s, n, e, Leading(env, s, n));
    Group.SplitFromIsLossless(env.locale, p, i + 1, i + 1, 0);
    ExtChooses(env, p, i, split, s, n, e, Leading(env, s, n));
    ChoiceIsMeant(env, p, i, split, s, n, e);
    if p[i - 1] == '?' {
      FctIsMeans(env, p, split.rest, s, n, e);
    }
  }

  // Without FNM_PERIOD: an alternative for a part of the string, and the rest for what is behind it.
  lemma ChoiceSplits(env: Env, split: Group.Split, p: CString, x: nat, g: Glob, rest: Glob, s: CString, n: nat, e: nat)
    requires IsJoinedPlainly(env, split, p) && x < |split.alts| && n <= e <= |s| && !env.flags.period
    requires Posix.Read(env, split.alts[x], 0) == Some(g) && Posix.Read(env, p, split.rest) == Some(rest)
    ensures Matches(env, Chosen(env, split, p, x), s, n, e)
            <==> exists k :: n <= k <= e && SplitsAt(env, g, rest, s, n, k, e)
  {
    ConcatSplits(env, g, rest, s, n, e);
  }

  // ----- texts without brackets and backslashes -----

  predicate IsSimple(t: CString) {
    forall j :: 0 <= j < |t| ==> t[j] != '[' && t[j] != '\\'
  }

  function SimpleGlob(env: Env, t: CString): Glob {
    if t == "" then Nil
    else
      Cons(if t[0] == '*' then Run else if t[0] == '?' then AnyOne else Literal(env.Fold(t[0]), false),
           SimpleGlob(env, t[1..]))
  }

  lemma {:induction false} SimpleConcat(env: Env, t: CString, rest: CString)
    ensures SimpleGlob(env, t + rest) == Concat(SimpleGlob(env, t), SimpleGlob(env, rest))
    decreases t
  {
    if t == "" {
      assert t + rest == rest;
    } else {
      assert (t + rest)[1..] == t[1..] + rest;
      SimpleConcat(env, t[1..], rest);
    }
  }

  lemma {:induction false} SimpleIsRead(env: Env, p: CString, i: nat)
    requires i <= |p| && IsSimple(p[i..])
    ensures Reading.Parse(env, p, i) == Posix.Read(env, p, i) == Some(SimpleGlob(env, p[i..]))
    decreases |p| - i
  {
    if i < |p| {
      var t := p[i..];
      assert p[i] == t[0] && t[1..] == p[i + 1..];
      assert forall j :: 0 <= j < |t| - 1 ==> t[1..][j] == t[j + 1];
      SimpleIsRead(env, p, i + 1);
    }
  }

  lemma {:induction false} SimpleIsAlike(env: Env, t: CString)
    ensures Agreement.Alike(env, SimpleGlob(env, t), SimpleGlob(env, t))
  {
    if t != "" {
      SimpleIsAlike(env, t[1..]);
    }
  }

  // Without FNM_PERIOD, such alternatives and a rest meet the condition if they form no group together.
  lemma SimpleIsJoinedPlainly(env: Env, split: Group.Split, p: CString)
    requires !env.flags.period && split.rest <= |p| && IsSimple(p[split.rest..])
    requires forall x :: 0 <= x < |split.alts| ==>
               IsSimple(split.alts[x]) && Commitment.NoGroups(env, Joined(split, p, x), 0)
    ensures IsJoinedPlainly(env, split, p)
  {
    SimpleIsRead(env, p, split.rest);
    forall x | 0 <= x < |split.alts|
      ensures IsPlain(env, Joined(split, p, x), 0) && Posix.Read(env, split.alts[x], 0).Some?
      ensures Posix.Read(env, Joined(split, p, x), 0)
              == Some(Concat(Posix.Read(env, split.alts[x], 0).value, Posix.Read(env, p, split.rest).value))
    {
      SimpleTextsJoin(env, split.alts[x], p[split.rest..], Joined(split, p, x));
    }
  }

  lemma SimpleTextsJoin(env: Env, alt: CString, rest: CString, q: CString)
    requires !env.flags.period && IsSimple(alt) && IsSimple(rest) && q == alt + rest && Commitment.NoGroups(env, q, 0)
    ensures IsPlain(env, q, 0) && Posix.Read(env, alt, 0) == Some(SimpleGlob(env, alt))
    ensures Posix.Read(env, q, 0) == Some(Concat(SimpleGlob(env, alt), SimpleGlob(env, rest)))
  {
    assert q[0..] == q && alt[0..] == alt && IsSimple(q);
    SimpleIsRead(env, q, 0);
    SimpleIsRead(env, alt, 0);
    SimpleConcat(env, alt, rest);
    SimpleIsAlike(env, q);
    Meaning.NothingBlocksWithoutPeriod(env, SimpleGlob(env, q), false);
  }

  // ----- negation -----

  // No alternative takes s[n..k], and the rest takes what is behind it.
  ghost predicate TakenByNone(env: Env, split: Group.Split, p: CString, s: CString, n: nat, k: nat, e: nat)
    requires IsPlainGroup(env, split, p)
  {
    !SomeAltMeans(env, split, p, s, n, k) && Means(env, p, split.rest, s, k, e)
  }

  // `!(...)`: a part of the string that no alternative takes, and the rest for what is behind it.
  lemma NegationMeaning(env: Env, p: CString, i: nat, s: CString, n: nat, e: nat)
    requires 0 < i < |p| && n <= e <= |s| && p[i] == '(' && p[i - 1] == '!' && env.flags.extMatch && env.Sane()
    requires Group.SplitGroup(env.locale, p, i).Some?
    requires IsPlainGroup(env, Group.SplitGroup(env.locale, p, i).value, p)
    ensures var split := Group.SplitGroup(env.locale, p, i).value;
            Fct(env, p, i - 1, s, n, e, Leading(env, s, n), false) == Match
            <==> exists k :: n <= k <= e && TakenByNone(env, split, p, s, n, k, e)
  {
    var split := Group.SplitGroup(env.locale, p, i).value;
    assert IsSpecial('!');
    TriesTheGroupAgain(env, '!', p, i, s, n, e, Leading(env, s, n));
    Group.SplitFromIsLossless(env.locale, p, i + 1, i + 1, 0);
    forall k | n <= k <= e
      ensures NegationAt(env, p, i, split, s, n, e, Leading(env, s, n), k)
              <==> TakenByNone(env, split, p, s, n, k, e)
    {
      NegationAtIsMeant(env, p, i, split, s, n, e, k);
    }
    var nlp := Leading(env, s, n);
    assert Ext(env, '!', p, i, s, n, e, nlp) == Some(Negation(env, p, i, split, s, n, e, nlp));
    assert Negation(env, p, i, split, s, n, e, nlp)
           <==> exists k :: n <= k <= e && TakenByNone(env, split, p, s, n, k, e);
  }

  lemma NegationAtIsMeant(env: Env, p: CString, i: nat, split: Group.Split, s: CString, n: nat, e: nat, k: nat)
    requires env.Sane() && 0 < i < |p| && n <= k <= e <= |s| && Group.Covers(p, i + 1, split)
    requires IsPlainGroup(env, split, p)
    ensures NegationAt(env, p, i, split, s, n, e, Leading(env, s, n), k)
            <==> TakenByNone(env, split, p, s, n, k, e)
  {
    NlpBehindIsLeading(env, s, n, k);
    InnerFctIsMeans(env, p, split.rest, s, k, e);
    forall x | 0 <= x < |split.alts|
      ensures Fct(env.Inner(), split.alts[x], 0, s, n, k, Leading(env, s, n), false) == Match
              <==> Means(env, split.alts[x], 0, s, n, k)
    {
      InnerFctIsMeans(env, split.alts[x], 0, s, n, k);
    }
  }
}
