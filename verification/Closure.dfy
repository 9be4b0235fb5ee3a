/**
  The groups `+(...)` and `*(...)` (lib/fnmatch_loop.c:1082-1122): EXT finds a match exactly when the
  string splits into pieces, each taken by one of the alternatives, and a remainder for the rest of
  the pattern. EXT never recurses on an empty piece, and loses nothing by that.
*/
module Closure {
  import opened Wrappers
  import opened Text
  import opened Fnmatch
  import Agreement
  import Glob
  import Posix
  import Reading
  import Group
  import Commitment
  import Meaning

  ghost predicate TakesPiece(env: Env, alts: seq<CString>, s: CString, a: nat, b: nat, nlp: bool) {
    && a <= b <= |s|
    && exists x :: 0 <= x < |alts| && Fct(env.Inner(), alts[x], 0, s, a, b, nlp, false) == Match
  }

  ghost predicate TakesRest(env: Env, p: CString, rest: nat, s: CString, n: nat, e: nat, nlp: bool) {
    rest <= |p| && n <= e <= |s| && Fct(env.Inner(), p, rest, s, n, e, nlp, false) == Match
  }

  // cuts[0] is where the group starts; consecutive cuts bound the pieces and the last one starts the rest.
  ghost predicate IsSplit(env: Env, split: Group.Split, p: CString, s: CString, e: nat, nlp: bool, cuts: seq<nat>) {
    && |cuts| > 0 && e <= |s|
    && (forall j :: 0 <= j < |cuts| ==> cuts[0] <= cuts[j] <= e)
    && (forall j :: 0 <= j < |cuts| - 1 ==>
          TakesPiece(env, split.alts, s, cuts[j], cuts[j + 1], NlpBehind(env, s, cuts[0], cuts[j], nlp)))
    && TakesRest(env, p, split.rest, s, cuts[|cuts| - 1], e, NlpBehind(env, s, cuts[0], cuts[|cuts| - 1], nlp))
  }

  // The call at line 1108, one character back in the pattern, is the same group again, further right.
  lemma TriesTheGroupAgain(env: Env, op: char, p: CString, i: nat, s: CString, n: nat, e: nat, nlp: bool)
    requires 0 < i < |p| && n <= e <= |s| && p[i] == '(' && env.flags.extMatch
    requires env.Fold(p[i - 1]) == op && Group.IsOperator(op)
    requires Group.SplitGroup(env.locale, p, i).Some?
    ensures Fct(env, p, i - 1, s, n, e, nlp, false) == Match <==> Ext(env, op, p, i, s, n, e, nlp) == Some(true)
  {
  }

  // A split whose first piece is [n, b] and whose other cuts are those of a split starting at b
  lemma Prepend(env: Env, split: Group.Split, p: CString, s: CString, n: nat, e: nat, nlp: bool, cuts: seq<nat>)
    requires |cuts| > 0 && n <= cuts[0] <= e <= |s|
    requires TakesPiece(env, split.alts, s, n, cuts[0], nlp)
    requires IsSplit(env.Inner(), split, p, s, e, NlpBehind(env, s, n, cuts[0], nlp), cuts)
    ensures IsSplit(env, split, p, s, e, nlp, [n] + cuts)
  {
    assert env.Inner().Inner() == env.Inner();
    var all := [n] + cuts;
    var inner := NlpBehind(env, s, n, cuts[0], nlp);
    forall j | 0 <= j < |all| - 1
      ensures TakesPiece(env, split.alts, s, all[j], all[j + 1], NlpBehind(env, s, n, all[j], nlp))
    {
      if j > 0 {
        assert TakesPiece(env.Inner(), split.alts, s, cuts[j - 1], cuts[j],
          NlpBehind(env.Inner(), s, cuts[0], cuts[j - 1], inner));
      }
    }
  }

  lemma DropFirst(env: Env, split: Group.Split, p: CString, s: CString, e: nat, nlp: bool, cuts: seq<nat>)
    requires |cuts| > 1 && IsSplit(env, split, p, s, e, nlp, cuts)
    requires forall j :: 1 <= j < |cuts| ==> cuts[1] <= cuts[j]
    ensures TakesPiece(env, split.alts, s, cuts[0], cuts[1], nlp)
    ensures IsSplit(env.Inner(), split, p, s, e, NlpBehind(env, s, cuts[0], cuts[1], nlp), cuts[1..])
  {
    assert env.Inner().Inner() == env.Inner();
    assert NlpBehind(env, s, cuts[0], cuts[0], nlp) == nlp;
    var rest := cuts[1..];
    var inner := NlpBehind(env, s, cuts[0], cuts[1], nlp);
    forall j | 0 <= j < |rest| - 1
      ensures TakesPiece(env.Inner(), split.alts, s, rest[j], rest[j + 1],
        NlpBehind(env.Inner(), s, rest[0], rest[j], inner))
    {
      assert TakesPiece(env, split.alts, s, cuts[j + 1], cuts[j + 2], NlpBehind(env, s, cuts[0], cuts[j + 1], nlp));
    }
  }

  lemma {:induction false} CutsIncrease(env: Env, split: Group.Split, p: CString, s: CString, e: nat,
        nlp: bool, cuts: seq<nat>, j: nat)
    requires IsSplit(env, split, p, s, e, nlp, cuts) && 1 <= j < |cuts|
    ensures cuts[1] <= cuts[j]
    decreases j
  {
    if j > 1 {
      assert TakesPiece(env, split.alts, s, cuts[j - 1], cuts[j - 1 + 1], NlpBehind(env, s, cuts[0], cuts[j - 1], nlp));
      CutsIncrease(env, split, p, s, e, nlp, cuts, j - 1);
    }
  }

  // Every match of the loop is a split with at least one piece.
  lemma {:induction false} LoopFindsASplit(env: Env, op: char, p: CString, i: nat, s: CString, n: nat, e: nat,
        nlp: bool)
    returns (cuts: seq<nat>)
    requires 0 < i < |p| && n <= e <= |s| && p[i] == '(' && env.flags.extMatch
    requires env.Fold(p[i - 1]) == op && (op == '+' || op == '*')
    requires Ext(env, op, p, i, s, n, e, nlp) == Some(true)
    requires op == '*' ==> Fct(env, p, Group.SplitGroup(env.locale, p, i).value.rest, s, n, e, nlp, false) != Match
    ensures |cuts| > 1 && cuts[0] == n
    ensures IsSplit(env, Group.SplitGroup(env.locale, p, i).value, p, s, e, nlp, cuts)
    decreases e - n
  {
    var split := Group.SplitGroup(env.locale, p, i).value;
    Group.SplitFromIsLossless(env.locale, p, i + 1, i + 1, 0);
    assert Closure(env, p, i, split, s, n, e, nlp);
    var a, rs :| 0 <= a < |split.alts| && n <= rs <= e && ClosureAt(env, p, i, split, s, n, e, nlp, a, rs);
    var nlp' := NlpBehind(env, s, n, rs, nlp);
    var inner := env.Inner();
    assert inner.Inner() == inner;
    if Fct(inner, p, split.rest, s, rs, e, nlp', false) == Match {
      cuts := [rs];
    } else {
      assert inner.Fold(p[i - 1]) == op;
      TriesTheGroupAgain(inner, op, p, i, s, rs, e, nlp');
      cuts := LoopFindsASplit(inner, op, p, i, s, rs, e, nlp');
    }
    Prepend(env, split, p, s, n, e, nlp, cuts);
    cuts := [n] + cuts;
  }

  // Every split with at least one piece is found: an empty piece is dropped, unless it is the only one.
  lemma {:induction false} SplitIsFound(env: Env, op: char, p: CString, i: nat, s: CString, e: nat, nlp: bool,
        cuts: seq<nat>)
    requires 0 < i < |p| && e <= |s| && p[i] == '(' && env.flags.extMatch
    requires env.Fold(p[i - 1]) == op && (op == '+' || op == '*')
    requires Group.SplitGroup(env.locale, p, i).Some? && |cuts| > 1
    requires IsSplit(env, Group.SplitGroup(env.locale, p, i).value, p, s, e, nlp, cuts)
    ensures Ext(env, op, p, i, s, cuts[0], e, nlp) == Some(true)
    decreases |cuts|
  {
    var split := Group.SplitGroup(env.locale, p, i).value;
    var inner := env.Inner();
    assert inner.Inner() == inner && inner.Fold(p[i - 1]) == op;
    forall j | 1 <= j < |cuts| ensures cuts[1] <= cuts[j] {
      CutsIncrease(env, split, p, s, e, nlp, cuts, j);
    }
    DropFirst(env, split, p, s, e, nlp, cuts);
    var n, rs := cuts[0], cuts[1];
    var nlp' := NlpBehind(env, s, n, rs, nlp);
    var a :| 0 <= a < |split.alts| && Fct(inner, split.alts[a], 0, s, n, rs, nlp, false) == Match;
    Group.SplitFromIsLossless(env.locale, p, i + 1, i + 1, 0);
    if |cuts| == 2 {
      assert ClosureAt(env, p, i, split, s, n, e, nlp, a, rs);
    } else if rs > n {
      SplitIsFound(inner, op, p, i, s, e, nlp', cuts[1..]);
      TriesTheGroupAgain(inner, op, p, i, s, rs, e, nlp');
      assert ClosureAt(env, p, i, split, s, n, e, nlp, a, rs);
    } else {
      ShiftSplit(env, split, p, s, e, nlp, cuts);
      SplitIsFound(env, op, p, i, s, e, nlp, cuts[1..]);
    }
  }

  lemma ShiftSplit(env: Env, split: Group.Split, p: CString, s: CString, e: nat, nlp: bool, cuts: seq<nat>)
    requires |cuts| > 2 && IsSplit(env, split, p, s, e, nlp, cuts) && cuts[1] == cuts[0]
    ensures IsSplit(env, split, p, s, e, nlp, cuts[1..])
  {
  }

  // `+(...)`: k >= 1 pieces, then the rest.
  lemma PlusIsClosure(env: Env, p: CString, i: nat, s: CString, n: nat, e: nat, nlp: bool)
    requires 0 < i < |p| && n <= e <= |s| && p[i] == '(' && p[i - 1] == '+' && env.flags.extMatch && env.Sane()
    requires Group.SplitGroup(env.locale, p, i).Some?
    ensures Fct(env, p, i - 1, s, n, e, nlp, false) == Match
            <==> exists cuts :: |cuts| > 1 && cuts[0] == n
                   && IsSplit(env, Group.SplitGroup(env.locale, p, i).value, p, s, e, nlp, cuts)
  {
    var split := Group.SplitGroup(env.locale, p, i).value;
    assert IsSpecial('+');
    TriesTheGroupAgain(env, '+', p, i, s, n, e, nlp);
    if Ext(env, '+', p, i, s, n, e, nlp) == Some(true) {
      var cuts := LoopFindsASplit(env, '+', p, i, s, n, e, nlp);
    } else {
      forall cuts | |cuts| > 1 && cuts[0] == n ensures !IsSplit(env, split, p, s, e, nlp, cuts) {
        if IsSplit(env, split, p, s, e, nlp, cuts) {
          SplitIsFound(env, '+', p, i, s, e, nlp, cuts);
        }
      }
    }
  }

  // `*(...)`: no piece, the rest then matched under the caller's flags, or k >= 1 pieces and the rest.
  lemma StarIsClosure(env: Env, p: CString, i: nat, s: CString, n: nat, e: nat, nlp: bool)
    requires 0 < i < |p| && n <= e <= |s| && p[i] == '(' && p[i - 1] == '*' && env.flags.extMatch && env.Sane()
    requires Group.SplitGroup(env.locale, p, i).Some?
    ensures var split := Group.SplitGroup(env.locale, p, i).value;
            Fct(env, p, i - 1, s, n, e, nlp, false) == Match
            <==> || Fct(env, p, split.rest, s, n, e, nlp, false) == Match
                 || exists cuts :: |cuts| > 1 && cuts[0] == n && IsSplit(env, split, p, s, e, nlp, cuts)
  {
    var split := Group.SplitGroup(env.locale, p, i).value;
    assert IsSpecial('*');
    TriesTheGroupAgain(env, '*', p, i, s, n, e, nlp);
    if Ext(env, '*', p, i, s, n, e, nlp) == Some(true) {
      if Fct(env, p, split.rest, s, n, e, nlp, false) != Match {
        var cuts := LoopFindsASplit(env, '*', p, i, s, n, e, nlp);
      }
    } else {
      forall cuts | |cuts| > 1 && cuts[0] == n ensures !IsSplit(env, split, p, s, e, nlp, cuts) {
        if IsSplit(env, split, p, s, e, nlp, cuts) {
          SplitIsFound(env, '*', p, i, s, e, nlp, cuts);
        }
      }
    }
  }

  // ----- in terms of the standard's relation -----

  // What is behind a piece begins under the rule for leading periods that its place in the string calls for.
  lemma NlpBehindIsLeading(env: Env, s: CString, n: nat, rs: nat)
    requires n <= rs <= |s|
    ensures NlpBehind(env, s, n, rs, Glob.Leading(env, s, n)) == Glob.Leading(env, s, rs)
  {
  }

  // The text p from i on contains no group; its brackets hold the same characters for the matcher and for the standard,
  // and no period in it is hidden or blocked.
  ghost predicate IsPlain(env: Env, p: CString, i: nat) {
    && i <= |p| && Commitment.NoGroups(env, p, i)
    && Reading.Parse(env, p, i).Some? && Posix.Read(env, p, i).Some?
    && var std := Posix.Read(env, p, i).value;
       && Agreement.Alike(env, Reading.Parse(env, p, i).value, std)
       && !(env.NoLeadingPeriod() && Meaning.HidesPeriod(env, std))
       && !Meaning.BlocksDot(env, std, env.flags.period)
  }

  ghost predicate Means(env: Env, p: CString, i: nat, s: CString, n: nat, e: nat)
    requires IsPlain(env, p, i)
  {
    && n <= e <= |s|
    && Glob.Matches(env, Posix.Read(env, p, i).value, s, n, e)
    && !(env.flags.fileName && Meaning.HasStarQuotedSlash(Posix.Read(env, p, i).value))
  }

  // Every alternative, and what stands behind the group, is plain.
  ghost predicate IsPlainGroup(env: Env, split: Group.Split, p: CString) {
    IsPlain(env, p, split.rest) && forall x :: 0 <= x < |split.alts| ==> IsPlain(env, split.alts[x], 0)
  }

  ghost predicate SomeAltMeans(env: Env, split: Group.Split, p: CString, s: CString, a: nat, b: nat)
    requires IsPlainGroup(env, split, p)
  {
    exists x :: 0 <= x < |split.alts| && Means(env, split.alts[x], 0, s, a, b)
  }

  ghost predicate IsGlobSplit(env: Env, split: Group.Split, p: CString, s: CString, e: nat, cuts: seq<nat>)
    requires IsPlainGroup(env, split, p)
  {
    && |cuts| > 0 && e <= |s|
    && (forall j :: 0 <= j < |cuts| ==> cuts[0] <= cuts[j] <= e)
    && (forall j :: 0 <= j < |cuts| - 1 ==>
          SomeAltMeans(env, split, p, s, cuts[j], cuts[j + 1]))
    && Means(env, p, split.rest, s, cuts[|cuts| - 1], e)
  }

  lemma {:induction false} LessIsBlocked(env: Env, g: Glob.Glob, nlp: bool, any: bool)
    ensures Meaning.BlocksDot(env, g, false) ==> Meaning.BlocksDot(env, g, nlp)
    ensures Meaning.BlocksDotBehind(env, g, false, any) ==> Meaning.BlocksDotBehind(env, g, nlp, any)
    decreases g
  {
    if g.Cons? {
      LessIsBlocked(env, g.tail, nlp, false);
      LessIsBlocked(env, g.tail, nlp, any || g.head.AnyOne?);
    }
  }

  lemma FctIsMeans(env: Env, p: CString, i: nat, s: CString, n: nat, e: nat)
    requires env.Sane() && IsPlain(env, p, i) && n <= e <= |s|
    ensures Fct(env, p, i, s, n, e, Glob.Leading(env, s, n), false) == Match <==> Means(env, p, i, s, n, e)
  {
    var std := Posix.Read(env, p, i).value;
    LessIsBlocked(env, std, env.flags.period, false);
    Meaning.FctMeaningUnderPeriod(env, p, i, Reading.Parse(env, p, i).value, std, s, n, e);
  }

  // The flags of the calls for the parts of a group make no difference to them.
  lemma InnerFctIsMeans(env: Env, p: CString, i: nat, s: CString, n: nat, e: nat)
    requires env.Sane() && IsPlain(env, p, i) && n <= e <= |s|
    ensures Fct(env.Inner(), p, i, s, n, e, Glob.Leading(env, s, n), false) == Match <==> Means(env, p, i, s, n, e)
  {
    var (g, nlp) := (Reading.Parse(env, p, i).value, Glob.Leading(env, s, n));
    FctIsMeans(env, p, i, s, n, e);
    Commitment.FctIsCoded(env, p, i, g, s, n, e, nlp);
    Commitment.InnerFctIsCoded(env, p, i, g, s, n, e, nlp);
  }

  lemma PieceIsGlobPiece(env: Env, split: Group.Split, p: CString, s: CString, a: nat, b: nat)
    requires env.Sane() && IsPlainGroup(env, split, p) && a <= |s|
    ensures TakesPiece(env, split.alts, s, a, b, Glob.Leading(env, s, a)) <==> SomeAltMeans(env, split, p, s, a, b)
  {
    if a <= b <= |s| {
      forall x | 0 <= x < |split.alts|
        ensures Fct(env.Inner(), split.alts[x], 0, s, a, b, Glob.Leading(env, s, a), false) == Match
                <==> Means(env, split.alts[x], 0, s, a, b)
      {
        InnerFctIsMeans(env, split.alts[x], 0, s, a, b);
      }
    }
  }

  lemma SplitIsGlobSplit(env: Env, split: Group.Split, p: CString, s: CString, e: nat, cuts: seq<nat>)
    requires env.Sane() && IsPlainGroup(env, split, p) && |cuts| > 0 && cuts[0] <= |s|
    ensures IsSplit(env, split, p, s, e, Glob.Leading(env, s, cuts[0]), cuts)
            <==> IsGlobSplit(env, split, p, s, e, cuts)
  {
    if e <= |s| && forall j :: 0 <= j < |cuts| ==> cuts[0] <= cuts[j] <= e {
      var nlp := Glob.Leading(env, s, cuts[0]);
      forall j | 0 <= j < |cuts| - 1
        ensures TakesPiece(env, split.alts, s, cuts[j], cuts[j + 1], NlpBehind(env, s, cuts[0], cuts[j], nlp))
                <==> SomeAltMeans(env, split, p, s, cuts[j], cuts[j + 1])
      {
        NlpBehindIsLeading(env, s, cuts[0], cuts[j]);
        PieceIsGlobPiece(env, split, p, s, cuts[j], cuts[j + 1]);
      }
      var last := cuts[|cuts| - 1];
      NlpBehindIsLeading(env, s, cuts[0], last);
      InnerFctIsMeans(env, p, split.rest, s, last, e);
    }
  }

  // Over alternatives and a rest without groups of their own, `+(...)` is the closure of the
  // alternatives' languages.
  lemma PlusMeaning(env: Env, p: CString, i: nat, s: CString, n: nat, e: nat)
    requires 0 < i < |p| && n <= e <= |s| && p[i] == '(' && p[i - 1] == '+' && env.flags.extMatch && env.Sane()
    requires Group.SplitGroup(env.locale, p, i).Some?
    requires IsPlainGroup(env, Group.SplitGroup(env.locale, p, i).value, p)
    ensures Fct(env, p, i - 1, s, n, e, Glob.Leading(env, s, n), false) == Match
            <==> exists cuts :: |cuts| > 1 && cuts[0] == n
                   && IsGlobSplit(env, Group.SplitGroup(env.locale, p, i).value, p, s, e, cuts)
  {
    var (split, nlp) := (Group.SplitGroup(env.locale, p, i).value, Glob.Leading(env, s, n));
    PlusIsClosure(env, p, i, s, n, e, nlp);
    forall cuts: seq<nat> | |cuts| > 0 && cuts[0] == n
      ensures IsSplit(env, split, p, s, e, nlp, cuts) <==> IsGlobSplit(env, split, p, s, e, cuts)
    {
      SplitIsGlobSplit(env, split, p, s, e, cuts);
    }
  }

  // `*(...)` is that closure with the empty sequence of pieces added.
  lemma StarMeaning(env: Env, p: CString, i: nat, s: CString, n: nat, e: nat)
    requires 0 < i < |p| && n <= e <= |s| && p[i] == '(' && p[i - 1] == '*' && env.flags.extMatch && env.Sane()
    requires Group.SplitGroup(env.locale, p, i).Some?
    requires IsPlainGroup(env, Group.SplitGroup(env.locale, p, i).value, p)
    ensures Fct(env, p, i - 1, s, n, e, Glob.Leading(env, s, n), false) == Match
            <==> exists cuts :: |cuts| > 0 && cuts[0] == n
                   && IsGlobSplit(env, Group.SplitGroup(env.locale, p, i).value, p, s, e, cuts)
  {
    var (split, nlp) := (Group.SplitGroup(env.locale, p, i).value, Glob.Leading(env, s, n));
    StarIsClosure(env, p, i, s, n, e, nlp);
    forall cuts: seq<nat> | |cuts| > 0 && cuts[0] == n
      ensures IsSplit(env, split, p, s, e, nlp, cuts) <==> IsGlobSplit(env, split, p, s, e, cuts)
    {
      SplitIsGlobSplit(env, split, p, s, e, cuts);
    }
    FctIsMeans(env, p, split.rest, s, n, e);
    if Means(env, p, split.rest, s, n, e) {
      assert IsGlobSplit(env, split, p, s, e, [n]);
    } else {
      forall cuts: seq<nat> | |cuts| > 0 && cuts[0] == n && IsGlobSplit(env, split, p, s, e, cuts) ensures |cuts| > 1 {
      }
    }
  }
}
