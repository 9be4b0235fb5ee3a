/**
  The matcher against the standard: FCT answers 0 exactly when Glob.Matches holds of the pattern as Posix reads it,
  under conditions on the pattern. Converse shows what happens without them, Surprises gives an input for each.
*/
module Meaning {
  import opened Wrappers
  import opened Text
  import opened Glob
  import opened Reading
  import opened Placement
  import opened Fnmatch
  import opened Agreement
  import Commitment
  import Posix
  import Slashes

  // A `\/` directly behind a `*`, or behind the wildcards that follow one
  predicate HasStarQuotedSlash(g: Glob) {
    g.Cons? && ((g.head.Run? && QuotedSlashBehind(g.tail)) || HasStarQuotedSlash(g.tail))
  }

  predicate QuotedSlashBehind(g: Glob) {
    g.Cons? && (g.head == Literal('/', true) || (Wildcard(g) && QuotedSlashBehind(g.tail)))
  }

  // A bracket that holds a period
  ghost predicate AcceptsDot(env: Env, element: Element) {
    element.Set? && InItems(env, element.items, '.') != element.negated
  }

  ghost predicate TakesDot(env: Env, g: Glob) {
    g.Cons? && (g.head.Run? || g.head.AnyOne? || AcceptsDot(env, g.head))
  }

  // A `\/` directly before `*`, `?` or a bracket that holds a period
  ghost predicate HidesPeriod(env: Env, g: Glob) {
    g.Cons? && ((g.head == Literal('/', true) && TakesDot(env, g.tail)) || HidesPeriod(env, g.tail))
  }

  // A `*` that no_leading_period reaches, and behind it wildcards with a `?` among them and a bracket that holds a
  // period (line 243)
  ghost predicate BlocksDot(env: Env, g: Glob, nlp: bool) {
    && g.Cons?
    && if g.head.Run? then BlocksDotBehind(env, g.tail, nlp, false) else BlocksDot(env, g.tail, NextNlp(env, g.head))
  }

  ghost predicate BlocksDotBehind(env: Env, g: Glob, nlp: bool, any: bool) {
    && g.Cons?
    && if Wildcard(g) then BlocksDotBehind(env, g.tail, nlp, any || g.head.AnyOne?)
       else (nlp && any && AcceptsDot(env, g.head)) || BlocksDot(env, g.tail, NextNlp(env, g.head))
  }

  // Some place at or behind n where g matches and that a `*` starting at n may reach
  ghost predicate RunMatches(env: Env, g: Glob, s: CString, n: nat, e: nat)
    requires n <= e <= |s|
  {
    exists k :: n <= k <= e && AllWild(env, s, n, k) && Matches(env, g, s, k, e)
  }

  // ----- from the code's relation to the standard's -----

  lemma {:induction false} CodedMeansMatches(env: Env, g: Glob, s: CString, n: nat, e: nat, nlp: bool)
    requires env.Sane() && n <= e <= |s|
    requires env.NoLeadingPeriod() ==> !HidesPeriod(env, g)
    requires Leading(env, s, n) && !nlp ==> !TakesDot(env, g)
    requires Coded(env, g, s, n, e, nlp)
    ensures Matches(env, g, s, n, e)
    decreases g, 0
  {
    assert IsSpecial('/');
    if g.Cons? {
      if g.head.Run? {
        CodedRunMeansMatches(env, g.tail, s, n, e, nlp);
      } else {
        CodedMeansMatches(env, g.tail, s, n + 1, e, NextNlp(env, g.head));
      }
    }
  }

  lemma {:induction false} CodedRunMeansMatches(env: Env, g: Glob, s: CString, n: nat, e: nat, nlp: bool)
    requires env.Sane() && n <= e <= |s|
    requires env.NoLeadingPeriod() ==> !HidesPeriod(env, g)
    requires CodedRun(env, g, s, n, e, nlp) && !LeadingDot(env, s, n, e) && (Leading(env, s, n) ==> nlp)
    ensures RunMatches(env, g, s, n, e)
    decreases g, 1
  {
    if g.Nil? {
      var k := if env.flags.fileName then FindSlash(s, n, e) else e;
      assert AllWild(env, s, n, k) && Matches(env, g, s, k, e);
    } else if g.head.Run? {
      CodedRunMeansMatches(env, g.tail, s, n, e, nlp);
      assert AllWild(env, s, n, n) && Matches(env, g, s, n, e);
    } else if g.head.AnyOne? {
      CodedRunMeansMatches(env, g.tail, s, n + 1, e, nlp);
      var k :| n + 1 <= k <= e && AllWild(env, s, n + 1, k) && Matches(env, g.tail, s, k, e);
      assert AllWild(env, s, n, k - 1) && Matches(env, g, s, k - 1, e);
    } else {
      var k :| n <= k <= e && AllWild(env, s, n, k) && Coded(env, g, s, k, e, k == n && nlp);
      CodedMeansMatches(env, g, s, k, e, k == n && nlp);
    }
  }

  // ----- and back -----

  lemma {:induction false} MatchesMeansCoded(env: Env, g: Glob, s: CString, n: nat, e: nat, nlp: bool)
    requires env.Sane() && n <= e <= |s|
    requires nlp ==> Leading(env, s, n)
    requires !BlocksDot(env, g, nlp) && (env.flags.fileName ==> !HasStarQuotedSlash(g))
    requires Matches(env, g, s, n, e)
    ensures Coded(env, g, s, n, e, nlp)
    decreases g, 0
  {
    assert IsSpecial('/');
    if g.Cons? {
      if g.head.Run? {
        MatchesMeansCodedRun(env, g.tail, s, n, e, nlp, false);
      } else {
        MatchesMeansCoded(env, g.tail, s, n + 1, e, NextNlp(env, g.head));
      }
    }
  }

  lemma {:induction false} MatchesMeansCodedRun(env: Env, g: Glob, s: CString, n: nat, e: nat, nlp: bool, any: bool)
    requires env.Sane() && n <= e <= |s|
    requires any || (nlp ==> Leading(env, s, n))
    requires !BlocksDotBehind(env, g, nlp, any)
    requires env.flags.fileName ==> !HasStarQuotedSlash(g) && !QuotedSlashBehind(g)
    requires RunMatches(env, g, s, n, e)
    ensures CodedRun(env, g, s, n, e, nlp)
    decreases g, 1
  {
    var k :| n <= k <= e && AllWild(env, s, n, k) && Matches(env, g, s, k, e);
    if g.Nil? {
    } else if g.head.Run? {
      var k' :| k <= k' <= e && AllWild(env, s, k, k') && Matches(env, g.tail, s, k', e);
      assert AllWild(env, s, n, k');
      MatchesMeansCodedRun(env, g.tail, s, n, e, nlp, any);
    } else if g.head.AnyOne? {
      assert AllWild(env, s, n + 1, k + 1) && Matches(env, g.tail, s, k + 1, e);
      MatchesMeansCodedRun(env, g.tail, s, n + 1, e, nlp, true);
    } else {
      MatchesMeansCoded(env, g, s, k, e, k == n && nlp && !any);
      assert Coded(env, g, s, k, e, k == n && nlp);
    }
  }

  // Under FNM_FILE_NAME nothing matches a pattern with a `\/` behind a star.
  lemma {:induction false} StarQuotedSlashNeverMatches(env: Env, g: Glob, s: CString, n: nat, e: nat,
        nlp: bool, behindStar: bool)
    requires env.flags.fileName && n <= e <= |s|
    requires if behindStar then CodedRun(env, g, s, n, e, nlp) else Coded(env, g, s, n, e, nlp)
    ensures !HasStarQuotedSlash(g) && (behindStar ==> !QuotedSlashBehind(g))
    decreases g, behindStar
  {
    if g.Cons? {
      if behindStar && !Wildcard(g) {
        var k :| n <= k <= e && AllWild(env, s, n, k) && Coded(env, g, s, k, e, k == n && nlp);
        StarQuotedSlashNeverMatches(env, g, s, k, e, k == n && nlp, false);
      } else if behindStar {
        StarQuotedSlashNeverMatches(env, g.tail, s, if g.head.Run? then n else n + 1, e, nlp, true);
      } else if g.head.Run? {
        StarQuotedSlashNeverMatches(env, g.tail, s, n, e, nlp, true);
      } else {
        StarQuotedSlashNeverMatches(env, g.tail, s, n + 1, e, NextNlp(env, g.head), false);
      }
    }
  }

  // Nothing matches a pattern with an element that stands for nothing.
  lemma {:induction false} LostOpenNeverMatches(env: Env, g: Glob, s: CString, n: nat, e: nat, nlp: bool,
        behindStar: bool)
    requires n <= e <= |s|
    requires if behindStar then CodedRun(env, g, s, n, e, nlp) else Coded(env, g, s, n, e, nlp)
    ensures !HasLostOpen(g)
    decreases g, behindStar
  {
    if g.Cons? {
      if behindStar && !Wildcard(g) {
        var k :| n <= k <= e && AllWild(env, s, n, k) && Coded(env, g, s, k, e, k == n && nlp);
        LostOpenNeverMatches(env, g, s, k, e, k == n && nlp, false);
      } else if behindStar {
        LostOpenNeverMatches(env, g.tail, s, if g.head.Run? then n else n + 1, e, nlp, true);
      } else if g.head.Run? {
        LostOpenNeverMatches(env, g.tail, s, n, e, nlp, true);
      } else {
        LostOpenNeverMatches(env, g.tail, s, n + 1, e, NextNlp(env, g.head), false);
      }
    }
  }

  // ----- the meaning of FCT -----

  // A match of the code's relation is one of the standard's unless a `\/` hides a period, and every match of the
  // standard's is found unless a star stands before a `\/` or blocks a period.
  lemma CodedIsMatches(env: Env, g: Glob, s: CString, n: nat, e: nat)
    requires env.Sane() && n <= e <= |s|
    ensures var accepted := Coded(env, g, s, n, e, Leading(env, s, n));
            var broken := env.flags.fileName && HasStarQuotedSlash(g);
            && (accepted ==> !broken && !HasLostOpen(g))
            && (accepted && !(env.NoLeadingPeriod() && HidesPeriod(env, g)) ==> Matches(env, g, s, n, e))
            && (Matches(env, g, s, n, e) && !broken && !BlocksDot(env, g, Leading(env, s, n)) ==> accepted)
  {
    var nlp := Leading(env, s, n);
    if Coded(env, g, s, n, e, nlp) {
      LostOpenNeverMatches(env, g, s, n, e, nlp, false);
      if !(env.NoLeadingPeriod() && HidesPeriod(env, g)) {
        CodedMeansMatches(env, g, s, n, e, nlp);
      }
      if env.flags.fileName {
        StarQuotedSlashNeverMatches(env, g, s, n, e, nlp, false);
      }
    } else if Matches(env, g, s, n, e) && !(env.flags.fileName && HasStarQuotedSlash(g)) && !BlocksDot(env, g, nlp) {
      MatchesMeansCoded(env, g, s, n, e, nlp);
    }
  }

  // With any flags, of the pattern as the matcher reads it
  lemma FctIsMatches(env: Env, p: CString, i: nat, g: Glob, s: CString, n: nat, e: nat)
    requires env.Sane() && Commitment.NoGroups(env, p, i) && i <= |p| && n <= e <= |s|
    requires Parse(env, p, i) == Some(g)
    ensures var accepted := Fct(env, p, i, s, n, e, Leading(env, s, n), false) == Match;
            var broken := env.flags.fileName && HasStarQuotedSlash(g);
            && (accepted ==> !broken && !HasLostOpen(g))
            && (accepted && !(env.NoLeadingPeriod() && HidesPeriod(env, g)) ==> Matches(env, g, s, n, e))
            && (Matches(env, g, s, n, e) && !broken && !BlocksDot(env, g, Leading(env, s, n)) ==> accepted)
  {
    Commitment.FctIsCoded(env, p, i, g, s, n, e, Leading(env, s, n));
    CodedIsMatches(env, g, s, n, e);
  }

  lemma {:induction false} NothingBlocksWithoutPeriod(env: Env, g: Glob, any: bool)
    requires !env.flags.period
    ensures !BlocksDot(env, g, false) && !BlocksDotBehind(env, g, false, any)
  {
    if g.Cons? {
      NothingBlocksWithoutPeriod(env, g.tail, any || g.head.AnyOne?);
      NothingBlocksWithoutPeriod(env, g.tail, false);
    }
  }

  lemma {:induction false} AlikeIsAlike(env: Env, g: Glob, g': Glob, nlp: bool, any: bool)
    requires Alike(env, g, g')
    ensures HasStarQuotedSlash(g) == HasStarQuotedSlash(g') && QuotedSlashBehind(g) == QuotedSlashBehind(g')
    ensures HidesPeriod(env, g) == HidesPeriod(env, g')
    ensures BlocksDot(env, g, nlp) == BlocksDot(env, g', nlp)
    ensures BlocksDotBehind(env, g, nlp, any) == BlocksDotBehind(env, g', nlp, any)
    decreases g
  {
    if g.Cons? {
      AlikeIsAlike(env, g.tail, g'.tail, nlp, any || g.head.AnyOne?);
      AlikeIsAlike(env, g.tail, g'.tail, nlp, false);
      AlikeIsAlike(env, g.tail, g'.tail, NextNlp(env, g.head), false);
    }
  }

  // Without FNM_PERIOD: a pattern whose brackets hold the same characters for matcher and standard is matched exactly
  // as the standard says, less the star before a quoted slash. With a slash in a bracket, matcher and standard
  // accept nothing in common.
  lemma FctMeaning(env: Env, p: CString, i: nat, g: Glob, std: Glob, s: CString, n: nat, e: nat)
    requires env.Sane() && Commitment.NoGroups(env, p, i) && i <= |p| && n <= e <= |s|
    requires Parse(env, p, i) == Some(g) && Posix.Read(env, p, i) == Some(std) && !env.flags.period
    ensures var accepted := Fct(env, p, i, s, n, e, false, false) == Match;
            && (HasLostOpen(g) ==> !accepted)
            && (Alike(env, g, std) ==>
                  (accepted <==> Matches(env, std, s, n, e) && !(env.flags.fileName && HasStarQuotedSlash(std))))
            && (env.flags.fileName && HasSlashInSet(g) && !env.flags.leadingDir ==>
                  !(accepted && Matches(env, std, s, n, e)))
  {
    FctMeaningUnderPeriod(env, p, i, g, std, s, n, e);
    NothingBlocksWithoutPeriod(env, std, false);
  }

  // With any flags
  lemma FctMeaningUnderPeriod(env: Env, p: CString, i: nat, g: Glob, std: Glob, s: CString, n: nat, e: nat)
    requires env.Sane() && Commitment.NoGroups(env, p, i) && i <= |p| && n <= e <= |s|
    requires Parse(env, p, i) == Some(g) && Posix.Read(env, p, i) == Some(std)
    ensures var accepted := Fct(env, p, i, s, n, e, Leading(env, s, n), false) == Match;
            var broken := env.flags.fileName && HasStarQuotedSlash(std);
            && (HasLostOpen(g) ==> !accepted)
            && (Alike(env, g, std) ==>
                  && (accepted ==> !broken)
                  && (accepted && !(env.NoLeadingPeriod() && HidesPeriod(env, std)) ==> Matches(env, std, s, n, e))
                  && (Matches(env, std, s, n, e) && !broken && !BlocksDot(env, std, Leading(env, s, n)) ==> accepted))
            && (env.flags.fileName && HasSlashInSet(g) && !env.flags.leadingDir ==>
                  !(accepted && Matches(env, std, s, n, e)))
  {
    FctIsMatches(env, p, i, g, s, n, e);
    if Alike(env, g, std) {
      AlikeMatchesAlike(env, g, std, s, n, e);
      AlikeIsAlike(env, g, std, Leading(env, s, n), false);
    }
    if env.flags.fileName && HasSlashInSet(g) && !env.flags.leadingDir {
      Slashes.SlashInSetIsMisread(env, p, i, s, n, e, Leading(env, s, n));
    }
  }

  // ----- leading periods -----

  // Which element of the pattern took each character of the string
  ghost predicate Explains(env: Env, g: Glob, s: CString, n: nat, owners: seq<Element>)
    requires n + |owners| == |s|
    decreases g
  {
    match g
    case Nil => owners == []
    case Cons(head, tail) =>
      if head.Run? then
        exists j :: 0 <= j <= |owners| && (forall x :: 0 <= x < j ==> owners[x] == Run)
                    && AllWild(env, s, n, n + j) && Explains(env, tail, s, n + j, owners[j..])
      else
        owners != [] && owners[0] == head && Fits(env, head, s, n, |s|) && Explains(env, tail, s, n + 1, owners[1..])
  }

  ghost predicate PeriodsAreExplicit(env: Env, s: CString, n: nat, owners: seq<Element>)
    requires n + |owners| == |s|
  {
    forall k :: n <= k < |s| && s[k] == '.' && Leading(env, s, k)
      ==> owners[k - n].Literal? && owners[k - n].c == env.Fold('.')
  }

  // The characters a star takes are none of the protected periods.
  lemma RunHasNoLeadingPeriod(env: Env, s: CString, n: nat, k: nat, owners: seq<Element>, rest: seq<Element>)
    requires n <= k <= |s| && k + |rest| == |s| && n + |owners| == |s| && owners[k - n..] == rest
    requires !LeadingDot(env, s, n, |s|) && AllWild(env, s, n, k) && PeriodsAreExplicit(env, s, k, rest)
    ensures PeriodsAreExplicit(env, s, n, owners)
  {
    forall j | n <= j < |s| && s[j] == '.' && Leading(env, s, j)
    ensures owners[j - n].Literal? && owners[j - n].c == env.Fold('.')
    {
      if j >= k {
        assert owners[j - n] == rest[j - k];
      }
    }
  }

  lemma RunIsExplained(env: Env, g: Glob, s: CString, n: nat, k: nat, rest: seq<Element>) returns (owners: seq<Element>)
    requires g.Cons? && g.head.Run? && n <= k <= |s| && k + |rest| == |s|
    requires !LeadingDot(env, s, n, |s|) && AllWild(env, s, n, k)
    requires Explains(env, g.tail, s, k, rest) && PeriodsAreExplicit(env, s, k, rest)
    ensures n + |owners| == |s| && Explains(env, g, s, n, owners) && PeriodsAreExplicit(env, s, n, owners)
  {
    var j := k - n;
    owners := seq(j, _ => Run) + rest;
    assert owners[j..] == rest && n + j == k;
    assert forall x :: 0 <= x < j ==> owners[x] == Run;
    RunHasNoLeadingPeriod(env, s, n, k, owners, rest);
  }

  lemma {:induction false} MatchesIsExplained(env: Env, g: Glob, s: CString, n: nat) returns (owners: seq<Element>)
    requires n <= |s| && !env.flags.leadingDir && Matches(env, g, s, n, |s|)
    ensures n + |owners| == |s| && Explains(env, g, s, n, owners) && PeriodsAreExplicit(env, s, n, owners)
    decreases g
  {
    if g.Nil? {
      owners := [];
    } else if g.head.Run? {
      var k :| n <= k <= |s| && AllWild(env, s, n, k) && Matches(env, g.tail, s, k, |s|);
      var rest := MatchesIsExplained(env, g.tail, s, k);
      owners := RunIsExplained(env, g, s, n, k, rest);
    } else {
      var rest := MatchesIsExplained(env, g.tail, s, n + 1);
      owners := [g.head] + rest;
      assert owners[1..] == rest;
    }
  }

  // A whole-string match assigns every character to an element of the pattern, and each protected period
  // to a literal period.
  lemma LeadingPeriodsAreMatchedExplicitly(env: Env, p: CString, g: Glob, s: CString) returns (owners: seq<Element>)
    requires env.Sane() && Commitment.NoGroups(env, p, 0) && !env.flags.leadingDir
    requires Parse(env, p, 0) == Some(g) && !(env.NoLeadingPeriod() && HidesPeriod(env, g))
    requires Accepts(env, p, s)
    ensures |owners| == |s| && Explains(env, g, s, 0, owners)
    ensures forall k :: 0 <= k < |s| && s[k] == '.' && Leading(env, s, k) ==> owners[k].Literal? && owners[k].c == '.'
  {
    FctIsMatches(env, p, 0, g, s, 0, |s|);
    owners := MatchesIsExplained(env, g, s, 0);
    assert IsSpecial('.');
  }
}
