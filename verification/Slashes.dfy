/**
  Under FNM_FILE_NAME every slash of the string is matched by a slash of the pattern. The standard finds all slashes of
  a pattern; the matcher misses those in brackets, and then never accepts what the standard accepts.
*/
module Slashes {
  import opened Text
  import opened Glob
  import opened Placement
  import opened Reading
  import opened Agreement
  import Commitment
  import Fnmatch
  import Posix

  function SlashesIn(s: CString, n: nat, e: nat): nat
    requires n <= e <= |s|
    decreases e - n
  {
    if n == e then 0 else (if s[n] == '/' then 1 else 0) + SlashesIn(s, n + 1, e)
  }

  function SlashesOf(g: Glob): nat {
    match g
    case Nil => 0
    case Cons(head, tail) => (if head.Literal? && head.c == '/' then 1 else 0) + SlashesOf(tail)
  }

  lemma {:induction false} SlashesAdd(s: CString, n: nat, k: nat, e: nat)
    requires n <= k <= e <= |s|
    ensures SlashesIn(s, n, e) == SlashesIn(s, n, k) + SlashesIn(s, k, e)
    decreases k - n
  {
    if n < k {
      SlashesAdd(s, n + 1, k, e);
    }
  }

  lemma {:induction false} SlashesFound(s: CString, n: nat, e: nat)
    requires n <= e <= |s|
    ensures SlashesIn(s, n, e) == 0 <==> forall j :: n <= j < e ==> s[j] != '/'
    decreases e - n
  {
    if n < e {
      SlashesFound(s, n + 1, e);
    }
  }

  lemma SlashesInSlice(s: CString, n: nat, e: nat)
    requires n <= e <= |s|
    ensures SlashesIn(s, n, e) == 0 <==> '/' !in s[n..e]
  {
    SlashesFound(s, n, e);
    assert forall j :: n <= j < e ==> s[n..e][j - n] == s[j];
  }

  // ----- strings -----

  lemma RunHasNoSlash(env: Env, s: CString, n: nat, k: nat, e: nat)
    requires n <= k <= e <= |s| && env.flags.fileName && AllWild(env, s, n, k)
    ensures SlashesIn(s, n, e) == SlashesIn(s, k, e)
  {
    SlashesAdd(s, n, k, e);
    SlashesFound(s, n, k);
  }

  // FNM_LEADING_DIR may leave slashes behind.
  lemma {:induction false} MatchesCountsSlashes(env: Env, g: Glob, s: CString, n: nat, e: nat)
    requires env.Sane() && env.flags.fileName && n <= e <= |s| && Matches(env, g, s, n, e)
    ensures SlashesIn(s, n, e) >= SlashesOf(g) && (!env.flags.leadingDir ==> SlashesIn(s, n, e) == SlashesOf(g))
    decreases g
  {
    assert IsSpecial('/');
    if g.Cons? {
      if g.head.Run? {
        var k :| n <= k <= e && AllWild(env, s, n, k) && Matches(env, g.tail, s, k, e);
        MatchesCountsSlashes(env, g.tail, s, k, e);
        RunHasNoSlash(env, s, n, k, e);
      } else {
        MatchesCountsSlashes(env, g.tail, s, n + 1, e);
      }
    }
  }

  // What is accepted begins with something accepted that has no more slashes than the pattern.
  lemma {:induction false} CodedCountsSlashes(env: Env, g: Glob, s: CString, n: nat, e: nat, nlp: bool,
        behindStar: bool)
    returns (m: nat)
    requires env.Sane() && env.flags.fileName && n <= e <= |s|
    requires if behindStar then CodedRun(env, g, s, n, e, nlp) else Coded(env, g, s, n, e, nlp)
    ensures n <= m <= e && SlashesIn(s, n, m) == SlashesOf(g) && (!env.flags.leadingDir ==> m == e)
    ensures if behindStar then CodedRun(env, g, s, n, m, nlp) else Coded(env, g, s, n, m, nlp)
    decreases g, behindStar
  {
    assert IsSpecial('/');
    if g.Nil? {
      m := if env.flags.leadingDir then n else e;
      if behindStar {
        RunHasNoSlash(env, s, n, m, m);
      }
    } else if behindStar && !Wildcard(g) {
      var k :| n <= k <= e && AllWild(env, s, n, k) && Coded(env, g, s, k, e, k == n && nlp);
      m := CodedCountsSlashes(env, g, s, k, e, k == n && nlp, false);
      RunHasNoSlash(env, s, n, k, m);
    } else if behindStar {
      m := CodedCountsSlashes(env, g.tail, s, if g.head.Run? then n else n + 1, e, nlp, true);
    } else if g.head.Run? {
      m := CodedCountsSlashes(env, g.tail, s, n, e, nlp, true);
    } else {
      m := CodedCountsSlashes(env, g.tail, s, n + 1, e, NextNlp(env, g.head), false);
    }
  }

  // Nothing behind the end of the string matters.
  lemma {:induction false} CodedOfPrefix(env: Env, g: Glob, s: CString, n: nat, e: nat, nlp: bool, behindStar: bool)
    requires n <= e <= |s|
    requires if behindStar then CodedRun(env, g, s, n, e, nlp) else Coded(env, g, s, n, e, nlp)
    ensures if behindStar then CodedRun(env, g, s[..e], n, e, nlp) else Coded(env, g, s[..e], n, e, nlp)
    decreases g, behindStar
  {
    if g.Cons? {
      if behindStar && !Wildcard(g) {
        var k :| n <= k <= e && AllWild(env, s, n, k) && Coded(env, g, s, k, e, k == n && nlp);
        CodedOfPrefix(env, g, s, k, e, k == n && nlp, false);
        assert AllWild(env, s[..e], n, k);
      } else if behindStar {
        CodedOfPrefix(env, g.tail, s, if g.head.Run? then n else n + 1, e, nlp, true);
      } else if g.head.Run? {
        CodedOfPrefix(env, g.tail, s, n, e, nlp, true);
      } else {
        CodedOfPrefix(env, g.tail, s, n + 1, e, NextNlp(env, g.head), false);
      }
    }
  }

  // ----- patterns -----

  lemma {:induction false} StandardFindsSlashes(env: Env, p: CString, i: nat)
    requires env.Sane() && env.flags.fileName && i <= |p| && Posix.Read(env, p, i).Some?
    ensures SlashesOf(Posix.Read(env, p, i).value) == SlashesIn(p, i, |p|)
    decreases |p| - i
  {
    if i < |p| {
      assert IsSpecial('/') && IsSpecial('[') && IsSpecial('\\');
      var (element, next) := Posix.ReadElement(env, p, i).value;
      StandardFindsSlashes(env, p, next);
      SlashesAdd(p, i, next, |p|);
      if element.Set? {
        SlashesInSlice(p, i + 1, next);
      }
    }
  }

  lemma ElementMissesSlashes(env: Env, p: CString, i: nat)
    requires env.Sane() && i < |p| && ParseElement(env, p, i).Some?
    ensures var (element, next) := ParseElement(env, p, i).value;
            var one := Cons(element, Nil);
            SlashesOf(one) + (if HasSlashInSet(one) then 1 else 0) <= SlashesIn(p, i, next)
  {
    assert IsSpecial('/') && IsSpecial('[') && IsSpecial('\\');
    var (element, next) := ParseElement(env, p, i).value;
    SlashesAdd(p, i, i + 1, next);
    if element.Set? && ParseSet(env, p, i + 1).Some? {
      SetShowsSlash(env, p, i + 1);
      SlashesInSlice(p, i + 1, next);
    }
  }

  lemma {:induction false} MatcherMissesSlashes(env: Env, p: CString, i: nat)
    requires env.Sane() && i <= |p| && Parse(env, p, i).Some?
    ensures var g := Parse(env, p, i).value;
            SlashesOf(g) + (if HasSlashInSet(g) then 1 else 0) <= SlashesIn(p, i, |p|)
    decreases |p| - i
  {
    if i < |p| {
      var (element, next) := ParseElement(env, p, i).value;
      ElementMissesSlashes(env, p, i);
      MatcherMissesSlashes(env, p, next);
      SlashesAdd(p, i, next, |p|);
    }
  }

  // A pattern with a slash in a bracket: FCT and the standard accept no string in common.
  lemma SlashInSetIsMisread(env: Env, p: CString, i: nat, s: CString, n: nat, e: nat, nlp: bool)
    requires env.Sane() && Commitment.NoGroups(env, p, i) && i <= |p| && n <= e <= |s|
    requires env.flags.fileName && !env.flags.leadingDir
    requires Parse(env, p, i).Some? && Posix.Read(env, p, i).Some? && HasSlashInSet(Parse(env, p, i).value)
    ensures !(Fnmatch.Fct(env, p, i, s, n, e, nlp, false) == Fnmatch.Match
              && Matches(env, Posix.Read(env, p, i).value, s, n, e))
  {
    var (g, std) := (Parse(env, p, i).value, Posix.Read(env, p, i).value);
    Commitment.FctIsCoded(env, p, i, g, s, n, e, nlp);
    if Coded(env, g, s, n, e, nlp) && Matches(env, std, s, n, e) {
      var m := CodedCountsSlashes(env, g, s, n, e, nlp, false);
      MatchesCountsSlashes(env, std, s, n, e);
      StandardFindsSlashes(env, p, i);
      MatcherMissesSlashes(env, p, i);
      assert false;
    }
  }

  // With any flags: whatever such a pattern accepts begins with a string that it accepts and the standard does not.
  lemma SlashInSetFails(env: Env, p: CString, s: CString) returns (t: CString)
    requires env.Sane() && Commitment.NoGroups(env, p, 0) && env.flags.fileName
    requires Parse(env, p, 0).Some? && Posix.Read(env, p, 0).Some? && HasSlashInSet(Parse(env, p, 0).value)
    requires Fnmatch.Accepts(env, p, s)
    ensures t <= s && Fnmatch.Accepts(env, p, t)
    ensures !Matches(env, Posix.Read(env, p, 0).value, t, 0, |t|)
  {
    var (g, std) := (Parse(env, p, 0).value, Posix.Read(env, p, 0).value);
    Commitment.FctIsCoded(env, p, 0, g, s, 0, |s|, env.flags.period);
    var m := CodedCountsSlashes(env, g, s, 0, |s|, env.flags.period, false);
    t := s[..m];
    CodedOfPrefix(env, g, s, 0, m, env.flags.period, false);
    Commitment.FctIsCoded(env, p, 0, g, t, 0, m, env.flags.period);
    StandardFindsSlashes(env, p, 0);
    MatcherMissesSlashes(env, p, 0);
    SlashesOfPrefix(s, 0, m);
    if Matches(env, std, t, 0, m) {
      MatchesCountsSlashes(env, std, t, 0, m);
      assert false;
    }
  }

  lemma {:induction false} SlashesOfPrefix(s: CString, n: nat, m: nat)
    requires n <= m <= |s|
    ensures SlashesIn(s[..m], n, m) == SlashesIn(s, n, m)
    decreases m - n
  {
    if n < m {
      SlashesOfPrefix(s, n + 1, m);
    }
  }
}
