/**
  What the conditions of Meaning keep out does fail. On a string that is as long as the pattern has elements other than
  `*`, every star has to be empty, since a later placement lacks characters; what is left is decided element by element.
*/
module Converse {
  import opened Wrappers
  import opened Text
  import opened Glob
  import opened Placement
  import opened Reading
  import opened Agreement
  import opened Meaning
  import Commitment
  import Fnmatch
  import Posix

  // The elements that take a character
  function Width(g: Glob): nat {
    match g
    case Nil => 0
    case Cons(head, tail) => (if head.Run? then 0 else 1) + Width(tail)
  }

  // Coded and CodedRun with every star empty
  ghost predicate Tight(env: Env, g: Glob, s: CString, n: nat, nlp: bool)
    requires n <= |s|
    decreases g, 0
  {
    match g
    case Nil => n == |s|
    case Cons(Run, tail) => !(n < |s| && s[n] == '.' && nlp) && TightRun(env, tail, s, n, nlp)
    case Cons(element, tail) =>
      n < |s| && FitsNlp(env, element, s, n, nlp) && Tight(env, tail, s, n + 1, NextNlp(env, element))
  }

  ghost predicate TightRun(env: Env, g: Glob, s: CString, n: nat, nlp: bool)
    requires n <= |s|
    decreases g, 1
  {
    match g
    case Nil => n == |s|
    case Cons(Run, tail) => TightRun(env, tail, s, n, nlp)
    case Cons(AnyOne, tail) => n < |s| && Wild(env, s, n) && TightRun(env, tail, s, n + 1, nlp)
    case Cons(element, tail) => !(env.flags.fileName && element == Literal('/', true)) && Tight(env, g, s, n, nlp)
  }

  // Matches with every star empty
  ghost predicate TightlyMatches(env: Env, g: Glob, s: CString, n: nat)
    requires n <= |s|
    decreases g
  {
    match g
    case Nil => n == |s|
    case Cons(Run, tail) => !LeadingDot(env, s, n, |s|) && TightlyMatches(env, tail, s, n)
    case Cons(element, tail) => n < |s| && Fits(env, element, s, n, |s|) && TightlyMatches(env, tail, s, n + 1)
  }

  lemma {:induction false} CodedNeedsWidth(env: Env, g: Glob, s: CString, n: nat, nlp: bool, behindStar: bool)
    requires n <= |s|
    requires if behindStar then CodedRun(env, g, s, n, |s|, nlp) else Coded(env, g, s, n, |s|, nlp)
    ensures Width(g) <= |s| - n
    decreases g, behindStar
  {
    if g.Cons? {
      if behindStar && !Wildcard(g) {
        var k :| n <= k <= |s| && AllWild(env, s, n, k) && Coded(env, g, s, k, |s|, k == n && nlp);
        CodedNeedsWidth(env, g, s, k, k == n && nlp, false);
      } else if behindStar {
        CodedNeedsWidth(env, g.tail, s, if g.head.Run? then n else n + 1, nlp, true);
      } else if g.head.Run? {
        CodedNeedsWidth(env, g.tail, s, n, nlp, true);
      } else {
        CodedNeedsWidth(env, g.tail, s, n + 1, NextNlp(env, g.head), false);
      }
    }
  }

  lemma {:induction false} CodedIsTight(env: Env, g: Glob, s: CString, n: nat, nlp: bool, behindStar: bool)
    requires n <= |s| && |s| - n == Width(g)
    ensures behindStar ==> (CodedRun(env, g, s, n, |s|, nlp) <==> TightRun(env, g, s, n, nlp))
    ensures !behindStar ==> (Coded(env, g, s, n, |s|, nlp) <==> Tight(env, g, s, n, nlp))
    decreases g, behindStar
  {
    if g.Cons? {
      if behindStar && !Wildcard(g) {
        CodedIsTight(env, g, s, n, nlp, false);
        if CodedRun(env, g, s, n, |s|, nlp) {
          var k :| n <= k <= |s| && AllWild(env, s, n, k) && Coded(env, g, s, k, |s|, k == n && nlp);
          CodedNeedsWidth(env, g, s, k, k == n && nlp, false);
        } else {
          assert AllWild(env, s, n, n);
        }
      } else if behindStar {
        if g.head.Run? || n < |s| {
          CodedIsTight(env, g.tail, s, if g.head.Run? then n else n + 1, nlp, true);
        }
      } else if g.head.Run? {
        CodedIsTight(env, g.tail, s, n, nlp, true);
      } else if n < |s| {
        CodedIsTight(env, g.tail, s, n + 1, NextNlp(env, g.head), false);
      }
    }
  }

  lemma {:induction false} MatchesNeedsWidth(env: Env, g: Glob, s: CString, n: nat)
    requires n <= |s| && Matches(env, g, s, n, |s|)
    ensures Width(g) <= |s| - n
    decreases g
  {
    if g.Cons? {
      if g.head.Run? {
        var k :| n <= k <= |s| && AllWild(env, s, n, k) && Matches(env, g.tail, s, k, |s|);
        MatchesNeedsWidth(env, g.tail, s, k);
      } else {
        MatchesNeedsWidth(env, g.tail, s, n + 1);
      }
    }
  }

  lemma {:induction false} MatchesIsTight(env: Env, g: Glob, s: CString, n: nat)
    requires n <= |s| && |s| - n == Width(g)
    ensures Matches(env, g, s, n, |s|) <==> TightlyMatches(env, g, s, n)
    decreases g
  {
    if g.Cons? {
      if g.head.Run? {
        MatchesIsTight(env, g.tail, s, n);
        if Matches(env, g, s, n, |s|) {
          var k :| n <= k <= |s| && AllWild(env, s, n, k) && Matches(env, g.tail, s, k, |s|);
          MatchesNeedsWidth(env, g.tail, s, k);
        } else {
          assert AllWild(env, s, n, n);
        }
      } else if n < |s| {
        MatchesIsTight(env, g.tail, s, n + 1);
      }
    }
  }

  // ----- a bracket that reads a character in two ways -----

  // The same elements, whatever their sets hold
  predicate SameShape(g: Glob, g': Glob) {
    match g
    case Nil => g'.Nil?
    case Cons(head, tail) =>
      && g'.Cons? && SameShape(tail, g'.tail)
      && if head.Set? then g'.head.Set? && head.negated == g'.head.negated else g'.head == head
  }

  // A character that may stand in a string where it does not lead
  predicate IsPlainCharacter(env: Env, x: char) {
    IsTakeable(env, x) && !(env.flags.period && x == '.')
  }

  // Some set holds a character in one reading only; a period counts only without FNM_PERIOD.
  ghost predicate Misreads(env: Env, g: Glob, g': Glob) {
    && g.Cons? && g'.Cons?
    && (|| (g.head.Set? && g'.head.Set? && SetMisreads(env, g.head.items, g'.head.items))
        || Misreads(env, g.tail, g'.tail))
  }

  ghost predicate SetMisreads(env: Env, items: seq<Item>, items': seq<Item>) {
    exists x: char :: IsPlainCharacter(env, x) && InItems(env, items, x) != InItems(env, items', x)
  }

  // ----- a blocked period -----

  lemma {:induction false} SameFromHere(env: Env, g: Glob, s: CString, t: CString, n: nat)
    requires n <= |s| == |t| && s[n..] == t[n..] && Leading(env, s, n) == Leading(env, t, n)
    ensures TightlyMatches(env, g, s, n) == TightlyMatches(env, g, t, n)
    decreases g
  {
    assert forall j :: n <= j < |s| ==> s[j] == s[n..][j - n] == t[j];
    if g.Cons? {
      if g.head.Run? {
        SameFromHere(env, g.tail, s, t, n);
      } else if n < |s| {
        assert s[n + 1..] == s[n..][1..];
        SameFromHere(env, g.tail, s, t, n + 1);
      }
    }
  }

  // A string matched with every star empty, with a period put where a bracket is blocked: still matched, and not found.
  lemma {:induction false} BlockedIsLost(env: Env, g: Glob, s: CString, n: nat, nlp: bool, behindStar: bool, any: bool)
    returns (t: CString)
    requires env.Sane() && n <= |s| && TightlyMatches(env, g, s, n)
    requires if behindStar then BlocksDotBehind(env, g, nlp, any) else BlocksDot(env, g, nlp)
    requires behindStar && any ==> n > 0 && !Leading(env, s, n)
    ensures |t| == |s| && t[..n] == s[..n] && (!(behindStar && any) && n < |s| ==> t[n] == s[n])
    ensures TightlyMatches(env, g, t, n)
    ensures if behindStar then !TightRun(env, g, t, n, nlp) else !Tight(env, g, t, n, nlp)
    decreases g
  {
    if g.head.Run? {
      t := BlockedIsLost(env, g.tail, s, n, nlp, true, behindStar && any);
      assert n > 0 ==> t[n - 1] == t[..n][n - 1] == s[n - 1];
    } else if behindStar && !g.head.AnyOne? && nlp && any && AcceptsDot(env, g.head) {
      t := s[..n] + "." + s[n + 1..];
      assert t[n + 1..] == s[n + 1..] && t[n - 1] == s[n - 1];
      SameFromHere(env, g.tail, s, t, n + 1);
    } else {
      var keep := behindStar && g.head.AnyOne?;
      t := BlockedIsLost(env, g.tail, s, n + 1, if keep then nlp else NextNlp(env, g.head), keep, keep);
      assert t[n] == t[..n + 1][n] == s[n];
      assert t[..n] == t[..n + 1][..n] == s[..n];
    }
  }

  // ----- a misread character -----

  lemma {:induction false} TightFromHere(env: Env, g: Glob, s: CString, t: CString, n: nat, nlp: bool, behindStar: bool)
    requires n <= |s| == |t| && s[n..] == t[n..]
    ensures if behindStar then TightRun(env, g, s, n, nlp) == TightRun(env, g, t, n, nlp)
            else Tight(env, g, s, n, nlp) == Tight(env, g, t, n, nlp)
    decreases g, behindStar
  {
    assert forall j :: n <= j < |s| ==> s[j] == s[n..][j - n] == t[j];
    if g.Cons? {
      if behindStar && !Wildcard(g) {
        TightFromHere(env, g, s, t, n, nlp, false);
      } else if g.head.Run? {
        TightFromHere(env, g.tail, s, t, n, nlp, true);
      } else if n < |s| {
        assert s[n + 1..] == s[n..][1..];
        TightFromHere(env, g.tail, s, t, n + 1, if behindStar then nlp else NextNlp(env, g.head), behindStar);
      }
    }
  }

  // A bracket with a range whose end folding raises is misread, unless some item of it holds that end all the same.
  lemma RaisedEndIsMisread(env: Env, items: seq<Item>, items': seq<Item>, lo: char, hi: char)
    requires IsPlainCharacter(env, hi) && lo <= env.Fold(hi) && Range(lo, env.Fold(hi)) in items'
    ensures SetMisreads(env, items, items') || InItems(env, items, hi)
  {
    assert ItemHolds(env, Range(lo, env.Fold(hi)), hi);
  }

  // A string accepted in both readings with every star empty, with a misread character put in: accepted in one only.
  lemma {:induction false} MisreadingParts(env: Env, g: Glob, g': Glob, s: CString, n: nat, nlp: bool, behindStar: bool)
    returns (t: CString)
    requires env.Sane() && n <= |s| && SameShape(g, g') && Misreads(env, g, g') && TightlyMatches(env, g', s, n)
    requires nlp ==> env.flags.period
    requires if behindStar then TightRun(env, g, s, n, nlp) else Tight(env, g, s, n, nlp)
    ensures |t| == |s| && t[..n] == s[..n] && (n < |s| ==> t[n] == s[n] || IsPlainCharacter(env, t[n]))
    ensures (if behindStar then TightRun(env, g, t, n, nlp) else Tight(env, g, t, n, nlp))
            != TightlyMatches(env, g', t, n)
    decreases g, behindStar
  {
    if behindStar && !Wildcard(g) {
      t := MisreadingParts(env, g, g', s, n, nlp, false);
    } else if g.head.Run? {
      t := MisreadingParts(env, g.tail, g'.tail, s, n, nlp, true);
      assert n > 0 ==> t[n - 1] == t[..n][n - 1] == s[n - 1];
    } else if g.head.Set? && SetMisreads(env, g.head.items, g'.head.items) {
      t := PutMisread(env, g, g', s, n, nlp);
    } else {
      var nlp' := if behindStar then nlp else NextNlp(env, g.head);
      t := MisreadingParts(env, g.tail, g'.tail, s, n + 1, nlp', behindStar);
      assert t[n] == t[..n + 1][n] == s[n] && t[..n] == t[..n + 1][..n] == s[..n];
    }
  }

  lemma PutMisread(env: Env, g: Glob, g': Glob, s: CString, n: nat, nlp: bool) returns (t: CString)
    requires env.Sane() && n < |s| && SameShape(g, g') && TightlyMatches(env, g', s, n) && Tight(env, g, s, n, nlp)
    requires (nlp ==> env.flags.period) && g.Cons? && g.head.Set? && SetMisreads(env, g.head.items, g'.head.items)
    ensures |t| == |s| && t[..n] == s[..n] && IsPlainCharacter(env, t[n])
    ensures Tight(env, g, t, n, nlp) != TightlyMatches(env, g', t, n)
  {
    var x: char :| IsPlainCharacter(env, x) && InItems(env, g.head.items, x) != InItems(env, g'.head.items, x);
    t := s[..n] + [x] + s[n + 1..];
    assert t[n + 1..] == s[n + 1..];
    TightFromHere(env, g.tail, s, t, n + 1, false, false);
    SameFromHere(env, g'.tail, s, t, n + 1);
  }

  // ----- a hidden period -----

  lemma {:induction false} CodedShifts(env: Env, g: Glob, s: CString, n: nat, t: CString, n': nat, nlp: bool,
        behindStar: bool)
    requires n <= |s| && n' <= |t| && s[n..] == t[n'..]
    requires if behindStar then CodedRun(env, g, s, n, |s|, nlp) else Coded(env, g, s, n, |s|, nlp)
    ensures if behindStar then CodedRun(env, g, t, n', |t|, nlp) else Coded(env, g, t, n', |t|, nlp)
    decreases g, behindStar
  {
    assert forall j :: n <= j < |s| ==> s[j] == s[n..][j - n] == t[j - n + n'];
    assert forall j' :: n' <= j' < |t| ==> t[j'] == t[n'..][j' - n'] == s[j' - n' + n];
    if g.Cons? {
      if behindStar && !Wildcard(g) {
        var k :| n <= k <= |s| && AllWild(env, s, n, k) && Coded(env, g, s, k, |s|, k == n && nlp);
        var k' := k - n + n';
        assert s[k..] == s[n..][k - n..] == t[k'..];
        CodedShifts(env, g, s, k, t, k', k == n && nlp, false);
        assert AllWild(env, t, n', k');
      } else if g.head.Run? {
        CodedShifts(env, g.tail, s, n, t, n', nlp, true);
      } else {
        assert s[n + 1..] == s[n..][1..] == t[n' + 1..];
        CodedShifts(env, g.tail, s, n + 1, t, n' + 1, if behindStar then nlp else NextNlp(env, g.head), behindStar);
      }
    }
  }

  // The `\/` that hides a period, and the pattern behind it
  ghost function Hiding(env: Env, g: Glob): (h: Glob)
    requires HidesPeriod(env, g)
    ensures h.Cons? && h.head == Literal('/', true) && TakesDot(env, h.tail) && Width(h) <= Width(g)
  {
    if g.head == Literal('/', true) && TakesDot(env, g.tail) then g else Hiding(env, g.tail)
  }

  // Matches gets to the hiding slash with at least as many characters taken and left as there are elements for them.
  lemma {:induction false} MatchesReachesHiding(env: Env, g: Glob, s: CString, n: nat) returns (m: nat)
    requires n <= |s| && HidesPeriod(env, g) && Matches(env, g, s, n, |s|)
    ensures n + Width(g) - Width(Hiding(env, g)) <= m <= |s| - Width(Hiding(env, g))
    ensures Matches(env, Hiding(env, g), s, m, |s|)
    decreases g
  {
    if g.head == Literal('/', true) && TakesDot(env, g.tail) {
      m := n;
      MatchesNeedsWidth(env, g, s, n);
    } else if g.head.Run? {
      var k :| n <= k <= |s| && AllWild(env, s, n, k) && Matches(env, g.tail, s, k, |s|);
      m := MatchesReachesHiding(env, g.tail, s, k);
    } else {
      m := MatchesReachesHiding(env, g.tail, s, n + 1);
    }
  }

  // Where the hiding slash is in s, t has one and a period behind it.
  ghost predicate ShowsPeriod(env: Env, g: Glob, s: CString, t: CString)
    requires HidesPeriod(env, g)
  {
    var h := Hiding(env, g);
    var m := |s| - Width(h);
    && 0 <= m && m + 2 <= |t| && t[m] == '/' && t[m + 1] == '.'
    && |t| == |s| + if h.tail.head.Run? then 1 else 0
  }

  lemma ShownBehind(env: Env, g: Glob, s: CString, t: CString)
    requires HidesPeriod(env, g) && !(g.head == Literal('/', true) && TakesDot(env, g.tail))
    ensures HidesPeriod(env, g.tail) && ShowsPeriod(env, g, s, t) == ShowsPeriod(env, g.tail, s, t)
  {
  }

  // An element takes from t what it took from s.
  lemma SameElementTakes(env: Env, g: Glob, s: CString, t: CString, n: nat, nlp: bool, behindStar: bool)
    requires g.Cons? && !g.head.Run? && n < |s| && n < |t| && t[n] == s[n] && (behindStar ==> Wildcard(g))
    requires if behindStar then TightRun(env, g, s, n, nlp) else Tight(env, g, s, n, nlp)
    requires if behindStar then CodedRun(env, g.tail, t, n + 1, |t|, nlp)
             else Coded(env, g.tail, t, n + 1, |t|, NextNlp(env, g.head))
    ensures if behindStar then CodedRun(env, g, t, n, |t|, nlp) else Coded(env, g, t, n, |t|, nlp)
  {
  }

  lemma SamePrefix(s: CString, t: CString, n: nat)
    requires n + 1 < |t| && n + 1 < |s| && t[..n + 2] == s[..n + 2]
    ensures t[n] == s[n] && t[..n + 1] == s[..n + 1]
  {
    assert t[n] == t[..n + 2][n] == s[n] && t[..n + 1] == t[..n + 2][..n + 1];
  }

  // A string found with every star empty, with a period put behind the hiding slash: still found.
  lemma {:induction false} HiddenIsFound(env: Env, g: Glob, s: CString, n: nat, nlp: bool, behindStar: bool)
    returns (t: CString)
    requires env.Sane() && env.NoLeadingPeriod() && n <= |s| && HidesPeriod(env, g) && |s| - n == Width(g)
    requires if behindStar then TightRun(env, g, s, n, nlp) else Tight(env, g, s, n, nlp)
    ensures ShowsPeriod(env, g, s, t) && n < |t| && n < |s| && t[..n + 1] == s[..n + 1]
    ensures if behindStar then CodedRun(env, g, t, n, |t|, nlp) else Coded(env, g, t, n, |t|, nlp)
    decreases g, behindStar
  {
    if g.head == Literal('/', true) && TakesDot(env, g.tail) {
      t := PutPeriod(env, g, s, n, nlp);
    } else if behindStar && !Wildcard(g) {
      t := HiddenIsFound(env, g, s, n, nlp, false);
      assert AllWild(env, t, n, n);
    } else if g.head.Run? {
      t := HiddenIsFound(env, g.tail, s, n, nlp, true);
      ShownBehind(env, g, s, t);
      assert t[n] == t[..n + 1][n] == s[n];
    } else {
      t := HiddenIsFound(env, g.tail, s, n + 1, if behindStar then nlp else NextNlp(env, g.head), behindStar);
      ShownBehind(env, g, s, t);
      SamePrefix(s, t, n);
      SameElementTakes(env, g, s, t, n, nlp, behindStar);
    }
  }

  lemma PutPeriod(env: Env, g: Glob, s: CString, n: nat, nlp: bool) returns (t: CString)
    requires env.Sane() && env.NoLeadingPeriod() && n <= |s| && |s| - n == Width(g)
    requires g.Cons? && g.head == Literal('/', true) && TakesDot(env, g.tail) && Tight(env, g, s, n, nlp)
    ensures n + 2 <= |t| && t[n] == '/' && t[n + 1] == '.' && t[..n + 1] == s[..n + 1]
    ensures |t| == |s| + if g.tail.head.Run? then 1 else 0
    ensures Coded(env, g, t, n, |t|, nlp)
  {
    assert IsSpecial('/');
    var (next, rest) := (g.tail.head, g.tail.tail);
    if next.Run? {
      t := s[..n + 1] + "." + s[n + 1..];
      CodedIsTight(env, rest, s, n + 1, false, true);
      assert s[n + 1..] == t[n + 2..];
      CodedShifts(env, rest, s, n + 1, t, n + 2, false, true);
      assert AllWild(env, t, n + 1, n + 2);
      RunStartsEarlier(env, rest, t, n + 1, n + 2, |t|, false, false);
    } else {
      t := s[..n + 1] + "." + s[n + 2..];
      CodedIsTight(env, rest, s, n + 2, false, false);
      assert s[n + 2..] == t[n + 2..];
      CodedShifts(env, rest, s, n + 2, t, n + 2, false, false);
    }
  }

  lemma HiddenIsForbidden(env: Env, g: Glob, s: CString, t: CString)
    requires env.Sane() && env.NoLeadingPeriod() && HidesPeriod(env, g) && |s| == Width(g) && ShowsPeriod(env, g, s, t)
    ensures !Matches(env, g, t, 0, |t|)
  {
    assert IsSpecial('/');
    if Matches(env, g, t, 0, |t|) {
      var m := MatchesReachesHiding(env, g, t, 0);
    }
  }

  // ----- what is kept out fails -----

  // Every pattern that blocks a period loses a match of the standard, if any string is matched with every star empty.
  lemma BlockedPatternFails(env: Env, p: CString, g: Glob, std: Glob, s: CString) returns (t: CString)
    requires env.Sane() && Commitment.NoGroups(env, p, 0)
    requires Parse(env, p, 0) == Some(g) && Posix.Read(env, p, 0) == Some(std) && Alike(env, g, std)
    requires BlocksDot(env, std, env.flags.period) && |s| == Width(std) && Matches(env, std, s, 0, |s|)
    ensures Matches(env, std, t, 0, |t|) && !Fnmatch.Accepts(env, p, t)
  {
    MatchesIsTight(env, std, s, 0);
    t := BlockedIsLost(env, std, s, 0, env.flags.period, false, false);
    MatchesIsTight(env, std, t, 0);
    CodedIsTight(env, std, t, 0, env.flags.period, false);
    AlikeIsCodedAlike(env, g, std, t, 0, env.flags.period, false);
    Commitment.FctIsCoded(env, p, 0, g, t, 0, |t|, env.flags.period);
  }

  // Every pattern that hides a period accepts a string that the standard forbids, if any is accepted with every star
  // empty.
  lemma HidingPatternFails(env: Env, p: CString, g: Glob, std: Glob, s: CString) returns (t: CString)
    requires env.Sane() && Commitment.NoGroups(env, p, 0)
    requires Parse(env, p, 0) == Some(g) && Posix.Read(env, p, 0) == Some(std) && Alike(env, g, std)
    requires env.NoLeadingPeriod() && HidesPeriod(env, std) && |s| == Width(std)
    requires Fnmatch.Accepts(env, p, s)
    ensures Fnmatch.Accepts(env, p, t) && !Matches(env, std, t, 0, |t|)
  {
    Commitment.FctIsCoded(env, p, 0, g, s, 0, |s|, true);
    AlikeIsCodedAlike(env, g, std, s, 0, true, false);
    CodedIsTight(env, std, s, 0, true, false);
    t := HiddenIsFound(env, std, s, 0, true, false);
    HiddenIsForbidden(env, std, s, t);
    AlikeIsCodedAlike(env, g, std, t, 0, true, false);
    Commitment.FctIsCoded(env, p, 0, g, t, 0, |t|, true);
  }

  lemma {:induction false} AlikeIsCodedAlike(env: Env, g: Glob, g': Glob, s: CString, n: nat, nlp: bool,
        behindStar: bool)
    requires Alike(env, g, g') && n <= |s|
    ensures behindStar ==> (CodedRun(env, g, s, n, |s|, nlp) <==> CodedRun(env, g', s, n, |s|, nlp))
    ensures !behindStar ==> (Coded(env, g, s, n, |s|, nlp) <==> Coded(env, g', s, n, |s|, nlp))
    decreases g, behindStar
  {
    if g.Cons? {
      if behindStar && !Wildcard(g) {
        if CodedRun(env, g, s, n, |s|, nlp) {
          var k :| n <= k <= |s| && AllWild(env, s, n, k) && Coded(env, g, s, k, |s|, k == n && nlp);
          AlikeIsCodedAlike(env, g, g', s, k, k == n && nlp, false);
        } else if CodedRun(env, g', s, n, |s|, nlp) {
          var k :| n <= k <= |s| && AllWild(env, s, n, k) && Coded(env, g', s, k, |s|, k == n && nlp);
          AlikeIsCodedAlike(env, g, g', s, k, k == n && nlp, false);
        }
      } else if g.head.Run? {
        AlikeIsCodedAlike(env, g.tail, g'.tail, s, n, nlp, true);
      } else if n < |s| {
        AlikeIsCodedAlike(env, g.tail, g'.tail, s, n + 1, if behindStar then nlp else NextNlp(env, g.head), behindStar);
      }
    }
  }

  // Every pattern with a misread character fails on some string, if the standard accepts any with every star empty.
  lemma MisreadPatternFails(env: Env, p: CString, g: Glob, std: Glob, s: CString) returns (t: CString)
    requires env.Sane() && Commitment.NoGroups(env, p, 0)
    requires Parse(env, p, 0) == Some(g) && Posix.Read(env, p, 0) == Some(std)
    requires SameShape(g, std) && Misreads(env, g, std) && |s| == Width(std) && Matches(env, std, s, 0, |s|)
    ensures Fnmatch.Accepts(env, p, t) != Matches(env, std, t, 0, |t|)
  {
    SameWidth(g, std);
    t := s;
    if Fnmatch.Accepts(env, p, s) {
      Commitment.FctIsCoded(env, p, 0, g, s, 0, |s|, env.flags.period);
      CodedIsTight(env, g, s, 0, env.flags.period, false);
      MatchesIsTight(env, std, s, 0);
      t := MisreadingParts(env, g, std, s, 0, env.flags.period, false);
      CodedIsTight(env, g, t, 0, env.flags.period, false);
      MatchesIsTight(env, std, t, 0);
      Commitment.FctIsCoded(env, p, 0, g, t, 0, |t|, env.flags.period);
    }
  }

  lemma {:induction false} SameWidth(g: Glob, g': Glob)
    requires SameShape(g, g')
    ensures Width(g) == Width(g')
  {
    if g.Cons? {
      SameWidth(g.tail, g'.tail);
    }
  }
}
