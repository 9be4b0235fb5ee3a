/**
  Which patterns the matcher handles as the standard says, on every string and with any flags: exactly those whose
  brackets hold the same characters in both readings, with no star before a `\/`, no hidden and no blocked period.
*/
module Exactness {
  import opened Wrappers
  import opened Text
  import opened Glob
  import opened Reading
  import opened Agreement
  import opened Meaning
  import opened Converse
  import opened Division
  import Bracket
  import Commitment
  import Fnmatch
  import Posix
  import Slashes

  // ----- equal sets, or a misread character -----

  // A period that is in a bracket in one reading only
  ghost predicate MisreadsPeriod(env: Env, g: Glob, g': Glob) {
    && g.Cons? && g'.Cons?
    && (|| (g.head.Set? && g'.head.Set? && InItems(env, g.head.items, '.') != InItems(env, g'.head.items, '.'))
        || MisreadsPeriod(env, g.tail, g'.tail))
  }

  lemma {:induction false} AlikeOrMisread(env: Env, g: Glob, g': Glob)
    requires SameShape(g, g')
    ensures Alike(env, g, g') <==> !Misreads(env, g, g') && !(env.flags.period && MisreadsPeriod(env, g, g'))
  {
    if g.Cons? {
      AlikeOrMisread(env, g.tail, g'.tail);
      if g.head.Set? {
        var (items, items') := (g.head.items, g'.head.items);
        if !HoldAlike(env, items, items') {
          var x: char :| IsTakeable(env, x) && InItems(env, items, x) != InItems(env, items', x);
          assert IsPlainCharacter(env, x) || (env.flags.period && x == '.');
        } else {
          assert IsTakeable(env, '.');
        }
      }
    }
  }

  // ----- periods -----

  // A range with its end on one side of the period, and what the end folds to on the other
  predicate CrossesPeriod(env: Env, item: Item) {
    item.Range? && (item.hi < '.') != (env.Fold(item.hi) < '.')
  }

  predicate HasCrossing(env: Env, g: Glob) {
    && g.Cons?
    && (|| (g.head.Set? && exists item :: item in g.head.items && CrossesPeriod(env, item))
        || HasCrossing(env, g.tail))
  }

  lemma ItemHoldsPeriodAlike(env: Env, p: CString, j: nat, lenient: bool)
    requires env.Sane() && j <= |p| && ParseItem(env, p, j, lenient).Some? && Posix.ReadItem(env, p, j).Some?
    requires !ParseItem(env, p, j, lenient).value.0.Bare? && !CrossesPeriod(env, ParseItem(env, p, j, lenient).value.0)
    ensures var ((item, k), (item', k')) := (ParseItem(env, p, j, lenient).value, Posix.ReadItem(env, p, j).value);
            k == k' && (ItemHolds(env, item, '.') <==> ItemHolds(env, item', '.'))
  {
    assert IsSpecial('.');
    ItemIsReadAlike(env, p, j, lenient);
    if (env.flags.noEscape || p[j] != '\\') && OpensName(p, j) {
      NameIsReadAlike(env, p, j, lenient);
    } else {
      var (lo, k) := Posix.Single(env, p, j).value;
      if At(p, k) == '-' && At(p, k + 1) != ']' {
        RangeIsReadAlike(env, p, k, env.Fold(lo), lenient);
      }
    }
  }

  lemma {:induction false} ItemsHoldPeriodAlike(env: Env, p: CString, j: nat, first: bool, rest: bool)
    requires env.Sane() && j <= |p| && ParseItems(env, p, j, first, rest).Some? && Posix.ReadItems(env, p, j).Some?
    requires forall item :: item in ParseItems(env, p, j, first, rest).value.0 ==>
               !item.Bare? && !CrossesPeriod(env, item)
    ensures InItems(env, ParseItems(env, p, j, first, rest).value.0, '.')
            <==> InItems(env, Posix.ReadItems(env, p, j).value.0, '.')
    decreases |p| - j
  {
    var (item, k) := ParseItem(env, p, j, first).value;
    var items := ParseItems(env, p, j, first, rest).value.0;
    assert items[0] == item;
    ItemHoldsPeriodAlike(env, p, j, first);
    var item' := Posix.ReadItem(env, p, j).value.0;
    if At(p, k) == ']' {
      assert items == [item] + [] && Posix.ReadItems(env, p, j).value.0 == [item'] + [];
      InItemsCons(env, item, [], '.');
      InItemsCons(env, item', [], '.');
    } else {
      var (others, others') := (ParseItems(env, p, k, rest, rest).value.0, Posix.ReadItems(env, p, k).value.0);
      assert items == [item] + others && Posix.ReadItems(env, p, j).value.0 == [item'] + others';
      assert forall x :: x in others ==> x in items;
      ItemsHoldPeriodAlike(env, p, k, rest, rest);
      InItemsCons(env, item, others, '.');
      InItemsCons(env, item', others', '.');
    }
  }

  lemma BracketHoldsPeriodAlike(env: Env, p: CString, i: nat)
    requires env.Sane() && i <= |p| && ParseBracket(env, p, i).Some? && Posix.ReadBracket(env, p, i).Some?
    requires var one := Cons(ParseBracket(env, p, i).value.0, Nil);
             !HasBare(one) && !HasCrossing(env, one) && !(env.flags.fileName && HasSlashInSet(one))
    ensures var (element, std) := (ParseBracket(env, p, i).value.0, Posix.ReadBracket(env, p, i).value.0);
            !MisreadsPeriod(env, Cons(element, Nil), Cons(std, Nil))
  {
    NamedBracketEndsAlike(env, p, i);
    BracketsCloseAlike(env, p, i);
    if ParseSet(env, p, i).Some? {
      var negated := Bracket.Negated(env.locale, p, i);
      ItemsHoldPeriodAlike(env, p, if negated then i + 1 else i, true, negated);
    }
  }

  lemma ElementHoldsPeriodAlike(env: Env, p: CString, i: nat)
    requires env.Sane() && i < |p| && ParseElement(env, p, i).Some? && Posix.ReadElement(env, p, i).Some?
    requires var one := Cons(ParseElement(env, p, i).value.0, Nil);
             !HasBare(one) && !HasCrossing(env, one) && !(env.flags.fileName && HasSlashInSet(one))
    ensures ParseElement(env, p, i).value.1 == Posix.ReadElement(env, p, i).value.1
    ensures var (element, std) := (ParseElement(env, p, i).value.0, Posix.ReadElement(env, p, i).value.0);
            !MisreadsPeriod(env, Cons(element, Nil), Cons(std, Nil))
  {
    if p[i] == '[' {
      NamedBracketEndsAlike(env, p, i + 1);
      BracketHoldsPeriodAlike(env, p, i + 1);
    } else {
      OtherElementsAgree(env, p, i);
    }
  }

  // Only ranges with an end that folds across the period misread it; no such character is in ASCII.
  lemma {:induction false} OnlyCrossingMisreadsPeriod(env: Env, p: CString, i: nat)
    requires env.Sane() && i <= |p| && Parse(env, p, i).Some? && Posix.Read(env, p, i).Some?
    requires var g := Parse(env, p, i).value;
             !HasBare(g) && !HasCrossing(env, g) && !(env.flags.fileName && HasSlashInSet(g))
    ensures !MisreadsPeriod(env, Parse(env, p, i).value, Posix.Read(env, p, i).value)
    decreases |p| - i
  {
    if i < |p| {
      var (element, next) := ParseElement(env, p, i).value;
      ElementHoldsPeriodAlike(env, p, i);
      OnlyCrossingMisreadsPeriod(env, p, next);
      assert Parse(env, p, i).value == Cons(element, Parse(env, p, next).value);
    }
  }

  // ----- the exact condition -----

  // The two readings differ in shape in no other way than one that is seen on a string.
  predicate IsComparable(env: Env, g: Glob, std: Glob) {
    || SameShape(g, std)
    || HasLostOpen(g)
    || (env.flags.fileName && HasSlashInSet(g))
    || Width(g) > Width(std)
    || (Width(g) < Width(std) && !HasRun(g) && !env.flags.leadingDir)
  }

  lemma InStepIsComparable(env: Env, p: CString)
    requires env.Sane() && Parse(env, p, 0).Some? && Posix.Read(env, p, 0).Some? && InStep(env, p, 0)
    ensures IsComparable(env, Parse(env, p, 0).value, Posix.Read(env, p, 0).value)
  {
    MatcherReadsMore(env, p, 0);
  }

  ghost predicate IsRight(env: Env, p: CString, std: Glob) {
    forall t: CString :: Fnmatch.Accepts(env, p, t) <==> Matches(env, std, t, 0, |t|)
  }

  // The brackets hold the same characters, and none of the three constructs is there that Meaning excludes.
  ghost predicate IsSound(env: Env, g: Glob, std: Glob) {
    && Alike(env, g, std)
    && !(env.flags.fileName && HasStarQuotedSlash(std))
    && !(env.NoLeadingPeriod() && HidesPeriod(env, std))
    && !BlocksDot(env, std, env.flags.period)
  }

  lemma DifferentShapeFails(env: Env, p: CString, g: Glob, std: Glob, s: CString) returns (t: CString)
    requires env.Sane() && Commitment.NoGroups(env, p, 0)
    requires Parse(env, p, 0) == Some(g) && Posix.Read(env, p, 0) == Some(std)
    requires IsComparable(env, g, std) && !SameShape(g, std) && |s| == Width(std) && Matches(env, std, s, 0, |s|)
    ensures Fnmatch.Accepts(env, p, t) != Matches(env, std, t, 0, |t|)
  {
    t := s;
    if env.flags.fileName && HasSlashInSet(g) {
      if Fnmatch.Accepts(env, p, s) {
        t := Slashes.SlashInSetFails(env, p, s);
      }
    } else if HasLostOpen(g) {
      FctIsMatches(env, p, 0, g, s, 0, |s|);
    } else if Width(g) > Width(std) {
      WiderPatternFails(env, p, g, std, s);
    } else {
      NarrowerPatternFails(env, p, g, std, s);
    }
  }

  lemma UnsoundPatternFails(env: Env, p: CString, g: Glob, std: Glob, s: CString) returns (t: CString)
    requires env.Sane() && Commitment.NoGroups(env, p, 0)
    requires Parse(env, p, 0) == Some(g) && Posix.Read(env, p, 0) == Some(std) && Alike(env, g, std)
    requires !IsSound(env, g, std) && |s| == Width(std) && Matches(env, std, s, 0, |s|)
    ensures Fnmatch.Accepts(env, p, t) != Matches(env, std, t, 0, |t|)
  {
    t := s;
    if Fnmatch.Accepts(env, p, s) {
      FctMeaningUnderPeriod(env, p, 0, g, std, s, 0, |s|);
      if BlocksDot(env, std, env.flags.period) {
        t := BlockedPatternFails(env, p, g, std, s);
      } else {
        t := HidingPatternFails(env, p, g, std, s);
      }
    }
  }

  // ----- leaving out what the stars take -----

  lemma {:induction false} MatchesShifts(env: Env, g: Glob, s: CString, n: nat, t: CString, n': nat)
    requires !env.flags.period && n <= |s| && n' <= |t| && s[n..] == t[n'..] && Matches(env, g, s, n, |s|)
    ensures Matches(env, g, t, n', |t|)
    decreases g
  {
    assert forall j :: n <= j < |s| ==> s[j] == s[n..][j - n] == t[j - n + n'];
    assert forall j' :: n' <= j' < |t| ==> t[j'] == t[n'..][j' - n'] == s[j' - n' + n];
    if g.Cons? {
      if g.head.Run? {
        var k :| n <= k <= |s| && AllWild(env, s, n, k) && Matches(env, g.tail, s, k, |s|);
        var k' := k - n + n';
        assert s[k..] == s[n..][k - n..] == t[k'..];
        MatchesShifts(env, g.tail, s, k, t, k');
        assert AllWild(env, t, n', k');
      } else {
        assert s[n + 1..] == s[n..][1..] == t[n' + 1..];
        MatchesShifts(env, g.tail, s, n + 1, t, n' + 1);
      }
    }
  }

  // Without FNM_PERIOD, what is left of a match without the characters the stars take is a match.
  lemma {:induction false} Tighten(env: Env, g: Glob, s: CString, n: nat) returns (t: CString)
    requires !env.flags.period && n <= |s| && Matches(env, g, s, n, |s|)
    ensures |t| == Width(g) && Matches(env, g, t, 0, |t|)
    decreases g
  {
    if g.Nil? {
      t := "";
    } else if g.head.Run? {
      var k :| n <= k <= |s| && AllWild(env, s, n, k) && Matches(env, g.tail, s, k, |s|);
      t := Tighten(env, g.tail, s, k);
      assert AllWild(env, t, 0, 0);
    } else {
      var rest := Tighten(env, g.tail, s, n + 1);
      t := [s[n]] + rest;
      assert rest[0..] == t[1..];
      MatchesShifts(env, g.tail, rest, 0, t, 1);
    }
  }

  // The matcher is right about a pattern on every string if and only if the pattern is sound. The string s shows that
  // the standard accepts something with every star empty.
  lemma RightIfAndOnlyIfSound(env: Env, p: CString, g: Glob, std: Glob, s: CString)
    requires env.Sane() && Commitment.NoGroups(env, p, 0)
    requires Parse(env, p, 0) == Some(g) && Posix.Read(env, p, 0) == Some(std) && IsComparable(env, g, std)
    requires env.flags.period && SameShape(g, std) ==> !MisreadsPeriod(env, g, std)
    requires |s| == Width(std) && Matches(env, std, s, 0, |s|)
    ensures IsRight(env, p, std) <==> IsSound(env, g, std)
  {
    if IsSound(env, g, std) {
      forall t: CString ensures Fnmatch.Accepts(env, p, t) <==> Matches(env, std, t, 0, |t|) {
        FctMeaningUnderPeriod(env, p, 0, g, std, t, 0, |t|);
      }
    } else if !SameShape(g, std) {
      var t := DifferentShapeFails(env, p, g, std, s);
    } else if !Alike(env, g, std) {
      AlikeOrMisread(env, g, std);
      var t := MisreadPatternFails(env, p, g, std, s);
    } else {
      var t := UnsoundPatternFails(env, p, g, std, s);
    }
  }

  // Without FNM_PERIOD: the matcher is right about a pattern that matches anything at all if and only if it is sound.
  lemma RightWithoutPeriod(env: Env, p: CString, g: Glob, std: Glob, s: CString)
    requires env.Sane() && Commitment.NoGroups(env, p, 0) && !env.flags.period
    requires Parse(env, p, 0) == Some(g) && Posix.Read(env, p, 0) == Some(std) && IsComparable(env, g, std)
    requires Matches(env, std, s, 0, |s|)
    ensures IsRight(env, p, std) <==> Alike(env, g, std) && !(env.flags.fileName && HasStarQuotedSlash(std))
  {
    var t := Tighten(env, std, s, 0);
    RightIfAndOnlyIfSound(env, p, g, std, t);
    NothingBlocksWithoutPeriod(env, std, false);
  }
}
