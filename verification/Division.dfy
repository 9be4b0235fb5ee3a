/**
  Patterns that the matcher divides into elements otherwise than the standard does, because it misses the name of a
  class: it takes the `[` for a character, and closes the bracket at the `]` that ends the name, or before.
*/
module Division {
  import opened Wrappers
  import opened Text
  import opened Glob
  import opened Placement
  import opened Reading
  import opened Agreement
  import opened Converse
  import Bracket
  import BracketMeaning
  import Commitment
  import Fnmatch
  import Meaning
  import Posix

  // The matcher's elements from k on include one that ends at e.
  predicate Reaches(env: Env, p: CString, k: nat, e: nat)
    requires k <= e <= |p|
    decreases e - k
  {
    || k == e
    || match ParseElement(env, p, k)
       case None => false
       case Some((_, next)) => next <= e && Reaches(env, p, next, e)
  }

  // Each element of the standard's reading is made of whole elements of the matcher's: the matcher opens no bracket
  // inside one of the standard's that ends behind it.
  predicate InStep(env: Env, p: CString, i: nat)
    requires i <= |p|
    decreases |p| - i
  {
    || i == |p|
    || match Posix.ReadElement(env, p, i)
       case None => false
       case Some((_, next)) => Reaches(env, p, i, next) && InStep(env, p, next)
  }

  // What is read up to a `]` takes a character.
  lemma {:induction false} ReachingWidens(env: Env, p: CString, k: nat, e: nat)
    requires k < e <= |p| && p[e - 1] == ']' && Parse(env, p, k).Some? && Reaches(env, p, k, e)
    ensures Parse(env, p, e).Some? && Width(Parse(env, p, k).value) > Width(Parse(env, p, e).value)
    decreases e - k
  {
    var (element, next) := ParseElement(env, p, k).value;
    if next < e {
      ReachingWidens(env, p, next, e);
    }
  }

  lemma {:induction false} SetEnds(env: Env, p: CString, j: nat)
    requires j <= |p| && Posix.ReadItems(env, p, j).Some?
    ensures p[Posix.ReadItems(env, p, j).value.1 - 1] == ']'
    decreases |p| - j
  {
    var k := Posix.ReadItem(env, p, j).value.1;
    if At(p, k) != ']' {
      SetEnds(env, p, k);
    }
  }

  // For the element std and what is behind it the matcher reads the same element, one that stands for nothing, or more
  // elements.
  predicate ReadsAs(g: Glob, std: Element, rest: Glob) {
    || Width(g) > 1 + Width(rest)
    || (g.Cons? && g.tail == rest && SameShape(Cons(g.head, Nil), Cons(std, Nil)))
    || (g.Cons? && g.tail == rest && g.head == Set(false, []) && !std.Run?)
  }

  lemma LongBracketEnds(env: Env, p: CString, i: nat)
    requires i < |p| && p[i] == '['
    requires Posix.ReadElement(env, p, i).Some? && Posix.ReadElement(env, p, i).value.1 > i + 1
    ensures p[Posix.ReadElement(env, p, i).value.1 - 1] == ']'
  {
    SetEnds(env, p, if Bracket.Negated(env.locale, p, i + 1) then i + 2 else i + 1);
  }

  lemma ShorterBracketWidens(env: Env, p: CString, i: nat, k: nat, next: nat)
    requires env.Sane() && i < |p| && p[i] == '[' && Parse(env, p, i).Some? && ParseElement(env, p, i).value.1 == k
    requires Posix.ReadElement(env, p, i).Some? && Posix.ReadElement(env, p, i).value.1 == next
    requires k < next && Reaches(env, p, k, next)
    ensures Parse(env, p, next).Some? && Width(Parse(env, p, i).value) > 1 + Width(Parse(env, p, next).value)
  {
    LongBracketEnds(env, p, i);
    ReachingWidens(env, p, k, next);
    assert IsSpecial('[') && !ParseElement(env, p, i).value.0.Run?;
  }

  lemma SameEndIsSameShape(env: Env, p: CString, i: nat)
    requires env.Sane() && i < |p| && p[i] == '[' && ParseElement(env, p, i).Some? && Posix.ReadElement(env, p, i).Some?
    requires ParseElement(env, p, i).value.1 == Posix.ReadElement(env, p, i).value.1
    ensures var (element, std) := (ParseElement(env, p, i).value.0, Posix.ReadElement(env, p, i).value.0);
            SameShape(Cons(element, Nil), Cons(std, Nil)) || (element == Set(false, []) && !std.Run?)
  {
    assert IsSpecial('[');
  }

  lemma BracketWidens(env: Env, p: CString, i: nat)
    requires env.Sane() && i < |p| && p[i] == '[' && Parse(env, p, i).Some? && Posix.Read(env, p, i).Some?
    requires Reaches(env, p, i, Posix.ReadElement(env, p, i).value.1)
    ensures var (std, next) := Posix.ReadElement(env, p, i).value;
            Parse(env, p, next).Some? && ReadsAs(Parse(env, p, i).value, std, Parse(env, p, next).value)
  {
    var (std, next) := Posix.ReadElement(env, p, i).value;
    var (element, k) := ParseElement(env, p, i).value;
    if k < next {
      ShorterBracketWidens(env, p, i, k, next);
    } else {
      SameEndIsSameShape(env, p, i);
    }
  }

  lemma OtherElementsAgree(env: Env, p: CString, i: nat)
    requires env.Sane() && i < |p| && p[i] != '['
    ensures ParseElement(env, p, i) == Posix.ReadElement(env, p, i)
  {
    assert IsSpecial('\\');
  }

  // At least as many elements that take a character, and more if the shape differs
  predicate ReadsMore(g: Glob, std: Glob) {
    Width(g) >= Width(std) && (SameShape(g, std) || HasLostOpen(g) || Width(g) > Width(std))
  }

  // In step, the matcher reads at least as many elements that take a character, and more if the shape differs.
  lemma {:induction false} MatcherReadsMore(env: Env, p: CString, i: nat)
    requires env.Sane() && i <= |p| && InStep(env, p, i) && Parse(env, p, i).Some? && Posix.Read(env, p, i).Some?
    ensures ReadsMore(Parse(env, p, i).value, Posix.Read(env, p, i).value)
    decreases |p| - i
  {
    if i < |p| {
      var (std, next) := Posix.ReadElement(env, p, i).value;
      if p[i] == '[' {
        BracketWidens(env, p, i);
      } else {
        OtherElementsAgree(env, p, i);
      }
      MatcherReadsMore(env, p, next);
      ReadsMoreBehind(Parse(env, p, i).value, Parse(env, p, next).value, std, Posix.Read(env, p, next).value);
    }
  }

  lemma ReadsMoreBehind(g: Glob, rest: Glob, std: Element, stdRest: Glob)
    requires ReadsMore(rest, stdRest) && ReadsAs(g, std, rest)
    ensures ReadsMore(g, Cons(std, stdRest))
  {
  }

  // A pattern that the matcher reads as more elements does not match where every star would have to be empty.
  lemma WiderPatternFails(env: Env, p: CString, g: Glob, std: Glob, s: CString)
    requires env.Sane() && Commitment.NoGroups(env, p, 0) && Parse(env, p, 0) == Some(g)
    requires Width(g) > Width(std) && |s| == Width(std)
    ensures !Fnmatch.Accepts(env, p, s)
  {
    Commitment.FctIsCoded(env, p, 0, g, s, 0, |s|, env.flags.period);
    if Coded(env, g, s, 0, |s|, env.flags.period) {
      CodedNeedsWidth(env, g, s, 0, env.flags.period, false);
    }
  }

  // A pattern in step that the matcher divides otherwise accepts no string of the length that the standard's elements
  // have without the stars: if it is one bracket for the standard, no single character.
  lemma DividedPatternFails(env: Env, p: CString, g: Glob, std: Glob, s: CString)
    requires env.Sane() && Commitment.NoGroups(env, p, 0) && InStep(env, p, 0)
    requires Parse(env, p, 0) == Some(g) && Posix.Read(env, p, 0) == Some(std)
    requires !SameShape(g, std) && |s| == Width(std)
    ensures !Fnmatch.Accepts(env, p, s)
  {
    MatcherReadsMore(env, p, 0);
    if HasLostOpen(g) {
      Meaning.FctIsMatches(env, p, 0, g, s, 0, |s|);
    } else {
      WiderPatternFails(env, p, g, std, s);
    }
  }

  predicate HasRun(g: Glob) {
    g.Cons? && (g.head.Run? || HasRun(g.tail))
  }

  lemma {:induction false} RunlessTakesWidth(env: Env, g: Glob, s: CString, n: nat, nlp: bool)
    requires !HasRun(g) && !env.flags.leadingDir && n <= |s| && Coded(env, g, s, n, |s|, nlp)
    ensures Width(g) == |s| - n
    decreases g
  {
    if g.Cons? {
      RunlessTakesWidth(env, g.tail, s, n + 1, NextNlp(env, g.head));
    }
  }

  // Nor does one that the matcher reads as fewer elements, if it has no star.
  lemma NarrowerPatternFails(env: Env, p: CString, g: Glob, std: Glob, s: CString)
    requires env.Sane() && Commitment.NoGroups(env, p, 0) && Parse(env, p, 0) == Some(g)
    requires Width(g) < Width(std) && |s| == Width(std) && !HasRun(g) && !env.flags.leadingDir
    ensures !Fnmatch.Accepts(env, p, s)
  {
    Commitment.FctIsCoded(env, p, 0, g, s, 0, |s|, env.flags.period);
    if Coded(env, g, s, 0, |s|, env.flags.period) {
      RunlessTakesWidth(env, g, s, 0, env.flags.period);
    }
  }

  // ----- patterns that are in step -----

  lemma {:induction false} ParseReachesEnd(env: Env, p: CString, k: nat)
    requires k <= |p| && Parse(env, p, k).Some?
    ensures Reaches(env, p, k, |p|)
    decreases |p| - k
  {
    if k < |p| {
      ParseReachesEnd(env, p, ParseElement(env, p, k).value.1);
    }
  }

  // A pattern that is one bracket for the standard
  lemma OneBracketIsInStep(env: Env, p: CString)
    requires p != [] && Parse(env, p, 0).Some?
    requires Posix.ReadElement(env, p, 0).Some? && Posix.ReadElement(env, p, 0).value.1 == |p|
    ensures InStep(env, p, 0)
  {
    ParseReachesEnd(env, p, 0);
  }

  // A pattern in which the matcher misses no name, and no slash is in a bracket under FNM_FILE_NAME
  lemma {:induction false} NamedIsInStep(env: Env, p: CString, i: nat)
    requires env.Sane() && i <= |p| && Parse(env, p, i).Some? && Posix.Read(env, p, i).Some?
    requires !HasBare(Parse(env, p, i).value) && !(env.flags.fileName && HasSlashInSet(Parse(env, p, i).value))
    ensures InStep(env, p, i)
    ensures HasLostOpen(Parse(env, p, i).value) || SameShape(Parse(env, p, i).value, Posix.Read(env, p, i).value)
    decreases |p| - i
  {
    if i < |p| {
      if p[i] == '[' {
        NamedBracketEndsAlike(env, p, i + 1);
      } else {
        OtherElementsAgree(env, p, i);
      }
      NamedIsInStep(env, p, ParseElement(env, p, i).value.1);
    }
  }

  lemma NamedBracketEndsAlike(env: Env, p: CString, i: nat)
    requires env.Sane() && i <= |p| && ParseBracket(env, p, i).Some? && Posix.ReadBracket(env, p, i).Some?
    requires var one := Cons(ParseBracket(env, p, i).value.0, Nil);
             !HasBare(one) && !(env.flags.fileName && HasSlashInSet(one))
    ensures ParseBracket(env, p, i).value.1 == Posix.ReadBracket(env, p, i).value.1
    ensures var (element, std) := (ParseBracket(env, p, i).value.0, Posix.ReadBracket(env, p, i).value.0);
            element == Set(false, []) || SameShape(Cons(element, Nil), Cons(std, Nil))
  {
    assert IsSpecial('[');
    BracketsCloseAlike(env, p, i);
    if ParseSet(env, p, i).Some? {
      SetsEndAlike(env, p, i);
      SetShowsSlash(env, p, i);
    }
  }

  // ----- a name that is missed, with no `[` behind it -----

  predicate NamesComeLast(p: CString) {
    forall x: nat, y: nat ::
      x < y < |p| && OpensName(p, x) && p[x + 1] == ':' && !ClosesName(p, x) ==> p[y] != '['
  }

  // The standard finds every bracket closed.
  predicate ClosesBrackets(g: Glob) {
    g.Cons? ==> g.head != Literal('[', false) && ClosesBrackets(g.tail)
  }

  predicate OpensNone(p: CString, k: nat) {
    forall x :: k <= x < |p| ==> p[x] != '['
  }

  lemma {:induction false} ReachesOn(env: Env, p: CString, k: nat, m: nat, e: nat)
    requires k <= m <= e <= |p| && Reaches(env, p, k, m) && Reaches(env, p, m, e)
    ensures Reaches(env, p, k, e)
    decreases m - k
  {
    if k < m {
      ReachesOn(env, p, ParseElement(env, p, k).value.1, m, e);
    }
  }

  lemma {:induction false} CharactersReach(env: Env, p: CString, k: nat, r: nat)
    requires k <= r < |p| && OpensNone(p, k) && (k < r ==> p[r - 1] != '\\')
    ensures Reaches(env, p, k, r)
    decreases r - k
  {
    if k < r {
      CharactersReach(env, p, ParseElement(env, p, k).value.1, r);
    }
  }

  lemma SingleIsElement(env: Env, p: CString, k: nat)
    requires k < |p| && p[k] != '[' && Posix.Single(env, p, k).Some?
    ensures ParseElement(env, p, k).Some? && ParseElement(env, p, k).value.1 == Posix.Single(env, p, k).value.1
  {
  }

  lemma ItemReaches(env: Env, p: CString, k: nat)
    requires k <= |p| && OpensNone(p, k) && Posix.ReadItem(env, p, k).Some?
    ensures Reaches(env, p, k, Posix.ReadItem(env, p, k).value.1)
  {
    SingleIsElement(env, p, k);
    var next := Posix.Single(env, p, k).value.1;
    if At(p, next) == '-' && At(p, next + 1) != ']' {
      SingleIsElement(env, p, next + 1);
      var end := Posix.Single(env, p, next + 1).value.1;
      assert Reaches(env, p, next + 1, end);
      assert ParseElement(env, p, next).value.1 == next + 1;
      assert Reaches(env, p, next, end);
    }
  }

  lemma {:induction false} ItemsReach(env: Env, p: CString, k: nat)
    requires k <= |p| && OpensNone(p, k) && Posix.ReadItems(env, p, k).Some?
    ensures Reaches(env, p, k, Posix.ReadItems(env, p, k).value.1)
    decreases |p| - k
  {
    ItemReaches(env, p, k);
    var next := Posix.ReadItem(env, p, k).value.1;
    if At(p, next) == ']' {
      assert Reaches(env, p, next, next + 1);
      ReachesOn(env, p, k, next, next + 1);
    } else {
      ItemsReach(env, p, next);
      ReachesOn(env, p, k, next, Posix.ReadItems(env, p, next).value.1);
    }
  }

  // From the end of the matcher's bracket on, the elements of the matcher reach the end of the standard's.
  lemma {:induction false} MissedNameReaches(env: Env, p: CString, j: nat, first: bool, rest: bool)
    requires env.Sane() && j <= |p| && NamesComeLast(p)
    requires ParseItems(env, p, j, first, rest).Some? && Posix.ReadItems(env, p, j).Some?
    ensures var (k, e) := (ParseItems(env, p, j, first, rest).value.1, Posix.ReadItems(env, p, j).value.1);
            k <= e && Reaches(env, p, k, e)
    decreases |p| - j
  {
    var (item, next) := ParseItem(env, p, j, first).value;
    if item.Bare? {
      BehindMissedName(env, p, j, first, rest);
    } else {
      ItemIsReadAlike(env, p, j, first);
      if At(p, next) != ']' {
        MissedNameReaches(env, p, next, rest, rest);
      }
    }
  }

  lemma NothingOpensBehind(p: CString, j: nat)
    requires j < |p| && NamesComeLast(p) && OpensName(p, j) && p[j + 1] == ':' && !ClosesName(p, j)
    ensures OpensNone(p, j + 1)
  {
  }

  lemma BareOpensAName(env: Env, p: CString, j: nat, lenient: bool)
    requires j < |p| && ParseItem(env, p, j, lenient).Some? && ParseItem(env, p, j, lenient).value.0.Bare?
    requires Posix.ReadItem(env, p, j).Some?
    ensures (env.flags.noEscape || p[j] != '\\') && OpensName(p, j) && p[j + 1] == ':' && !ClosesName(p, j)
    ensures ParseItem(env, p, j, lenient).value.1 == j + 1
  {
  }

  lemma NameEnds(env: Env, p: CString, j: nat)
    requires j < |p| && OpensName(p, j) && p[j + 1] == ':' && Posix.ReadItem(env, p, j).Some?
    ensures var m := Posix.ReadItem(env, p, j).value.1; j + 2 < m <= |p| && p[m - 1] == ']' && p[m - 2] == ':'
  {
  }

  lemma MissedName(env: Env, p: CString, j: nat, first: bool, rest: bool) returns (m: nat)
    requires j < |p| && NamesComeLast(p)
    requires ParseItems(env, p, j, first, rest).Some? && Posix.ReadItem(env, p, j).Some?
    requires ParseItem(env, p, j, first).value.0.Bare?
    ensures m == Posix.ReadItem(env, p, j).value.1 && j + 2 < m <= |p| && p[m - 1] == ']' && p[m - 2] == ':'
    ensures OpensNone(p, j + 1)
    ensures ParseItems(env, p, j + 1, rest, rest).Some?
    ensures ParseItems(env, p, j + 1, rest, rest).value.1 == ParseItems(env, p, j, first, rest).value.1
  {
    BareOpensAName(env, p, j, first);
    NameEnds(env, p, j);
    NothingOpensBehind(p, j);
    m := Posix.ReadItem(env, p, j).value.1;
  }

  // From k, where the matcher's bracket ends, behind the name, which ends at m
  lemma NameReaches(env: Env, p: CString, k: nat, m: nat)
    requires 2 <= m <= |p| && k <= m && OpensNone(p, k) && p[m - 1] == ']' && p[m - 2] == ':'
    ensures Reaches(env, p, k, m)
  {
    if k < m {
      CharactersReach(env, p, k, m - 1);
      assert Reaches(env, p, m - 1, m);
      ReachesOn(env, p, k, m - 1, m);
    }
  }

  lemma NameThenRest(env: Env, p: CString, k: nat, m: nat, e: nat)
    requires 2 <= m <= e <= |p| && k <= m && OpensNone(p, k) && p[m - 1] == ']' && p[m - 2] == ':'
    requires Reaches(env, p, m, e)
    ensures Reaches(env, p, k, e)
  {
    NameReaches(env, p, k, m);
    ReachesOn(env, p, k, m, e);
  }

  lemma RestReaches(env: Env, p: CString, j: nat)
    requires j < |p| && OpensNone(p, j + 1) && Posix.ReadItems(env, p, j).Some?
    ensures var (m, e) := (Posix.ReadItem(env, p, j).value.1, Posix.ReadItems(env, p, j).value.1);
            m <= e && Reaches(env, p, m, e)
  {
    var (m, e) := (Posix.ReadItem(env, p, j).value.1, Posix.ReadItems(env, p, j).value.1);
    if At(p, m) == ']' {
      assert ParseElement(env, p, m).value.1 == e;
    } else {
      ItemsReach(env, p, m);
    }
  }

  lemma BehindMissedName(env: Env, p: CString, j: nat, first: bool, rest: bool)
    requires j < |p| && NamesComeLast(p)
    requires ParseItems(env, p, j, first, rest).Some? && Posix.ReadItems(env, p, j).Some?
    requires ParseItem(env, p, j, first).value.0.Bare?
    ensures var (k, e) := (ParseItems(env, p, j, first, rest).value.1, Posix.ReadItems(env, p, j).value.1);
            k <= e && Reaches(env, p, k, e)
  {
    var m := MissedName(env, p, j, first, rest);
    BracketMeaning.ItemsEndBy(env, p, j + 1, m - 1, rest);
    RestReaches(env, p, j);
    NameThenRest(env, p, ParseItems(env, p, j, first, rest).value.1, m, Posix.ReadItems(env, p, j).value.1);
  }

  lemma BracketReaches(env: Env, p: CString, i: nat)
    requires env.Sane() && i < |p| && p[i] == '[' && NamesComeLast(p)
    requires Parse(env, p, i).Some? && Posix.Read(env, p, i).Some? && ClosesBrackets(Posix.Read(env, p, i).value)
    ensures Reaches(env, p, i, Posix.ReadElement(env, p, i).value.1)
  {
    assert IsSpecial('[');
    var negated := Bracket.Negated(env.locale, p, i + 1);
    var j := if negated then i + 2 else i + 1;
    if ParseSet(env, p, i + 1).None? {
      OpenIsReadAlike(env, p, j);
    } else {
      MissedNameReaches(env, p, j, true, negated);
    }
  }

  lemma {:induction false} ReachingParses(env: Env, p: CString, k: nat, e: nat)
    requires k <= e <= |p| && Parse(env, p, k).Some? && Reaches(env, p, k, e)
    ensures Parse(env, p, e).Some?
    decreases e - k
  {
    if k < e {
      ReachingParses(env, p, ParseElement(env, p, k).value.1, e);
    }
  }

  // A pattern with no `[` behind a missed name
  lemma {:induction false} NamesLastIsInStep(env: Env, p: CString, i: nat)
    requires env.Sane() && i <= |p| && NamesComeLast(p)
    requires Parse(env, p, i).Some? && Posix.Read(env, p, i).Some? && ClosesBrackets(Posix.Read(env, p, i).value)
    ensures InStep(env, p, i)
    decreases |p| - i
  {
    if i < |p| {
      if p[i] == '[' {
        BracketReaches(env, p, i);
      } else {
        OtherElementsAgree(env, p, i);
      }
      var next := Posix.ReadElement(env, p, i).value.1;
      ReachingParses(env, p, i, next);
      NamesLastIsInStep(env, p, next);
    }
  }
}
