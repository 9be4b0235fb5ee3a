/**
  Inputs that show why the conditions in Meaning, Reading and GroupEnd are there: on
  each of them the matcher departs from the standard's relation or from itself.
*/
module Surprises {
  import opened Wrappers
  import opened Text
  import opened Glob
  import opened Reading
  import opened Fnmatch
  import opened Placement
  import Bracket
  import BracketMeaning
  import Group
  import Commitment
  import Converse
  import Meaning
  import Posix
  import Slashes
  import StarGroup
  import Alternatives
  import GroupEnd
  import opened Agreement

  const DEFAULT := Flags(false, false, false, false, false, false)

  // `*\/` does not match `a/` under FNM_FILE_NAME.
  lemma StarQuotedSlash(locale: Locale)
    ensures var env := Env(DEFAULT.(fileName := true), locale);
            && Fct(env, "*\\/", 0, "a/", 0, 2, false, false) == NoMatch
            && Posix.Read(env, "*\\/", 0).Some? && Matches(env, Posix.Read(env, "*\\/", 0).value, "a/", 0, 2)
  {
    var env := Env(DEFAULT.(fileName := true), locale);
    var p: CString := "*\\/";
    var tail := Cons(Literal('/', true), Nil);
    assert Parse(env, p, 3) == Some(Nil);
    assert Parse(env, p, 1) == Some(tail);
    assert Parse(env, p, 0) == Some(Cons(Run, tail));
    assert Posix.Read(env, p, 1) == Some(tail) && Posix.Read(env, p, 0) == Some(Cons(Run, tail));
    Meaning.FctIsMatches(env, p, 0, Cons(Run, tail), "a/", 0, 2);
    assert Matches(env, Nil, "a/", 2, 2);
    assert AllWild(env, "a/", 0, 1) && Matches(env, tail, "a/", 1, 2);
  }

  // `\/*` matches `/.x` under FNM_FILE_NAME | FNM_PERIOD: an escaped slash protects no period.
  lemma QuotedSlashHidesPeriod(locale: Locale)
    ensures var env := Env(DEFAULT.(fileName := true, period := true), locale);
            && Fct(env, "\\/*", 0, "/.x", 0, 3, true, false) == Match
            && Posix.Read(env, "\\/*", 0).Some? && !Matches(env, Posix.Read(env, "\\/*", 0).value, "/.x", 0, 3)
  {
    var env := Env(DEFAULT.(fileName := true, period := true), locale);
    var p: CString := "\\/*";
    var tail := Cons(Run, Nil);
    assert Parse(env, p, 3) == Some(Nil);
    assert Parse(env, p, 2) == Some(tail);
    assert Parse(env, p, 0) == Some(Cons(Literal('/', true), tail));
    assert Posix.Read(env, p, 2) == Some(tail) && Posix.Read(env, p, 0) == Some(Cons(Literal('/', true), tail));
    Commitment.FctIsCoded(env, p, 0, Cons(Literal('/', true), tail), "/.x", 0, 3, true);
    assert AllWild(env, "/.x", 1, 3);
    assert CodedRun(env, Nil, "/.x", 1, 3, false);
    assert Coded(env, tail, "/.x", 1, 3, false);
    assert LeadingDot(env, "/.x", 1, 3);
  }

  // `*?[.]` does not match `a.` under FNM_PERIOD, although that period leads nothing.
  lemma StarAnySet(locale: Locale)
    ensures var env := Env(DEFAULT.(period := true), locale);
            && Fct(env, "*?[.]", 0, "a.", 0, 2, true, false) != Match
            && Posix.Read(env, "*?[.]", 0).Some? && Matches(env, Posix.Read(env, "*?[.]", 0).value, "a.", 0, 2)
  {
    var env := Env(DEFAULT.(period := true), locale);
    var p: CString := "*?[.]";
    var dot := Set(false, [One('.')]);
    var tail := Cons(dot, Nil);
    assert Parse(env, p, 5) == Some(Nil);
    assert ParseRange(env, p, 4, '.', true) == Some((One('.'), 4));
    assert ParseItem(env, p, 3, true) == Some((One('.'), 4));
    assert ParseItems(env, p, 3, true, false) == Some(([One('.')], 5));
    assert ParseElement(env, p, 2) == Some((dot, 5));
    assert Parse(env, p, 2) == Some(tail);
    assert Parse(env, p, 1) == Some(Cons(AnyOne, tail));
    var g := Cons(Run, Cons(AnyOne, tail));
    assert Parse(env, p, 0) == Some(g);
    StarAnySetIsRead(env, p);
    Commitment.FctIsCoded(env, p, 0, g, "a.", 0, 2, true);
    assert !CodedRun(env, tail, "a.", 1, 2, true);
    assert One('.') in dot.items && ItemHolds(env, One('.'), '.');
    assert Matches(env, Nil, "a.", 2, 2);
    assert Matches(env, tail, "a.", 1, 2);
    assert AllWild(env, "a.", 0, 0) && Matches(env, Cons(AnyOne, tail), "a.", 0, 2);
  }

  lemma StarAnySetIsRead(env: Env, p: CString)
    requires env.flags == DEFAULT.(period := true) && p == "*?[.]"
    ensures Posix.Read(env, p, 0) == Some(Cons(Run, Cons(AnyOne, Cons(Set(false, [One('.')]), Nil))))
  {
    assert Posix.ReadItems(env, p, 3) == Some(([One('.')], 5));
    assert Posix.Read(env, p, 2) == Some(Cons(Set(false, [One('.')]), Nil));
    assert Posix.Read(env, p, 1) == Some(Cons(AnyOne, Cons(Set(false, [One('.')]), Nil)));
  }

  // `a[b/c]d` matches `abd` under FNM_FILE_NAME, although a slash is found before a bracket.
  lemma SlashInBracket(env: Env, p: CString, s: CString)
    requires env.Sane() && env.flags == DEFAULT.(fileName := true) && p == "a[b/c]d" && s == "abd"
    ensures Fct(env, p, 0, s, 0, 3, false, false) == Match
    ensures Posix.Read(env, p, 0).Some? && !Matches(env, Posix.Read(env, p, 0).value, s, 0, 3)
  {
    var items := SlashPatternParses(env);
    SlashPatternIsRead(env, p);
    AcceptsAbd(env, items);
    var g := Cons(Literal('a', false), Cons(Set(false, items), Cons(Literal('d', false), Nil)));
    Commitment.FctIsCoded(env, p, 0, g, s, 0, 3, false);
    Slashes.SlashInSetIsMisread(env, p, 0, s, 0, 3, false);
  }

  lemma AcceptsAbd(env: Env, items: seq<Item>)
    requires env.Sane() && env.flags == DEFAULT.(fileName := true) && One('b') in items && One('/') in items
    ensures var g := Cons(Literal('a', false), Cons(Set(false, items), Cons(Literal('d', false), Nil)));
            Coded(env, g, "abd", 0, 3, false) && HasSlashInSet(g)
  {
    assert ItemHolds(env, One('b'), 'b') && IsSlash(One('/'));
    assert Coded(env, Nil, "abd", 3, 3, false);
    assert Coded(env, Cons(Literal('d', false), Nil), "abd", 2, 3, false);
  }

  lemma SlashPatternParses(env: Env) returns (items: seq<Item>)
    requires env.flags == DEFAULT.(fileName := true)
    ensures One('b') in items && One('/') in items
    ensures Parse(env, "a[b/c]d", 0)
            == Some(Cons(Literal('a', false), Cons(Set(false, items), Cons(Literal('d', false), Nil))))
  {
    items := SlashSetParses(env);
    assert Parse(env, "a[b/c]d", 6) == Some(Cons(Literal('d', false), Nil));
    assert "a[b/c]d"[5] == ']';
    assert Parse(env, "a[b/c]d", 1) == Some(Cons(Set(false, items), Cons(Literal('d', false), Nil)));
  }

  lemma SlashSetParses(env: Env) returns (items: seq<Item>)
    requires env.flags == DEFAULT.(fileName := true)
    ensures ParseSet(env, "a[b/c]d", 2) == Some((Set(false, items), 6)) && One('b') in items && One('/') in items
  {
    var p: CString := "a[b/c]d";
    assert ParseItems(env, p, 4, false, false) == Some(([One('c')], 6));
    items := [One('b')] + ([One('/')] + [One('c')]);
    assert ParseItems(env, p, 3, false, false) == Some(([One('/')] + [One('c')], 6));
    assert ParseItems(env, p, 2, true, false) == Some((items, 6));
    assert items[0] == One('b') && items[1] == One('/');
  }

  lemma SlashSetIsRead(env: Env, p: CString)
    requires env.flags == DEFAULT.(fileName := true) && p == "a[b/c]d"
    ensures Posix.ReadSet(env, p, 2).Some? && Posix.ReadSet(env, p, 2).value.1 == 6
  {
    assert Posix.ReadItems(env, p, 4).Some? && Posix.ReadItems(env, p, 4).value.1 == 6;
    assert Posix.ReadItems(env, p, 3).Some? && Posix.ReadItems(env, p, 3).value.1 == 6;
  }

  lemma SlashPatternIsRead(env: Env, p: CString)
    requires env.flags == DEFAULT.(fileName := true) && p == "a[b/c]d"
    ensures Posix.Read(env, p, 0).Some?
  {
    SlashSetIsRead(env, p);
    assert p[2..6][1] == '/';
    assert Posix.Read(env, p, 6).Some?;
    assert Posix.Read(env, p, 4).Some?;
    assert Posix.Read(env, p, 2).Some?;
  }

  // `[[` does not match itself: the first `[`, which has no end, finds the second among its items.
  lemma OpenBracket(env: Env, p: CString)
    requires env.Sane() && !env.flags.period && !env.flags.extMatch && p == "[["
    ensures Fct(env, p, 0, p, 0, 2, false, false) != Match
    ensures Posix.Read(env, p, 0).Some? && Matches(env, Posix.Read(env, p, 0).value, p, 0, 2)
  {
    assert IsSpecial('[');
    var last := Cons(Literal('[', false), Nil);
    assert ParseItem(env, p, 1, true) == Some((One('['), 2));
    assert Parse(env, p, 1) == Some(last);
    assert Parse(env, p, 0) == Some(Cons(Set(false, []), last));
    assert Posix.ReadElement(env, p, 1) == Some((Literal('[', false), 2));
    assert Posix.Read(env, p, 1) == Some(last);
    assert Posix.ReadElement(env, p, 0) == Some((Literal('[', false), 1));
    Meaning.FctMeaning(env, p, 0, Cons(Set(false, []), last), Cons(Literal('[', false), last), p, 0, 2);
    assert p[0] == '[' && p[1] == '[' && env.Fold('[') == '[';
    assert Fits(env, last.head, p, 0, 2) && Fits(env, last.head, p, 1, 2);
    assert Matches(env, Nil, p, 2, 2);
    assert Matches(env, last, p, 1, 2);
  }

  // A pattern that is one bracket with one item, and a string of one character
  lemma OneItem(env: Env, p: CString, item: Item, std: Item, ch: char)
    requires env.Sane() && !env.flags.period && !env.flags.fileName && !env.flags.extMatch && ch != '\0'
    requires Parse(env, p, 0) == Some(Cons(Set(false, [item]), Nil))
    requires Posix.Read(env, p, 0) == Some(Cons(Set(false, [std]), Nil))
    ensures Fct(env, p, 0, [ch], 0, 1, false, false) == Match <==> ItemHolds(env, item, ch)
    ensures Matches(env, Posix.Read(env, p, 0).value, [ch], 0, 1) <==> ItemHolds(env, std, ch)
  {
    var s: CString := [ch];
    Commitment.FctIsCoded(env, p, 0, Cons(Set(false, [item]), Nil), s, 0, 1, false);
    assert [item][0] in [item] && [std][0] in [std];
    assert InItems(env, [item], ch) <==> ItemHolds(env, item, ch);
    assert InItems(env, [std], ch) <==> ItemHolds(env, std, ch);
    assert Coded(env, Nil, s, 1, 1, false) && Matches(env, Nil, s, 1, 1);
  }

  // `[A-Z]` matches nothing under FNM_CASEFOLD: the start of the range is folded, its end is not.
  lemma FoldedRange(env: Env, ch: char)
    requires env.Sane() && env.flags == DEFAULT.(caseFold := true) && ch != '\0'
    requires env.Fold('A') == 'a' && env.Fold('Z') == 'z'
    ensures Fct(env, "[A-Z]", 0, [ch], 0, 1, false, false) != Match
    ensures Posix.Read(env, "[A-Z]", 0).Some?
    ensures Matches(env, Posix.Read(env, "[A-Z]", 0).value, [ch], 0, 1) <==> 'a' <= env.Fold(ch) <= 'z'
  {
    var p: CString := "[A-Z]";
    assert ParseItem(env, p, 1, true) == Some((Range('a', 'Z'), 4));
    assert ParseItems(env, p, 1, true, false) == Some(([Range('a', 'Z')], 5));
    assert Parse(env, p, 0) == Some(Cons(Set(false, [Range('a', 'Z')]), Nil));
    assert Posix.ReadItem(env, p, 1) == Some((Range('a', 'z'), 4));
    assert Posix.ReadItems(env, p, 1) == Some(([Range('a', 'z')], 5));
    assert Posix.Read(env, p, 0) == Some(Cons(Set(false, [Range('a', 'z')]), Nil));
    OneItem(env, p, Range('a', 'Z'), Range('a', 'z'), ch);
  }

  // `[[:upper:]]` tests the character as it is, also under FNM_CASEFOLD.
  lemma ClassInOneCase(env: Env, p: CString, ch: char)
    requires env.Sane() && env.flags == DEFAULT.(caseFold := true) && p == "[[:upper:]]" && ch != '\0'
    requires env.locale.isClass("upper") && env.locale.classMaxLength > 6
    ensures Fct(env, p, 0, [ch], 0, 1, false, false) == Match <==> env.locale.inClass("upper", ch)
    ensures Posix.Read(env, p, 0).Some?
    ensures Matches(env, Posix.Read(env, p, 0).value, [ch], 0, 1)
            <==> exists c: char :: env.Fold(c) == env.Fold(ch) && env.locale.inClass("upper", c)
  {
    UpperParses(env, p);
    UpperIsRead(env, p);
    OneItem(env, p, Named("upper"), InAnyCase("upper"), ch);
  }

  lemma UpperParses(env: Env, p: CString)
    requires env.flags == DEFAULT.(caseFold := true) && p == "[[:upper:]]"
    requires env.locale.isClass("upper") && env.locale.classMaxLength > 6
    ensures Parse(env, p, 0) == Some(Cons(Set(false, [Named("upper")]), Nil))
  {
    assert NameEnd(p, 7) == 8 && NameEnd(p, 5) == 8 && NameEnd(p, 3) == 8 && p[3..8] == "upper";
    assert ParseItem(env, p, 1, true) == Some((Named("upper"), 10));
    assert ParseItems(env, p, 1, true, false) == Some(([Named("upper")], 11));
  }

  lemma UpperIsRead(env: Env, p: CString)
    requires env.flags == DEFAULT.(caseFold := true) && p == "[[:upper:]]" && env.locale.isClass("upper")
    ensures Posix.Read(env, p, 0) == Some(Cons(Set(false, [InAnyCase("upper")]), Nil))
  {
    assert Posix.NameClose(p, 7) == Some(8) && Posix.NameClose(p, 5) == Some(8) && Posix.NameClose(p, 3) == Some(8);
    assert p[3..8] == "upper";
    assert Posix.ReadItem(env, p, 1) == Some((InAnyCase("upper"), 10));
    assert Posix.ReadItems(env, p, 1) == Some(([InAnyCase("upper")], 11));
  }

  // A class with a `z` in its name is not taken for one: `[[:z:]]` needs a second character.
  lemma ClassNameWithZ(env: Env, ch: char)
    requires env.Sane() && env.flags == DEFAULT && ch != '\0' && env.locale.isClass("z")
    ensures Fct(env, "[[:z:]]", 0, [ch], 0, 1, false, false) != Match
    ensures Posix.Read(env, "[[:z:]]", 0).Some?
    ensures Matches(env, Posix.Read(env, "[[:z:]]", 0).value, [ch], 0, 1) <==> env.locale.inClass("z", ch)
  {
    var set' := ClassNameWithZParses(env);
    ClassNameWithZIsRead(env, ch);
    TwoElementsNeedTwo(env, "[[:z:]]", set', Literal(']', false), ch);
  }

  lemma TwoElementsNeedTwo(env: Env, p: CString, first: Element, second: Element, ch: char)
    requires env.Sane() && Commitment.NoGroups(env, p, 0) && ch != '\0' && !first.Run? && !second.Run?
    requires Parse(env, p, 0) == Some(Cons(first, Cons(second, Nil)))
    ensures Fct(env, p, 0, [ch], 0, 1, false, false) != Match
  {
    Commitment.FctIsCoded(env, p, 0, Cons(first, Cons(second, Nil)), [ch], 0, 1, false);
  }

  lemma ClassNameWithZParses(env: Env) returns (set': Element)
    requires env.flags == DEFAULT
    ensures set'.Set? && Parse(env, "[[:z:]]", 0) == Some(Cons(set', Cons(Literal(']', false), Nil)))
  {
    var p: CString := "[[:z:]]";
    assert NameEnd(p, 3) == 3;
    assert ParseItem(env, p, 1, true) == Some((Bare('['), 2));
    assert ParseItems(env, p, 4, false, false).Some? && ParseItems(env, p, 4, false, false).value.1 == 6;
    assert ParseItems(env, p, 3, false, false).Some? && ParseItems(env, p, 3, false, false).value.1 == 6;
    assert ParseItems(env, p, 2, false, false).Some? && ParseItems(env, p, 2, false, false).value.1 == 6;
    set' := ParseSet(env, p, 1).value.0;
    assert Parse(env, p, 6) == Some(Cons(Literal(']', false), Nil));
  }

  lemma ClassNameWithZIsRead(env: Env, ch: char)
    requires env.flags == DEFAULT && ch != '\0' && env.locale.isClass("z")
    ensures Posix.Read(env, "[[:z:]]", 0).Some?
    ensures Matches(env, Posix.Read(env, "[[:z:]]", 0).value, [ch], 0, 1) <==> env.locale.inClass("z", ch)
  {
    var (p: CString, s: CString, item) := ("[[:z:]]", [ch], InAnyCase("z"));
    assert p[3..4] == "z" && Posix.NameClose(p, 3) == Some(4);
    assert Posix.ReadItem(env, p, 1) == Some((item, 6));
    assert Posix.ReadItems(env, p, 1) == Some(([item], 7));
    assert Posix.Read(env, p, 0) == Some(Cons(Set(false, [item]), Nil));
    assert [item][0] in [item];
    assert InItems(env, [item], ch) <==> ItemHolds(env, item, ch);
    assert Matches(env, Nil, s, 1, 1);
  }

  // `[a[:f:]b]` with a class that the locale does not have accepts `a` and rejects `b`.
  lemma UnknownClass(env: Env, p: CString)
    requires env.flags == DEFAULT && p == "[a[:f:]b]" && !env.locale.isClass("f") && env.locale.classMaxLength > 2
    ensures Bracket.Step(env, p, 1, 'a') == Bracket.Accept(9) && Bracket.Step(env, p, 1, 'b') == Bracket.Reject
  {
    assert NameEnd(p, 4) == 5 && p[4..5] == "f";
    assert ParseItem(env, p, 2, true) == None;
    assert ParseItem(env, p, 1, true) == Some((One('a'), 2));
    assert BracketMeaning.BreaksOff(env, p, 2) && BracketMeaning.BreaksOff(env, p, 1);
    assert BracketMeaning.BehindHolder(env, p, 2, 'b') == None;
    BracketMeaning.BrokenBracketRejects(env, p, 1, 'a');
    BracketMeaning.BrokenBracketRejects(env, p, 1, 'b');
    BracketMeaning.SkipName(env, p, 2);
    assert Bracket.Skip(env, p, 7) == Bracket.Accept(9);
  }

  // A range that ends at `[` of `[:a:]`: where the bracket closes depends on the character it is tried on.
  lemma TwoEnds(locale: Locale)
    requires locale.classMaxLength > 2
    ensures var env := Env(DEFAULT, locale);
            && Bracket.Step(env, "[xA-[:a:]]", 1, 'x') == Bracket.Accept(10)
            && Bracket.Step(env, "[xA-[:a:]]", 1, 'B') == Bracket.Accept(9)
            && ParseSet(env, "[xA-[:a:]]", 1) == None
  {
  }

  // END skips the character behind a nested group, here the parenthesis that closes the outer one.
  lemma EndMissesTheParenthesis(locale: Locale)
    ensures Group.SplitGroup(locale, "(a|+(b))c", 0).Some? && Group.SplitGroup(locale, "(a|+(b))c", 0).value.rest == 8
    ensures Group.End(locale, "(a|+(b))c", 0) == 0
  {
    var p: CString := "(a|+(b))c";
    assert Group.SplitFrom(locale, p, 3, 7, 0).Some?;
    assert Group.SplitFrom(locale, p, 3, 6, 1) == Group.SplitFrom(locale, p, 3, 7, 0);
    assert Group.SplitFrom(locale, p, 3, 5, 1) == Group.SplitFrom(locale, p, 3, 6, 1);
    assert Group.SplitFrom(locale, p, 3, 4, 1) == Group.SplitFrom(locale, p, 3, 5, 1);
    assert Group.SplitFrom(locale, p, 3, 3, 0) == Group.SplitFrom(locale, p, 3, 4, 1);
    assert Group.SplitFrom(locale, p, 1, 2, 0).Some?;
    assert Group.SplitFrom(locale, p, 1, 1, 0) == Group.SplitFrom(locale, p, 1, 2, 0);
    assert Group.EndFrom(locale, p, 4) == Group.EndFrom(locale, p, 5) == Some(7);
    assert Group.EndFrom(locale, p, 8) == None;
    assert Group.EndFrom(locale, p, 7) == None;
    assert Group.EndFrom(locale, p, 2) == None;
    assert Group.EndFrom(locale, p, 1) == None;
  }

  // Two misses can cancel: here END steps over the parenthesis of `+(a+(b))` and over the operator of `@(e)`, and ends
  // the outer group where EXT does.
  lemma MissesCancel(locale: Locale, p: CString)
    requires p == "(+(a+(b))+(d)@(e)x)"
    ensures Group.SplitGroup(locale, p, 0).Some? && Group.SplitGroup(locale, p, 0).value.rest == 19
    ensures Group.End(locale, p, 0) == 19 && !GroupEnd.IsTame(locale, p, 1)
  {
    assert IsCancelling(locale, p);
    CancelledIsNotTame(locale, p);
    CancelledEnd(locale, p);
    GroupEnd.ClosingIsBehindClose(locale, p, 0);
  }

  lemma CancelledIsNotTame(locale: Locale, p: CString)
    requires IsCancelling(locale, p)
    ensures Alternatives.Close(locale, p, 1) == Some(18) && !GroupEnd.IsTame(locale, p, 1)
  {
    CancelledClose(locale, p);
    GroupEnd.TameAtOperator(locale, p, 4);
    GroupEnd.CharacterIsSkipped(locale, p, 3, 1);
    GroupEnd.TameAtOperator(locale, p, 1);
  }

  lemma CloseBehind(locale: Locale, p: CString, j: nat)
    requires 0 < j && j + 1 < |p| && p[j] != '[' && p[j] != ')' && !Group.OpensGroup(p, j) && p[j + 1] == ')'
    ensures Alternatives.Close(locale, p, j) == Some(j + 1)
  {
  }

  predicate IsCancelling(locale: Locale, p: CString) {
    && |p| == 19
    && Group.OpensGroup(p, 1) && Group.OpensGroup(p, 4) && Group.OpensGroup(p, 9) && Group.OpensGroup(p, 13)
    && p[7] == p[8] == p[12] == p[16] == p[18] == ')' && p[14] == '('
    && GroupEnd.IsPassable(locale, p, 3) && GroupEnd.IsPassable(locale, p, 6) && GroupEnd.IsPassable(locale, p, 11)
    && GroupEnd.IsPassable(locale, p, 15) && GroupEnd.IsPassable(locale, p, 17)
  }

  lemma CancelledClose(locale: Locale, p: CString)
    requires IsCancelling(locale, p)
    ensures Alternatives.Close(locale, p, 6) == Some(7) && Alternatives.Close(locale, p, 1) == Some(18)
  {
    CloseBehind(locale, p, 6);
    CloseBehind(locale, p, 11);
    CloseBehind(locale, p, 15);
    CloseBehind(locale, p, 17);
    GroupEnd.ClosePassesAGroup(locale, p, 4);
    GroupEnd.CharacterIsSkipped(locale, p, 3, 1);
    assert Alternatives.Close(locale, p, 8) == Some(8);
    GroupEnd.ClosePassesAGroup(locale, p, 13);
    GroupEnd.ClosePassesAGroup(locale, p, 9);
    GroupEnd.ClosePassesAGroup(locale, p, 1);
  }

  lemma CancelledEnd(locale: Locale, p: CString)
    requires IsCancelling(locale, p)
    ensures Group.EndFrom(locale, p, 0) == Some(19)
  {
    assert Group.EndFrom(locale, p, 6) == Some(8) && Group.EndFrom(locale, p, 5) == Some(8);
    assert Group.EndFrom(locale, p, 11) == Some(13) && Group.EndFrom(locale, p, 10) == Some(13);
    assert Group.EndFrom(locale, p, 15) == Some(17) && Group.EndFrom(locale, p, 14) == Some(17);
    assert Group.EndFrom(locale, p, 13) == Some(17);
    assert Group.EndFrom(locale, p, 8) == Some(17);
    assert Group.EndFrom(locale, p, 3) == Some(17);
    assert Group.EndFrom(locale, p, 2) == Some(17);
    assert Group.EndFrom(locale, p, 17) == Some(19);
  }

  // `*?(+(b))` does not match the empty string: END does not end the group, and the `?` takes a character.
  lemma MissedBehindStar(env: Env, p: CString, s: CString)
    requires env.Sane() && env.flags == DEFAULT.(extMatch := true) && p == "*?(+(b))" && s == ""
    ensures Fct(env, p, 0, s, 0, 0, false, false) == NoMatch
  {
    assert IsSpecial('*');
    assert Group.EndFrom(env.locale, p, 5) == Some(7) && Group.EndFrom(env.locale, p, 4) == Some(7);
    assert Group.EndFrom(env.locale, p, 7) == None;
    assert Group.End(env.locale, p, 2) == 2;
    assert SkipWildcards(env, p, 1, s, 0, 0) == None;
    assert LoopTurn(env, p, 0, s, 0, 0, false, false) == Star(env, p, 1, s, 0, 0, false) == Return(NoMatch);
  }

  // `*@(|b)` does not match `a`: the group, which matches nothing at all, is not tried behind it.
  lemma EmptyGroupBehindStar(env: Env, p: CString, s: CString)
    requires env.Sane() && env.flags == DEFAULT.(extMatch := true) && p == "*@(|b)" && s == "a"
    ensures Fct(env, p, 0, s, 0, 1, false, false) != Match && Fct(env, p, 1, s, 1, 1, false, false) == Match
  {
    EmptyOrB(env, p);
    ChoiceOfEmptyOrB(env, p, s, 0);
    ChoiceOfEmptyOrB(env, p, s, 1);
    assert env.Inner() == env && IsSpecial('@');
    StarGroup.StarFindsGroup(env, p, 0, s, 0, 1, false);
    StarGroup.FirstPlaceOrLater(env, p, 1, s, 0, 1, 1, false);
  }

  lemma EmptyOrB(env: Env, p: CString)
    requires p == "*@(|b)"
    ensures Group.SplitGroup(env.locale, p, 2) == Some(Group.Split(["", "b"], 6))
  {
    assert p[3..3] == "" && p[4..5] == "b";
    assert Group.SplitFrom(env.locale, p, 4, 5, 0) == Some(Group.Split(["b"], 6));
    assert Group.SplitFrom(env.locale, p, 4, 4, 0) == Some(Group.Split(["b"], 6));
    assert [""] + ["b"] == ["", "b"];
  }

  lemma ChoiceOfEmptyOrB(env: Env, p: CString, s: CString, n: nat)
    requires env.Sane() && env.flags == DEFAULT.(extMatch := true) && p == "*@(|b)" && s == "a" && n <= 1
    ensures Ext(env, '@', p, 2, s, n, 1, false) == Some(n == 1)
  {
    EmptyOrB(env, p);
    var (empty: CString, b: CString) := ("", "b");
    assert env.Inner() == env && empty + p[6..] == empty && b + p[6..] == b;
    EmptyOrBOn(env, empty, b, s, n);
    var split := Group.SplitGroup(env.locale, p, 2).value;
    assert split.alts[0] + p[split.rest..] == empty && split.alts[1] + p[split.rest..] == b;
    assert Choice(env, p, 2, split, s, n, 1, false) == (n == 1);
    assert Fct(env, p, split.rest, s, n, 1, false, false) == if n == 1 then Match else NoMatch;
  }

  lemma EmptyOrBOn(env: Env, empty: CString, b: CString, s: CString, n: nat)
    requires env.Sane() && env.flags == DEFAULT.(extMatch := true) && empty == "" && b == "b" && s == "a" && n <= 1
    ensures Fct(env, empty, 0, s, n, 1, false, false) == (if n == 1 then Match else NoMatch)
    ensures Fct(env, b, 0, s, n, 1, false, false) == NoMatch
  {
    assert Step(env, b, 0, s, n, 1, false) == None;
  }

  // ----- where two departures cancel -----

  // `[a-zA-Z]` is right under FNM_CASEFOLD: the second range is misread, but the first holds the same characters.
  lemma BothRanges(env: Env, p: CString)
    requires env.Sane() && env.flags == DEFAULT.(caseFold := true) && p == "[a-zA-Z]"
    requires env.Fold('a') == 'a' && env.Fold('z') == 'z' && env.Fold('A') == 'a' && env.Fold('Z') == 'z'
    ensures Parse(env, p, 0).Some? && Posix.Read(env, p, 0).Some?
    ensures Alike(env, Parse(env, p, 0).value, Posix.Read(env, p, 0).value)
    ensures !ReadsAlike(env, Parse(env, p, 0).value)
  {
    BothRangesParse(env, p);
    BothRangesAreRead(env, p);
    var (small, big) := (Range('a', 'z'), Range('a', 'Z'));
    forall ch: char ensures InItems(env, [small, big], ch) <==> InItems(env, [small, small], ch) {
      assert [small, big] == [small] + [big] && [small, small] == [small] + [small];
      InItemsCons(env, small, [big], ch);
      InItemsCons(env, small, [small], ch);
      assert InItems(env, [small], ch) <==> ItemHolds(env, small, ch) by {
        assert [small][0] in [small];
      }
    }
    assert [small, big][1] in [small, big];
  }

  lemma BothRangesParse(env: Env, p: CString)
    requires env.flags == DEFAULT.(caseFold := true) && p == "[a-zA-Z]" && env.Fold('a') == 'a' && env.Fold('A') == 'a'
    ensures Parse(env, p, 0) == Some(Cons(Set(false, [Range('a', 'z'), Range('a', 'Z')]), Nil))
  {
    assert ParseItem(env, p, 4, false) == Some((Range('a', 'Z'), 7));
    assert ParseItems(env, p, 4, false, false) == Some(([Range('a', 'Z')], 8));
    assert ParseItem(env, p, 1, true) == Some((Range('a', 'z'), 4));
    assert [Range('a', 'z')] + [Range('a', 'Z')] == [Range('a', 'z'), Range('a', 'Z')];
  }

  lemma BothRangesAreRead(env: Env, p: CString)
    requires env.flags == DEFAULT.(caseFold := true) && p == "[a-zA-Z]"
    requires env.Fold('a') == 'a' && env.Fold('z') == 'z' && env.Fold('A') == 'a' && env.Fold('Z') == 'z'
    ensures Posix.Read(env, p, 0) == Some(Cons(Set(false, [Range('a', 'z'), Range('a', 'z')]), Nil))
  {
    assert Posix.ReadItem(env, p, 4) == Some((Range('a', 'z'), 7));
    assert Posix.ReadItems(env, p, 4) == Some(([Range('a', 'z')], 8));
    assert Posix.ReadItem(env, p, 1) == Some((Range('a', 'z'), 4));
    assert [Range('a', 'z')] + [Range('a', 'z')] == [Range('a', 'z'), Range('a', 'z')];
  }

  // `[[:z:][]]` is one bracket and a `]` for the standard, and two brackets for the matcher. In a locale whose class z
  // holds `:` and `z` both mean the same.
  lemma DividedElsewhere(env: Env, p: CString, s: CString)
    requires env.Sane() && env.flags == DEFAULT && p == "[[:z:][]]" && env.locale.isClass("z")
    requires forall c: char :: env.locale.inClass("z", c) <==> c == ':' || c == 'z'
    ensures Parse(env, p, 0).Some? && Posix.Read(env, p, 0).Some?
    ensures var (g, std) := (Parse(env, p, 0).value, Posix.Read(env, p, 0).value);
            !Converse.SameShape(g, std) && (Accepts(env, p, s) <==> Matches(env, std, s, 0, |s|))
  {
    DividedParses(env, p);
    DividedIsRead(env, p);
    var (g, std) := (Parse(env, p, 0).value, Posix.Read(env, p, 0).value);
    Meaning.FctIsMatches(env, p, 0, g, s, 0, |s|);
    Meaning.NothingBlocksWithoutPeriod(env, g, false);
    forall ch: char
      ensures InItems(env, g.head.items, ch) <==> InItems(env, std.head.items, ch)
      ensures InItems(env, g.tail.head.items, ch) <==> ch == ']'
    {
      DividedHold(env, ch);
    }
    TwoElementsMatchAlike(env, g, std, s);
  }

  lemma TwoElementsMatchAlike(env: Env, g: Glob, g': Glob, s: CString)
    requires env.flags == DEFAULT
    requires g.Cons? && g.tail.Cons? && g.tail.tail.Nil? && g.head.Set? && g.tail.head.Set? && !g.tail.head.negated
    requires g'.Cons? && g'.tail == Cons(Literal(']', false), Nil) && g'.head.Set? && g'.head.negated == g.head.negated
    requires forall ch: char :: InItems(env, g.head.items, ch) <==> InItems(env, g'.head.items, ch)
    requires forall ch: char :: InItems(env, g.tail.head.items, ch) <==> ch == ']'
    ensures Matches(env, g, s, 0, |s|) <==> Matches(env, g', s, 0, |s|)
  {
    if |s| > 1 {
      assert Fits(env, g.head, s, 0, |s|) <==> Fits(env, g'.head, s, 0, |s|);
      assert Fits(env, g.tail.head, s, 1, |s|) <==> Fits(env, g'.tail.head, s, 1, |s|);
      assert Matches(env, g.tail, s, 1, |s|) <==> Matches(env, g'.tail, s, 1, |s|);
    }
  }

  lemma DividedHold(env: Env, ch: char)
    requires env.flags == DEFAULT && forall c: char :: env.locale.inClass("z", c) <==> c == ':' || c == 'z'
    ensures InItems(env, [Bare('[')] + ([One(':')] + ([One('z')] + [One(':')])), ch)
            <==> InItems(env, [InAnyCase("z")] + [One('[')], ch)
    ensures InItems(env, [One(']')], ch) <==> ch == ']'
  {
    InItemsCons(env, Bare('['), [One(':')] + ([One('z')] + [One(':')]), ch);
    InItemsCons(env, One(':'), [One('z')] + [One(':')], ch);
    InItemsCons(env, One('z'), [One(':')], ch);
    InItemsCons(env, InAnyCase("z"), [One('[')], ch);
    InItemsOne(env, One(':'), ch);
    InItemsOne(env, One('['), ch);
    InItemsOne(env, One(']'), ch);
  }

  lemma InItemsOne(env: Env, item: Item, ch: char)
    ensures InItems(env, [item], ch) <==> ItemHolds(env, item, ch)
  {
    assert [item][0] in [item];
  }

  lemma DividedParses(env: Env, p: CString)
    requires env.flags == DEFAULT && p == "[[:z:][]]"
    ensures Parse(env, p, 0)
            == Some(Cons(Set(false, [Bare('[')] + ([One(':')] + ([One('z')] + [One(':')]))),
                         Cons(Set(false, [One(']')]), Nil)))
  {
    assert NameEnd(p, 3) == 3;
    assert ParseItem(env, p, 1, true) == Some((Bare('['), 2));
    assert ParseItems(env, p, 4, false, false) == Some(([One(':')], 6));
    assert ParseItems(env, p, 3, false, false) == Some(([One('z')] + [One(':')], 6));
    assert ParseItems(env, p, 2, false, false) == Some(([One(':')] + ([One('z')] + [One(':')]), 6));
    assert ParseItems(env, p, 7, true, false) == Some(([One(']')], 9));
    assert Parse(env, p, 6) == Some(Cons(Set(false, [One(']')]), Nil));
  }

  lemma DividedIsRead(env: Env, p: CString)
    requires env.flags == DEFAULT && p == "[[:z:][]]" && env.locale.isClass("z")
    ensures Posix.Read(env, p, 0)
            == Some(Cons(Set(false, [InAnyCase("z")] + [One('[')]), Cons(Literal(']', false), Nil)))
  {
    assert p[3..4] == "z" && Posix.NameClose(p, 3) == Some(4);
    assert Posix.ReadItem(env, p, 1) == Some((InAnyCase("z"), 6));
    assert Posix.ReadItems(env, p, 6) == Some(([One('[')], 8));
    assert Posix.ReadItems(env, p, 1) == Some(([InAnyCase("z")] + [One('[')], 8));
    assert Posix.Read(env, p, 8) == Some(Cons(Literal(']', false), Nil));
  }
}
