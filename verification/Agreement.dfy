/**
  Where the matcher's reading of a pattern is that of the standard, and what follows where it is not.
*/
module Agreement {
  import opened Wrappers
  import opened Text
  import opened Glob
  import opened Reading
  import Bracket
  import Posix

  // ----- the conditions -----

  predicate IsSlash(item: Item) {
    item == One('/') || (item.Range? && (item.lo == '/' || item.hi == '/'))
  }

  predicate HasSlash(items: seq<Item>) {
    exists item :: item in items && IsSlash(item)
  }

  // A `/` inside a bracket
  predicate HasSlashInSet(g: Glob) {
    g.Cons? && ((g.head.Set? && HasSlash(g.head.items)) || HasSlashInSet(g.tail))
  }

  // A `[:`, `[=` or `[.` in a bracket that the matcher takes for characters
  predicate HasBare(g: Glob) {
    g.Cons? && ((g.head.Set? && exists item :: item in g.head.items && item.Bare?) || HasBare(g.tail))
  }

  // A `[` without an end that the matcher takes for nothing
  predicate HasLostOpen(g: Glob) {
    g.Cons? && (g.head == Set(false, []) || HasLostOpen(g.tail))
  }

  // The class does not tell characters apart that fold alike.
  ghost predicate IsCaseBlind(env: Env, name: string) {
    forall c: char, c': char ::
      env.Fold(c) == env.Fold(c') && env.locale.inClass(name, c) ==> env.locale.inClass(name, c')
  }

  // The matcher folds the start of a range but not its end, tests a class on the character as it is, and takes a `[`
  // for itself where it cannot be a name of the letters a to y.
  ghost predicate ItemReadsAlike(env: Env, item: Item) {
    match item
    case One(_) => true
    case Bare(_) => false
    case Range(_, hi) => env.Fold(hi) == hi
    case Named(name) => IsCaseBlind(env, name)
    case InAnyCase(_) => false
  }

  ghost predicate SetsReadAlike(env: Env, g: Glob) {
    g.Cons? ==>
      && (g.head.Set? ==> forall item :: item in g.head.items ==> ItemReadsAlike(env, item))
      && SetsReadAlike(env, g.tail)
  }

  ghost predicate ReadsAlike(env: Env, g: Glob) {
    SetsReadAlike(env, g) && !HasLostOpen(g) && !(env.flags.fileName && HasSlashInSet(g))
  }

  // ----- the same elements, and sets that hold the same characters -----

  // A character that strings have and that a bracket may take
  predicate IsTakeable(env: Env, ch: char) {
    ch != '\0' && !(env.flags.fileName && ch == '/')
  }

  ghost predicate HoldAlike(env: Env, items: seq<Item>, items': seq<Item>) {
    forall ch: char :: IsTakeable(env, ch) ==> (InItems(env, items, ch) <==> InItems(env, items', ch))
  }

  ghost predicate Alike(env: Env, g: Glob, g': Glob) {
    match g
    case Nil => g'.Nil?
    case Cons(head, tail) =>
      && g'.Cons? && Alike(env, tail, g'.tail)
      && if head.Set? then g'.head.Set? && head.negated == g'.head.negated && HoldAlike(env, head.items, g'.head.items)
         else g'.head == head
  }

  lemma {:induction false} AlikeMatchesAlike(env: Env, g: Glob, g': Glob, s: CString, n: nat, e: nat)
    requires Alike(env, g, g') && n <= e <= |s|
    ensures Matches(env, g, s, n, e) <==> Matches(env, g', s, n, e)
    decreases g
  {
    if g.Cons? {
      if g.head.Run? {
        forall k | n <= k <= e ensures Matches(env, g.tail, s, k, e) <==> Matches(env, g'.tail, s, k, e) {
          AlikeMatchesAlike(env, g.tail, g'.tail, s, k, e);
        }
      } else if n < e {
        AlikeMatchesAlike(env, g.tail, g'.tail, s, n + 1, e);
      }
    }
  }

  // ----- one bracket -----

  lemma {:induction false} NameClosesAtNameEnd(p: CString, k: nat)
    requires k <= |p|
    ensures var e := NameEnd(p, k); At(p, e) == ':' && At(p, e + 1) == ']' ==> Posix.NameClose(p, k) == Some(e)
    decreases |p| - k
  {
    if k < |p| && 'a' <= p[k] < 'z' {
      NameClosesAtNameEnd(p, k + 1);
    }
  }

  lemma NameIsReadAlike(env: Env, p: CString, j: nat, lenient: bool)
    requires j < |p| && (env.flags.noEscape || p[j] != '\\') && OpensName(p, j)
    requires ParseItem(env, p, j, lenient).Some? && !ParseItem(env, p, j, lenient).value.0.Bare?
    ensures Posix.ReadItem(env, p, j)
            == Some((InAnyCase(ParseItem(env, p, j, lenient).value.0.name), ParseItem(env, p, j, lenient).value.1))
  {
    NameClosesAtNameEnd(p, j + 2);
  }

  lemma RangeIsReadAlike(env: Env, p: CString, k: nat, c: char, lenient: bool)
    requires k <= |p| && ParseRange(env, p, k, c, lenient).Some?
    requires At(p, k) == '-' && At(p, k + 1) != ']' && Posix.Single(env, p, k + 1).Some?
    ensures ParseRange(env, p, k, c, lenient)
            == Some((Range(c, Posix.Single(env, p, k + 1).value.0), Posix.Single(env, p, k + 1).value.1))
  {
  }

  // Both readings of an item end at one place, and hold the same characters if the item is read alike.
  lemma ItemIsReadAlike(env: Env, p: CString, j: nat, lenient: bool)
    requires env.Sane() && j <= |p| && ParseItem(env, p, j, lenient).Some? && Posix.ReadItem(env, p, j).Some?
    requires !ParseItem(env, p, j, lenient).value.0.Bare?
    ensures var ((item, k), (item', k')) := (ParseItem(env, p, j, lenient).value, Posix.ReadItem(env, p, j).value);
            && k == k'
            && (ItemReadsAlike(env, item) ==>
                  forall ch: char :: ItemHolds(env, item, ch) <==> ItemHolds(env, item', ch))
  {
    if (env.flags.noEscape || p[j] != '\\') && OpensName(p, j) {
      NameIsReadAlike(env, p, j, lenient);
    } else {
      var (lo, k) := Posix.Single(env, p, j).value;
      if At(p, k) == '-' && At(p, k + 1) != ']' {
        RangeIsReadAlike(env, p, k, env.Fold(lo), lenient);
      }
    }
  }

  lemma {:induction false} ItemsAreReadAlike(env: Env, p: CString, j: nat, first: bool, rest: bool)
    requires env.Sane() && j <= |p| && ParseItems(env, p, j, first, rest).Some? && Posix.ReadItems(env, p, j).Some?
    requires forall item :: item in ParseItems(env, p, j, first, rest).value.0 ==> !item.Bare?
    ensures var (items, k) := ParseItems(env, p, j, first, rest).value;
            var (items', k') := Posix.ReadItems(env, p, j).value;
            k == k' && ((forall item :: item in items ==> ItemReadsAlike(env, item)) ==> HoldAlike(env, items, items'))
    decreases |p| - j
  {
    var (item, k) := ParseItem(env, p, j, first).value;
    var items := ParseItems(env, p, j, first, rest).value.0;
    assert items[0] == item;
    ItemIsReadAlike(env, p, j, first);
    var item' := Posix.ReadItem(env, p, j).value.0;
    var items' := Posix.ReadItems(env, p, j).value.0;
    if At(p, k) == ']' {
      assert items == [item] && items' == [item'];
    } else {
      var (others, others') := (ParseItems(env, p, k, rest, rest).value.0, Posix.ReadItems(env, p, k).value.0);
      assert items == [item] + others && items' == [item'] + others';
      assert forall x :: x in others ==> x in items;
      ItemsAreReadAlike(env, p, k, rest, rest);
      if forall x :: x in items ==> ItemReadsAlike(env, x) {
        HoldAlikeCons(env, item, others, item', others');
      }
    }
  }

  lemma HoldAlikeCons(env: Env, item: Item, items: seq<Item>, item': Item, items': seq<Item>)
    requires HoldAlike(env, items, items') && forall ch: char :: ItemHolds(env, item, ch) <==> ItemHolds(env, item', ch)
    ensures HoldAlike(env, [item] + items, [item'] + items')
  {
    forall ch: char | IsTakeable(env, ch)
      ensures InItems(env, [item] + items, ch) <==> InItems(env, [item'] + items', ch)
    {
      InItemsCons(env, item, items, ch);
      InItemsCons(env, item', items', ch);
    }
  }

  lemma InItemsCons(env: Env, item: Item, items: seq<Item>, ch: char)
    ensures InItems(env, [item] + items, ch) <==> ItemHolds(env, item, ch) || InItems(env, items, ch)
  {
    assert forall x :: x in [item] + items <==> x == item || x in items;
  }

  // ----- slashes in brackets -----

  lemma ItemShowsSlash(env: Env, p: CString, j: nat, lenient: bool)
    requires env.Sane() && j <= |p| && ParseItem(env, p, j, lenient).Some?
    ensures var (item, k) := ParseItem(env, p, j, lenient).value; '/' in p[j..k] <==> IsSlash(item)
  {
    var (item, k) := ParseItem(env, p, j, lenient).value;
    assert IsSpecial('/') && IsSpecial('[');
    assert forall x :: j <= x < k ==> p[j..k][x - j] == p[x];
    if IsSlash(item) {
      assert '/' in p[j..k];
    }
  }

  lemma {:induction false} ItemsShowSlash(env: Env, p: CString, j: nat, first: bool, rest: bool)
    requires env.Sane() && j <= |p| && ParseItems(env, p, j, first, rest).Some?
    ensures var (items, next) := ParseItems(env, p, j, first, rest).value; '/' in p[j..next] <==> HasSlash(items)
    decreases |p| - j
  {
    ItemShowsSlash(env, p, j, first);
    var (item, k) := ParseItem(env, p, j, first).value;
    var (items, next) := ParseItems(env, p, j, first, rest).value;
    if At(p, k) == ']' {
      assert items == [item] && p[j..next] == p[j..k] + [']'];
    } else {
      ItemsShowSlash(env, p, k, rest, rest);
      var others := ParseItems(env, p, k, rest, rest).value.0;
      assert items == [item] + others && p[j..next] == p[j..k] + p[k..next];
      assert forall x :: x in items <==> x == item || x in others;
    }
  }

  lemma SetShowsSlash(env: Env, p: CString, i: nat)
    requires env.Sane() && i <= |p| && ParseSet(env, p, i).Some?
    ensures var (set', next) := ParseSet(env, p, i).value; '/' in p[i..next] <==> HasSlash(set'.items)
  {
    var negated := Bracket.Negated(env.locale, p, i);
    var j := if negated then i + 1 else i;
    ItemsShowSlash(env, p, j, true, negated);
    var next := ParseSet(env, p, i).value.1;
    assert p[i..next] == p[i..j] + p[j..next];
  }

  // ----- brackets without an end -----

  // What the matcher reads from k on does not step over a `:]` whose `]` is at r; it may end a class there.
  lemma {:induction false} NameIsABoundary(env: Env, p: CString, k: nat, r: nat)
    requires k < r < |p| && p[r] == ']' && p[r - 1] == ':' && RunsOut(env, p, k)
    ensures At(p, r + 1) != ']' && RunsOut(env, p, r + 1)
    decreases |p| - k
  {
    var k' := ParseItem(env, p, k, true).value.1;
    if k' < r {
      NameIsABoundary(env, p, k', r);
    }
  }

  lemma MissedNameIsOpen(env: Env, p: CString, j: nat)
    requires j < |p| && RunsOut(env, p, j) && Posix.ReadItem(env, p, j).Some?
    requires ParseItem(env, p, j, true).Some? && ParseItem(env, p, j, true).value.0.Bare?
    ensures At(p, Posix.ReadItem(env, p, j).value.1) != ']' && RunsOut(env, p, Posix.ReadItem(env, p, j).value.1)
  {
    NameIsABoundary(env, p, j + 1, Posix.ReadItem(env, p, j).value.1 - 1);
  }

  // If the items run out for the matcher, they do for the standard.
  lemma {:induction false} OpenIsReadAlike(env: Env, p: CString, j: nat)
    requires env.Sane() && j <= |p| && RunsOut(env, p, j)
    ensures Posix.ReadItems(env, p, j).None?
    decreases |p| - j
  {
    var r := Posix.ReadItem(env, p, j);
    if r.Some? && ParseItem(env, p, j, true).Some? {
      var (item, k) := ParseItem(env, p, j, true).value;
      if !item.Bare? {
        ItemIsReadAlike(env, p, j, true);
        OpenIsReadAlike(env, p, k);
      } else {
        MissedNameIsOpen(env, p, j);
        OpenIsReadAlike(env, p, r.value.1);
      }
    } else if Posix.ReadItems(env, p, j).Some? {
      ItemsShowClose(env, p, j);
    }
  }

  lemma {:induction false} ItemsShowClose(env: Env, p: CString, j: nat)
    requires j <= |p| && Posix.ReadItems(env, p, j).Some?
    ensures Bracket.HasClose(p, j)
    decreases |p| - j
  {
    var k := Posix.ReadItem(env, p, j).value.1;
    if At(p, k) != ']' {
      ItemsShowClose(env, p, k);
    }
  }

  lemma {:induction false} ClosedIsReadAlike(env: Env, p: CString, j: nat, first: bool, rest: bool)
    requires env.Sane() && j <= |p| && ParseItems(env, p, j, first, rest).Some? && Posix.RunsOut(env, p, j)
    ensures exists item :: item in ParseItems(env, p, j, first, rest).value.0 && item.Bare?
    decreases |p| - j
  {
    var (item, k) := ParseItem(env, p, j, first).value;
    var items := ParseItems(env, p, j, first, rest).value.0;
    assert items[0] == item;
    if !item.Bare? {
      if Posix.ReadItem(env, p, j).Some? {
        ItemIsReadAlike(env, p, j, first);
        ClosedIsReadAlike(env, p, k, rest, rest);
        var others := ParseItems(env, p, k, rest, rest).value.0;
        assert items == [item] + others;
        var bare :| bare in others && bare.Bare?;
        assert bare in items;
      } else {
        ParsedItemsShowClose(env, p, j, first, rest);
      }
    }
  }

  lemma {:induction false} ParsedItemsShowClose(env: Env, p: CString, j: nat, first: bool, rest: bool)
    requires j <= |p| && ParseItems(env, p, j, first, rest).Some?
    ensures Bracket.HasClose(p, j)
    decreases |p| - j
  {
    var k := ParseItem(env, p, j, first).value.1;
    if At(p, k) != ']' {
      ParsedItemsShowClose(env, p, k, rest, rest);
    }
  }

  // Both readings find a bracket closed, or neither does.
  lemma BracketsCloseAlike(env: Env, p: CString, i: nat)
    requires env.Sane() && i <= |p| && ParseBracket(env, p, i).Some? && Posix.ReadBracket(env, p, i).Some?
    requires ParseSet(env, p, i).Some? ==> forall item :: item in ParseSet(env, p, i).value.0.items ==> !item.Bare?
    ensures ParseSet(env, p, i).Some? <==> Posix.ReadSet(env, p, i).Some?
  {
    var negated := Bracket.Negated(env.locale, p, i);
    var j := if negated then i + 1 else i;
    if ParseSet(env, p, i).Some? {
      if Posix.RunsOut(env, p, j) {
        ClosedIsReadAlike(env, p, j, true, negated);
      }
    } else {
      OpenIsReadAlike(env, p, j);
    }
  }

  // ----- a whole pattern -----

  lemma SetsEndAlike(env: Env, p: CString, i: nat)
    requires env.Sane() && i <= |p| && ParseSet(env, p, i).Some? && Posix.ReadSet(env, p, i).Some?
    requires forall item :: item in ParseSet(env, p, i).value.0.items ==> !item.Bare?
    ensures var ((set', next), (std, next')) := (ParseSet(env, p, i).value, Posix.ReadSet(env, p, i).value);
            && next == next' && set'.negated == std.negated
            && ((forall item :: item in set'.items ==> ItemReadsAlike(env, item)) ==>
                  HoldAlike(env, set'.items, std.items))
  {
    var negated := Bracket.Negated(env.locale, p, i);
    ItemsAreReadAlike(env, p, if negated then i + 1 else i, true, negated);
  }

  lemma BracketIsReadAlike(env: Env, p: CString, i: nat)
    requires env.Sane() && i <= |p| && ParseBracket(env, p, i).Some? && Posix.ReadBracket(env, p, i).Some?
    requires ReadsAlike(env, Cons(ParseBracket(env, p, i).value.0, Nil))
    ensures ParseBracket(env, p, i).value.1 == Posix.ReadBracket(env, p, i).value.1
    ensures Alike(env, Cons(ParseBracket(env, p, i).value.0, Nil), Cons(Posix.ReadBracket(env, p, i).value.0, Nil))
  {
    assert IsSpecial('[');
    BracketsCloseAlike(env, p, i);
    if ParseSet(env, p, i).Some? {
      SetsEndAlike(env, p, i);
      SetShowsSlash(env, p, i);
    }
  }

  lemma {:induction false} PatternIsReadAlike(env: Env, p: CString, i: nat)
    requires env.Sane() && i <= |p| && Parse(env, p, i).Some? && Posix.Read(env, p, i).Some?
    requires ReadsAlike(env, Parse(env, p, i).value)
    ensures Alike(env, Parse(env, p, i).value, Posix.Read(env, p, i).value)
    decreases |p| - i
  {
    if i < |p| {
      if p[i] == '[' {
        BracketIsReadAlike(env, p, i + 1);
      }
      assert IsSpecial('\\') && IsSpecial('[');
      PatternIsReadAlike(env, p, ParseElement(env, p, i).value.1);
    }
  }
}
