/**
  The matcher reads a bracket by two different paths, one until an item matches and one from there
  to the closing bracket. On the brackets of Reading both agree: they end at the same place whatever
  the character, and accept exactly the members. On the others they part for certain characters.
*/
module BracketMeaning {
  import opened Wrappers
  import opened Text
  import Bracket
  import opened Glob
  import opened Reading

  lemma {:induction false} ScanClassFindsNameEnd(env: Env, p: CString, k: nat, name: string)
    requires k <= |p|
    requires |name| + (NameEnd(p, k) - k) < env.locale.classMaxLength
    ensures var e := NameEnd(p, k);
            Bracket.ScanClass(env, p, k, name)
            == if At(p, e) == ':' && At(p, e + 1) == ']' then Bracket.ClassName(name + p[k..e], e + 2)
               else Bracket.NotAClass
    decreases |p| - k
  {
    if k < |p| && 'a' <= p[k] < 'z' {
      ScanClassFindsNameEnd(env, p, k + 1, name + [p[k]]);
      assert name + [p[k]] + p[k + 1..NameEnd(p, k)] == name + p[k..NameEnd(p, k)];
    } else {
      assert name + p[k..k] == name;
    }
  }

  lemma {:induction false} SkipClassFindsNameEnd(env: Env, p: CString, start: nat, k: nat, seen: nat)
    requires start < k <= |p|
    requires seen + (NameEnd(p, k) - k) < env.locale.classMaxLength
    ensures var e := NameEnd(p, k);
            Bracket.SkipClass(env, p, start, k, seen)
            == Bracket.Accept(if At(p, e) == ':' && At(p, e + 1) == ']' then e + 2 else start)
    decreases |p| - k
  {
    if k < |p| && 'a' <= p[k] < 'z' {
      SkipClassFindsNameEnd(env, p, start, k + 1, seen + 1);
    }
  }

  lemma {:induction false} SkipClassGivesUp(env: Env, p: CString, start: nat, k: nat, seen: nat)
    requires start < k <= |p| && seen <= env.locale.classMaxLength <= seen + (NameEnd(p, k) - k)
    ensures Bracket.SkipClass(env, p, start, k, seen) == Bracket.Reject
    decreases |p| - k
  {
    if seen < env.locale.classMaxLength {
      SkipClassGivesUp(env, p, start, k + 1, seen + 1);
    }
  }

  // What skipping makes of a `[:` at j
  lemma SkipName(env: Env, p: CString, j: nat)
    requires j < |p| && p[j] == '[' && At(p, j + 1) == ':'
    ensures Bracket.Skip(env, p, j)
            == if !SkipsName(env, p, j) then Bracket.Reject
               else Bracket.Skip(env, p, if ClosesName(p, j) then NameEnd(p, j + 2) + 2 else j + 1)
  {
    if SkipsName(env, p, j) {
      SkipClassFindsNameEnd(env, p, j + 1, j + 2, 1);
    } else {
      SkipClassGivesUp(env, p, j + 1, j + 2, 1);
    }
  }

  lemma SkipInside(env: Env, p: CString, j: nat)
    requires j < |p| && StaysInside(env, p, j) && p[j] != ']' && (env.flags.noEscape || p[j] != '\\')
    ensures Bracket.Skip(env, p, j) == Bracket.Skip(env, p, j + 1)
  {
    if OpensName(p, j) {
      SkipName(env, p, j);
    }
  }

  lemma SkipRange(env: Env, p: CString, k: nat, c: char)
    requires k <= |p| && ParseRange(env, p, k, c, false).Some?
    ensures Bracket.Skip(env, p, k) == Bracket.Skip(env, p, ParseRange(env, p, k, c, false).value.1)
  {
    if At(p, k) == '-' && At(p, k + 1) != ']' {
      assert Bracket.Skip(env, p, k) == Bracket.Skip(env, p, k + 1);
      if env.flags.noEscape || p[k + 1] != '\\' {
        SkipInside(env, p, k + 1);
      }
    }
  }

  // The skipping path steps over an item exactly as the parsing path does.
  lemma SkipItem(env: Env, p: CString, j: nat)
    requires j <= |p| && ParseItem(env, p, j, false).Some? && At(p, j) != ']'
    ensures Bracket.Skip(env, p, j) == Bracket.Skip(env, p, ParseItem(env, p, j, false).value.1)
  {
    if !env.flags.noEscape && p[j] == '\\' {
      SkipRange(env, p, j + 2, env.Fold(p[j + 1]));
    } else if OpensName(p, j) {
      SkipName(env, p, j);
    } else {
      SkipInside(env, p, j);
      SkipRange(env, p, j + 1, env.Fold(p[j]));
    }
  }

  lemma {:induction false} SkipItems(env: Env, p: CString, k: nat)
    requires k <= |p|
    requires At(p, k) == ']' || ParseItems(env, p, k, false, false).Some?
    ensures Bracket.Skip(env, p, k)
            == Bracket.Accept(if At(p, k) == ']' then k + 1 else ParseItems(env, p, k, false, false).value.1)
    decreases |p| - k
  {
    if At(p, k) != ']' {
      SkipItem(env, p, k);
      SkipItems(env, p, ParseItem(env, p, k, false).value.1);
    }
  }

  lemma RangeStep(env: Env, p: CString, k: nat, c: char, ch: char, negated: bool, lenient: bool)
    requires k <= |p| && ParseRange(env, p, k, c, lenient).Some?
    ensures var (item, k') := ParseRange(env, p, k, c, lenient).value;
            Bracket.NormalItem(env, p, k, c, ch, negated)
            == if ItemHolds(env, item, ch) then Bracket.Matched(env, p, k', negated)
               else Bracket.Continue(env, p, k', ch, negated)
  {
  }

  // One turn of the parsing loop
  lemma ItemStep(env: Env, p: CString, j: nat, ch: char, negated: bool, lenient: bool)
    requires j <= |p| && ParseItem(env, p, j, lenient).Some?
    ensures var (item, k) := ParseItem(env, p, j, lenient).value;
            Bracket.Items(env, p, j, ch, negated)
            == if ItemHolds(env, item, ch) then Bracket.Matched(env, p, k, negated)
               else Bracket.Continue(env, p, k, ch, negated)
  {
    if !env.flags.noEscape && p[j] == '\\' {
      RangeStep(env, p, j + 2, env.Fold(p[j + 1]), ch, negated, lenient);
    } else if !OpensName(p, j) {
      RangeStep(env, p, j + 1, env.Fold(p[j]), ch, negated, lenient);
    } else {
      NameStep(env, p, j, ch, negated, lenient);
    }
  }

  lemma ScanName(env: Env, p: CString, j: nat)
    requires j + 2 <= |p| && NameEnd(p, j + 2) - (j + 2) < env.locale.classMaxLength
    ensures Bracket.ScanClass(env, p, j + 2, "")
            == if ClosesName(p, j) then Bracket.ClassName(p[j + 2..NameEnd(p, j + 2)], NameEnd(p, j + 2) + 2)
               else Bracket.NotAClass
  {
    var e := NameEnd(p, j + 2);
    ScanClassFindsNameEnd(env, p, j + 2, "");
    assert "" + p[j + 2..e] == p[j + 2..e];
  }

  lemma NameStep(env: Env, p: CString, j: nat, ch: char, negated: bool, lenient: bool)
    requires j < |p| && OpensName(p, j) && ParseItem(env, p, j, lenient).Some?
    ensures var (item, k) := ParseItem(env, p, j, lenient).value;
            Bracket.Items(env, p, j, ch, negated)
            == if ItemHolds(env, item, ch) then Bracket.Matched(env, p, k, negated)
               else Bracket.Continue(env, p, k, ch, negated)
  {
    if p[j + 1] == ':' {
      ScanName(env, p, j);
    }
  }

  lemma {:induction false} ItemsAreMembers(env: Env, p: CString, j: nat, ch: char, negated: bool,
        first: bool, rest: bool)
    requires j <= |p| && ParseItems(env, p, j, first, rest).Some? && (rest ==> negated)
    ensures var (items, next) := ParseItems(env, p, j, first, rest).value;
            Bracket.Items(env, p, j, ch, negated)
            == if InItems(env, items, ch) != negated then Bracket.Accept(next) else Bracket.Reject
    decreases |p| - j
  {
    ItemStep(env, p, j, ch, negated, first);
    var (items, next) := ParseItems(env, p, j, first, rest).value;
    var (item, k) := ParseItem(env, p, j, first).value;
    assert items[0] == item && item in items;
    if !negated {
      SkipItems(env, p, k);
    }
    if At(p, k) == ']' {
      assert items == [item];
    } else {
      ItemsAreMembers(env, p, k, ch, negated, rest, rest);
      var others := ParseItems(env, p, k, rest, rest).value.0;
      assert items == [item] + others;
      assert forall x :: x in items <==> x == item || x in others;
    }
  }

  // lib/fnmatch_loop.c:228-888 on the brackets of Reading: membership, and an end independent of the character
  lemma StepIsMembership(env: Env, p: CString, i: nat, ch: char)
    requires i <= |p| && ParseSet(env, p, i).Some?
    ensures var (set', next) := ParseSet(env, p, i).value;
            Bracket.Step(env, p, i, ch)
            == if InItems(env, set'.items, ch) != set'.negated then Bracket.Accept(next) else Bracket.Reject
  {
    var negated := Bracket.Negated(env.locale, p, i);
    ItemsAreMembers(env, p, if negated then i + 1 else i, ch, negated, true, negated);
  }

  // ----- brackets without an end -----

  lemma {:induction false} SymbolEnd(p: CString, k: nat)
    requires k <= |p|
    ensures var r := Bracket.SkipSymbol(p, k);
            r.Accept? ==> r.next >= k + 2 && p[r.next - 1] == ']' && p[r.next - 2] == '.'
    decreases |p| - k
  {
    if k < |p| && !(At(p, k) == '.' && At(p, k + 1) == ']') {
      SymbolEnd(p, k + 1);
    }
  }

  // No item that starts before a `]` at r takes it, unless something before it protects it.
  lemma ItemStopsBefore(env: Env, p: CString, k: nat, r: nat, lenient: bool)
    requires k < r < |p| && p[r] == ']' && p[r - 1] != '\\' && p[r - 1] != '-'
    requires p[r - 1] == ':' ==> forall x :: k <= x < r ==> p[x] != '['
    requires ParseItem(env, p, k, lenient).Some?
    ensures ParseItem(env, p, k, lenient).value.1 <= r
  {
  }

  lemma {:induction false} ItemsCloseBy(env: Env, p: CString, k: nat, r: nat)
    requires k < r < |p| && p[r] == ']' && p[r - 1] != '\\' && p[r - 1] != '-'
    requires p[r - 1] == ':' ==> forall x :: k <= x < r ==> p[x] != '['
    ensures !RunsOut(env, p, k)
    decreases |p| - k
  {
    if ParseItem(env, p, k, true).Some? {
      ItemStopsBefore(env, p, k, r, true);
      var k' := ParseItem(env, p, k, true).value.1;
      if k' < r {
        ItemsCloseBy(env, p, k', r);
      }
    }
  }

  // Skipping that meets a `[:`, `[=` or `[.` which was read as a character, where the items run out
  lemma StraysAreLost(env: Env, p: CString, q: nat)
    requires q < |p| && !StaysInside(env, p, q) && RunsOut(env, p, q + 1)
    ensures Bracket.Skip(env, p, q) == Bracket.Reject
  {
    if p[q + 1] == ':' {
      SkipName(env, p, q);
      if SkipsName(env, p, q) {
        ItemsCloseBy(env, p, q + 1, NameEnd(p, q + 2) + 1);
      }
    } else if p[q + 1] == '=' {
      if At(p, q + 2) != '\0' && At(p, q + 3) == '=' && At(p, q + 4) == ']' {
        ItemsCloseBy(env, p, q + 1, q + 4);
      }
    } else {
      SymbolEnd(p, q + 2);
      var r := Bracket.SkipSymbol(p, q + 2);
      if r.Accept? {
        ItemsCloseBy(env, p, q + 1, r.next - 1);
      }
    }
  }

  lemma {:induction false} ClosesNever(env: Env, p: CString, k: nat)
    requires k <= |p| && !Bracket.HasClose(p, k)
    ensures Bracket.Skip(env, p, k) == Bracket.Reject
    decreases |p| - k
  {
    if k < |p| {
      if !env.flags.noEscape && p[k] == '\\' {
        if k + 1 < |p| {
          ClosesNever(env, p, k + 2);
        }
      } else if OpensName(p, k) {
        if p[k + 1] == ':' {
          SkipName(env, p, k);
          ClosesNever(env, p, k + 1);
        } else if p[k + 1] == '.' {
          SymbolEnd(p, k + 2);
        }
      } else {
        ClosesNever(env, p, k + 1);
      }
    }
  }

  lemma StrayRangeIsLost(env: Env, p: CString, k: nat, c: char)
    requires k <= |p| && ParseRange(env, p, k, c, true).Some? && ParseRange(env, p, k, c, false).None?
    requires RunsOut(env, p, ParseRange(env, p, k, c, true).value.1)
    ensures Bracket.Skip(env, p, k) == Bracket.Reject
  {
    assert Bracket.Skip(env, p, k) == Bracket.Skip(env, p, k + 1);
    StraysAreLost(env, p, k + 1);
  }

  lemma StrayItemIsLost(env: Env, p: CString, k: nat)
    requires k <= |p| && At(p, k) != ']' && RunsOut(env, p, k)
    requires ParseItem(env, p, k, true).Some? && ParseItem(env, p, k, false).None?
    ensures Bracket.Skip(env, p, k) == Bracket.Reject
  {
    if !env.flags.noEscape && p[k] == '\\' {
      assert Bracket.Skip(env, p, k) == Bracket.Skip(env, p, k + 2);
      StrayRangeIsLost(env, p, k + 2, env.Fold(p[k + 1]));
    } else if !OpensName(p, k) {
      assert Bracket.Skip(env, p, k) == Bracket.Skip(env, p, k + 1);
      StrayRangeIsLost(env, p, k + 1, env.Fold(p[k]));
    } else if p[k + 1] == ':' {
      SkipName(env, p, k);
    } else {
      StraysAreLost(env, p, k);
    }
  }

  // Where the items run out, skipping does as well.
  lemma {:induction false} OpenSkip(env: Env, p: CString, k: nat)
    requires k <= |p| && At(p, k) != ']' && RunsOut(env, p, k)
    ensures Bracket.Skip(env, p, k) == Bracket.Reject
    decreases |p| - k
  {
    if ParseItem(env, p, k, false).Some? {
      SkipItem(env, p, k);
      OpenSkip(env, p, ParseItem(env, p, k, false).value.1);
    } else if ParseItem(env, p, k, true).Some? {
      StrayItemIsLost(env, p, k);
    } else {
      ClosesNever(env, p, k);
    }
  }

  lemma {:induction false} ScanClassGivesUp(env: Env, p: CString, k: nat, name: string)
    requires k <= |p| && |name| <= env.locale.classMaxLength <= |name| + (NameEnd(p, k) - k)
    ensures Bracket.ScanClass(env, p, k, name) == Bracket.TooLong
    decreases |p| - k
  {
    if |name| < env.locale.classMaxLength {
      ScanClassGivesUp(env, p, k + 1, name + [p[k]]);
    }
  }

  lemma BrokenRange(env: Env, p: CString, k: nat, c: char, ch: char, negated: bool)
    requires k <= |p| && ParseRange(env, p, k, c, true).None?
    ensures Bracket.NormalItem(env, p, k, c, ch, negated) == Bracket.Reject
  {
    if k + 1 == |p| {
      assert Bracket.Skip(env, p, k) == Bracket.Skip(env, p, k + 1) == Bracket.Reject;
    }
  }

  lemma BrokenItem(env: Env, p: CString, j: nat, ch: char, negated: bool)
    requires j < |p| && ParseItem(env, p, j, true).None?
    ensures Bracket.Items(env, p, j, ch, negated) == Bracket.Reject
  {
    if !env.flags.noEscape && p[j] == '\\' {
      if j + 1 < |p| {
        BrokenRange(env, p, j + 2, env.Fold(p[j + 1]), ch, negated);
      }
    } else if !OpensName(p, j) {
      BrokenRange(env, p, j + 1, env.Fold(p[j]), ch, negated);
    } else if NameEnd(p, j + 2) - (j + 2) < env.locale.classMaxLength {
      ScanName(env, p, j);
    } else {
      ScanClassGivesUp(env, p, j + 2, "");
    }
  }

  lemma OpenItem(env: Env, p: CString, j: nat)
    requires env.Sane() && j < |p| && ParseItem(env, p, j, true).Some?
    ensures var (item, k) := ParseItem(env, p, j, true).value; ItemHolds(env, item, '[') <==> HoldsOpen(env, item)
  {
    assert IsSpecial('[');
  }

  lemma {:induction false} OpenItems(env: Env, p: CString, j: nat, ch: char, negated: bool)
    requires env.Sane() && j <= |p| && RunsOut(env, p, j)
    ensures !Bracket.Items(env, p, j, ch, negated).Accept?
    ensures ch == '[' ==> (Bracket.Items(env, p, j, ch, negated).Unterminated? <==> StandsOpen(env, p, j))
    decreases |p| - j
  {
    var r := ParseItem(env, p, j, true);
    if r.Some? {
      ItemStep(env, p, j, ch, negated, true);
      OpenItem(env, p, j);
      OpenSkip(env, p, r.value.1);
      OpenItems(env, p, r.value.1, ch, negated);
    } else if j < |p| {
      BrokenItem(env, p, j, ch, negated);
    }
  }

  // A `[` whose items run out accepts no character but `[`, and that as ParseOpen says.
  lemma OpenStep(env: Env, p: CString, i: nat, ch: char)
    requires env.Sane() && i <= |p|
    requires var j := if Bracket.Negated(env.locale, p, i) then i + 1 else i; RunsOut(env, p, j)
    ensures !Bracket.Step(env, p, i, ch).Accept?
    ensures var j := if Bracket.Negated(env.locale, p, i) then i + 1 else i;
            ParseOpen(env, p, j)
            == if Bracket.Step(env, p, i, '[').Unterminated? then Literal('[', false) else Set(false, [])
  {
    var negated := Bracket.Negated(env.locale, p, i);
    OpenItems(env, p, if negated then i + 1 else i, ch, negated);
    OpenItems(env, p, if negated then i + 1 else i, '[', negated);
  }

  // ----- when the two paths part -----

  lemma {:induction false} ItemsEndBy(env: Env, p: CString, k: nat, r: nat, lenient: bool)
    requires k < r < |p| && p[r] == ']' && p[r - 1] != '\\' && p[r - 1] != '-'
    requires p[r - 1] == ':' ==> forall x :: k <= x < r ==> p[x] != '['
    requires ParseItems(env, p, k, lenient, lenient).Some?
    ensures ParseItems(env, p, k, lenient, lenient).value.1 <= r + 1
    decreases |p| - k
  {
    ItemStopsBefore(env, p, k, r, lenient);
    var k' := ParseItem(env, p, k, lenient).value.1;
    if At(p, k') != ']' {
      ItemsEndBy(env, p, k', r, lenient);
    }
  }

  lemma SkipStrayClass(env: Env, p: CString, q: nat)
    requires q < |p| && !StaysInside(env, p, q) && p[q + 1] == ':' && ParseItems(env, p, q + 1, true, true).Some?
    ensures Bracket.Skip(env, p, q) != Bracket.Accept(ParseItems(env, p, q + 1, true, true).value.1)
  {
    SkipName(env, p, q);
    if SkipsName(env, p, q) {
      ItemsEndBy(env, p, q + 1, NameEnd(p, q + 2) + 1, true);
    }
  }

  lemma SkipStraySymbol(env: Env, p: CString, q: nat)
    requires q < |p| && p[q] == '[' && At(p, q + 1) == '.' && ParseItems(env, p, q + 1, true, true).Some?
    ensures Bracket.Skip(env, p, q) != Bracket.Accept(ParseItems(env, p, q + 1, true, true).value.1)
  {
    SymbolEnd(p, q + 2);
    var r := Bracket.SkipSymbol(p, q + 2);
    if r.Accept? {
      ItemsEndBy(env, p, q + 1, r.next - 1, true);
    }
  }

  // Skipping that meets a `[:`, `[=` or `[.` which was read as a character leaves the bracket further on,
  // or not at all.
  lemma SkipStrays(env: Env, p: CString, q: nat)
    requires q < |p| && !StaysInside(env, p, q)
    requires ParseItems(env, p, q + 1, true, true).Some?
    ensures Bracket.Skip(env, p, q) != Bracket.Accept(ParseItems(env, p, q + 1, true, true).value.1)
  {
    if p[q + 1] == ':' {
      SkipStrayClass(env, p, q);
    } else if p[q + 1] == '.' {
      SkipStraySymbol(env, p, q);
    } else if At(p, q + 2) != '\0' && At(p, q + 3) == '=' && At(p, q + 4) == ']' {
      ItemsEndBy(env, p, q + 1, q + 4, true);
    }
  }

  lemma StrayRange(env: Env, p: CString, k: nat, c: char)
    requires k <= |p| && ParseRange(env, p, k, c, true).Some? && ParseRange(env, p, k, c, false).None?
    ensures At(p, ParseRange(env, p, k, c, true).value.1) != ']'
    ensures var items := ParseItems(env, p, ParseRange(env, p, k, c, true).value.1, true, true);
            items.Some? ==> Bracket.Skip(env, p, k) != Bracket.Accept(items.value.1)
  {
    assert Bracket.Skip(env, p, k) == Bracket.Skip(env, p, k + 1);
    if ParseItems(env, p, k + 2, true, true).Some? {
      SkipStrays(env, p, k + 1);
    }
  }

  // An item that is only read leniently is not skipped as it is read.
  lemma StrayItem(env: Env, p: CString, k: nat)
    requires k <= |p| && At(p, k) != ']' && ParseItems(env, p, k, true, true).Some?
    requires ParseItem(env, p, k, false).None?
    ensures Bracket.Skip(env, p, k) != Bracket.Accept(ParseItems(env, p, k, true, true).value.1)
  {
    if !env.flags.noEscape && p[k] == '\\' {
      assert Bracket.Skip(env, p, k) == Bracket.Skip(env, p, k + 2);
      StrayRange(env, p, k + 2, env.Fold(p[k + 1]));
    } else if !OpensName(p, k) {
      assert Bracket.Skip(env, p, k) == Bracket.Skip(env, p, k + 1);
      StrayRange(env, p, k + 1, env.Fold(p[k]));
    } else if p[k + 1] == ':' {
      SkipName(env, p, k);
    } else {
      SkipStrays(env, p, k);
    }
  }

  lemma {:induction false} SkipIsExact(env: Env, p: CString, k: nat)
    requires k <= |p| && (At(p, k) == ']' || ParseItems(env, p, k, true, true).Some?)
    ensures var next := if At(p, k) == ']' then k + 1 else ParseItems(env, p, k, true, true).value.1;
            Bracket.Skip(env, p, k) == Bracket.Accept(next)
            <==> At(p, k) == ']' || ParseItems(env, p, k, false, false).Some?
    decreases |p| - k
  {
    if At(p, k) != ']' {
      if ParseItem(env, p, k, false).Some? {
        SkipItem(env, p, k);
        SkipIsExact(env, p, ParseItem(env, p, k, false).value.1);
      } else {
        StrayItem(env, p, k);
      }
    }
  }

  // Where the first item that holds ch ends
  ghost function BehindHolder(env: Env, p: CString, j: nat, ch: char): (r: Option<nat>)
    requires j <= |p|
    ensures r.Some? ==> j < r.value <= |p|
    decreases |p| - j
  {
    var (item, k) :- ParseItem(env, p, j, true);
    if ItemHolds(env, item, ch) then Some(k)
    else if At(p, k) == ']' then None
    else BehindHolder(env, p, k, ch)
  }

  // For every bracket that the parsing path reads to its end: a character is accepted, and the pattern goes on behind
  // the bracket, exactly if an item holds it and all items behind the first that does are skipped as they are read.
  lemma {:induction false} StepIsExact(env: Env, p: CString, j: nat, ch: char)
    requires j <= |p| && ParseItems(env, p, j, true, true).Some?
    ensures var k := BehindHolder(env, p, j, ch);
            Bracket.Items(env, p, j, ch, false) == Bracket.Accept(ParseItems(env, p, j, true, true).value.1)
            <==> k.Some? && (At(p, k.value) == ']' || ParseItems(env, p, k.value, false, false).Some?)
    decreases |p| - j
  {
    ItemStep(env, p, j, ch, false, true);
    var (item, k) := ParseItem(env, p, j, true).value;
    if ItemHolds(env, item, ch) {
      SkipIsExact(env, p, k);
    } else if At(p, k) != ']' {
      StepIsExact(env, p, k, ch);
    }
  }

  lemma BracketIsExact(env: Env, p: CString, i: nat, ch: char)
    requires i <= |p| && !Bracket.Negated(env.locale, p, i) && ParseItems(env, p, i, true, true).Some?
    ensures var (k, next) := (BehindHolder(env, p, i, ch), ParseItems(env, p, i, true, true).value.1);
            Bracket.Step(env, p, i, ch) == Bracket.Accept(next)
            <==> k.Some? && (At(p, k.value) == ']' || ParseItems(env, p, k.value, false, false).Some?)
  {
    StepIsExact(env, p, i, ch);
  }

  // ----- brackets that are broken off -----

  // Among the items from j on is a class that the locale does not have, a name that is too long, or a backslash or a
  // range that the end of the pattern cuts off.
  predicate BreaksOff(env: Env, p: CString, j: nat)
    requires j <= |p|
    decreases |p| - j
  {
    match ParseItem(env, p, j, true)
    case None => j < |p|
    case Some((_, k)) => At(p, k) != ']' && BreaksOff(env, p, k)
  }

  lemma {:induction false} BrokenItems(env: Env, p: CString, j: nat, ch: char, negated: bool)
    requires j <= |p| && BreaksOff(env, p, j)
    ensures Bracket.Items(env, p, j, ch, negated)
            == match BehindHolder(env, p, j, ch)
               case None => Bracket.Reject
               case Some(k) => Bracket.Matched(env, p, k, negated)
    decreases |p| - j
  {
    var r := ParseItem(env, p, j, true);
    if r.None? {
      BrokenItem(env, p, j, ch, negated);
    } else {
      ItemStep(env, p, j, ch, negated, true);
      if !ItemHolds(env, r.value.0, ch) {
        BrokenItems(env, p, r.value.1, ch, negated);
      }
    }
  }

  // Such a bracket rejects every character that no item before the broken one holds and, if it is negated, all of them;
  // the others are not affected, as skipping does not look at the names of classes.
  lemma BrokenBracketRejects(env: Env, p: CString, i: nat, ch: char)
    requires i <= |p|
    requires BreaksOff(env, p, if Bracket.Negated(env.locale, p, i) then i + 1 else i)
    ensures var negated := Bracket.Negated(env.locale, p, i);
            var k := BehindHolder(env, p, if negated then i + 1 else i, ch);
            Bracket.Step(env, p, i, ch)
            == if negated || k.None? then Bracket.Reject else Bracket.Skip(env, p, k.value)
  {
    var negated := Bracket.Negated(env.locale, p, i);
    BrokenItems(env, p, if negated then i + 1 else i, ch, negated);
  }
}
