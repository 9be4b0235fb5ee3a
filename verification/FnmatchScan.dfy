/**
  The scanning parts of lib/fnmatch_loop.c in their own form: the bracket reader, END and the first
  half of EXT as loops over positions, each proved to return what the functions in Bracket and Group
  say.
*/
module FnmatchScan {
  import opened Wrappers
  import opened Text
  import Bracket
  import Group

  // ----- brackets -----

  // Lines 276-298
  method ReadClassName(env: Env, p: CString, start: nat) returns (r: Bracket.ClassScan)
    requires start <= |p|
    ensures r == Bracket.ScanClass(env, p, start, "")
  {
    var name, k := "", start;
    while true
      invariant k <= |p| && Bracket.ScanClass(env, p, k, name) == Bracket.ScanClass(env, p, start, "")
      decreases |p| - k
    {
      if |name| == env.locale.classMaxLength {
        return Bracket.TooLong;
      }
      var c := At(p, k);
      if c == ':' && At(p, k + 1) == ']' {
        return Bracket.ClassName(name, k + 2);
      }
      if c < 'a' || c >= 'z' {
        return Bracket.NotAClass;
      }
      name := name + [c];
      k := k + 1;
    }
  }

  // Lines 841-859: `start` is behind the `[` of a `[:`
  method SkipClassName(env: Env, p: CString, start: nat) returns (r: Bracket.Outcome)
    requires start < |p|
    ensures r == Bracket.SkipClass(env, p, start, start + 1, 1)
  {
    var j, seen := start, 0;
    while true
      invariant start <= j < |p|
      invariant Bracket.SkipClass(env, p, start, j + 1, seen + 1) == Bracket.SkipClass(env, p, start, start + 1, 1)
      decreases |p| - j
    {
      j, seen := j + 1, seen + 1;
      if seen == env.locale.classMaxLength {
        return Bracket.Reject;
      }
      if At(p, j) == ':' && At(p, j + 1) == ']' {
        return Bracket.Accept(j + 2);
      }
      if At(p, j) < 'a' || At(p, j) >= 'z' {
        return Bracket.Accept(start);
      }
    }
  }

  // Lines 873-882
  method SkipSymbolName(p: CString, start: nat) returns (r: Bracket.Outcome)
    requires start <= |p|
    ensures r == Bracket.SkipSymbol(p, start)
  {
    var j := start;
    while At(p, j) != '\0'
      invariant j <= |p| && Bracket.SkipSymbol(p, j) == Bracket.SkipSymbol(p, start)
      decreases |p| - j
    {
      if At(p, j) == '.' && At(p, j + 1) == ']' {
        return Bracket.Accept(j + 2);
      }
      j := j + 1;
    }
    return Bracket.Reject;
  }

  // Lines 826-884, from the position behind the item that matched
  method SkipRest(env: Env, p: CString, start: nat) returns (r: Bracket.Outcome)
    requires start <= |p|
    ensures r == Bracket.Skip(env, p, start)
  {
    var k := start;
    while At(p, k) != ']'
      invariant k <= |p| && Bracket.Skip(env, p, k) == Bracket.Skip(env, p, start)
      decreases |p| - k
    {
      var c := At(p, k);
      if c == '\0' {
        return Bracket.Reject;
      }
      if !env.flags.noEscape && c == '\\' {
        if At(p, k + 1) == '\0' {
          return Bracket.Reject;
        }
        k := k + 2;
      } else if c == '[' && At(p, k + 1) == ':' {
        var name := SkipClassName(env, p, k + 1);
        if name.Reject? {
          return Bracket.Reject;
        }
        k := name.next;
      } else if c == '[' && At(p, k + 1) == '=' {
        if At(p, k + 2) == '\0' || At(p, k + 3) != '=' || At(p, k + 4) != ']' {
          return Bracket.Reject;
        }
        k := k + 5;
      } else if c == '[' && At(p, k + 1) == '.' {
        var name := SkipSymbolName(p, k + 2);
        if name.Reject? {
          return Bracket.Reject;
        }
        k := name.next;
      } else {
        k := k + 1;
      }
    }
    return Bracket.Accept(k + 1);
  }

  method LeaveMatched(env: Env, p: CString, k: nat, negated: bool) returns (r: Bracket.Outcome)
    requires k <= |p|
    ensures r == Bracket.Matched(env, p, k, negated)
  {
    r := SkipRest(env, p, k);
    if negated {
      r := Bracket.Reject;
    }
  }

  // `normal_bracket:` with c the item's character and k behind it (lines 580-598, 796-812): decided, or
  // going on with the character at `behind`
  method MatchItem(env: Env, p: CString, k: nat, c: char, ch: char, negated: bool)
    returns (decided: bool, r: Bracket.Outcome, behind: nat)
    requires k <= |p|
    ensures k <= behind <= |p|
    ensures Bracket.NormalItem(env, p, k, c, ch, negated)
            == if decided then r else Bracket.Continue(env, p, behind, ch, negated)
  {
    var fn := env.Fold(ch);
    r, behind := Bracket.Reject, k;
    var isRange := At(p, k) == '-' && At(p, k + 1) != '\0' && At(p, k + 1) != ']';
    if !isRange && c == fn {
      decided := true;
      r := LeaveMatched(env, p, k, negated);
    } else if At(p, k) == '-' && At(p, k + 1) != ']' {
      var cend, next := At(p, k + 1), k + 2;
      if !env.flags.noEscape && cend == '\\' {
        cend, next := At(p, k + 2), k + 3;
      }
      if cend == '\0' {
        decided := true;
      } else if c <= fn <= cend {
        decided := true;
        r := LeaveMatched(env, p, next, negated);
      } else {
        decided, behind := false, next;
      }
    } else {
      decided := false;
    }
  }

  datatype ItemStart =
    | Decided(outcome: Bracket.Outcome)
    | Passed(behind: nat)               // a [:name:] that does not hold the character
    | Normal(c: char, behind: nat)      // goto normal_bracket

  // Lines 259-432: the start of an item at k
  method ReadItem(env: Env, p: CString, k: nat, ch: char, ghost negated: bool) returns (item: ItemStart, leave: bool)
    requires k <= |p|
    ensures match item
            case Decided(outcome) => !leave && Bracket.Items(env, p, k, ch, negated) == outcome
            case Passed(behind) =>
              && k < behind <= |p|
              && Bracket.Items(env, p, k, ch, negated)
                 == if leave then Bracket.Matched(env, p, behind, negated)
                    else Bracket.Continue(env, p, behind, ch, negated)
            case Normal(c, behind) =>
              && !leave && k < behind <= |p|
              && Bracket.Items(env, p, k, ch, negated) == Bracket.NormalItem(env, p, behind, c, ch, negated)
  {
    leave := false;
    var c := At(p, k);
    if !env.flags.noEscape && c == '\\' {
      item := if At(p, k + 1) == '\0' then Decided(Bracket.Reject) else Normal(env.Fold(At(p, k + 1)), k + 2);
    } else if c == '[' && At(p, k + 1) == ':' {
      var scan := ReadClassName(env, p, k + 2);
      match scan {
        case TooLong => item := Decided(Bracket.Reject);
        case NotAClass => item := Normal('[', k + 1);
        case ClassName(name, behind) =>
          if env.locale.isClass(name) {
            item, leave := Passed(behind), env.locale.inClass(name, ch);
          } else {
            item := Decided(Bracket.Reject);
          }
      }
    } else if c == '\0' {
      item := Decided(Bracket.Unterminated);
    } else {
      item := Normal(env.Fold(c), k + 1);
    }
  }

  // Lines 250-887
  method MatchBracket(env: Env, p: CString, i: nat, ch: char) returns (r: Bracket.Outcome)
    requires i <= |p|
    ensures r == Bracket.Step(env, p, i, ch)
  {
    var negated := At(p, i) == '!' || (!env.locale.posixlyCorrect && At(p, i) == '^');
    var k := if negated then i + 1 else i;
    while true
      invariant k <= |p| && Bracket.Items(env, p, k, ch, negated) == Bracket.Step(env, p, i, ch)
      decreases |p| - k
    {
      var item, leave := ReadItem(env, p, k, ch, negated);
      match item {
        case Decided(outcome) => return outcome;
        case Passed(behind) =>
          if leave {
            r := LeaveMatched(env, p, behind, negated);
            return;
          }
          k := behind;
        case Normal(c, behind) =>
          var decided;
          decided, r, k := MatchItem(env, p, behind, c, ch, negated);
          if decided {
            return;
          }
      }
      if At(p, k) == ']' {
        return if negated then Bracket.Accept(k + 1) else Bracket.Reject;
      }
    }
  }

  // ----- groups -----

  // The search for the closing bracket behind the leading `]` and the not sign (lines 956-959 and 1018-1024)
  method FindBracketEnd(locale: Locale, p: CString, j: nat) returns (r: Option<nat>)
    requires j < |p|
    ensures r == Group.SkipBracket(locale, p, j)
  {
    var k := j + 1;
    if At(p, k) == '!' || (!locale.posixlyCorrect && At(p, k) == '^') {
      k := k + 1;
    }
    if At(p, k) == ']' {
      k := k + 1;
    }
    while At(p, k) != ']'
      invariant k <= |p| && Group.SkipBracket(locale, p, j) == Group.FindClose(p, k)
      decreases |p| - k
    {
      if At(p, k) == '\0' {
        return None;
      }
      k := k + 1;
    }
    return Some(k);
  }

  // END
  method EndPattern(locale: Locale, p: CString, pattern: nat) returns (r: nat)
    requires pattern < |p|
    ensures r == Group.End(locale, p, pattern)
    decreases |p| - pattern
  {
    var k := pattern;
    while true
      invariant pattern <= k < |p|
      invariant Group.EndFrom(locale, p, k) == Group.EndFrom(locale, p, pattern)
      decreases |p| - k
    {
      var j := k + 1;
      var c := At(p, j);
      if c == '\0' {
        return pattern;
      } else if c == '[' {
        var q := FindBracketEnd(locale, p, j);
        if q.None? {
          return pattern;
        }
        k := q.value;
      } else if Group.OpensGroup(p, j) {
        k := EndPattern(locale, p, j + 1);
        if At(p, k) == '\0' {
          return pattern;
        }
      } else if c == ')' {
        return j + 1;
      } else {
        k := j;
      }
    }
  }

  ghost function Extend(list: seq<CString>, r: Option<Group.Split>): Option<Group.Split> {
    match r
    case None => None
    case Some(split) => Some(Group.Split(list + split.alts, split.rest))
  }

  lemma ExtendNothing(r: Option<Group.Split>)
    ensures Extend([], r) == r
  {
    assert r.Some? ==> [] + r.value.alts == r.value.alts;
  }

  lemma ExtendAtBar(list: seq<CString>, locale: Locale, p: CString, start: nat, k: nat)
    requires start <= k < |p| && p[k] == '|'
    ensures Extend(list, Group.SplitFrom(locale, p, start, k, 0))
            == Extend(list + [p[start..k]], Group.SplitFrom(locale, p, k + 1, k + 1, 0))
  {
    var r := Group.SplitFrom(locale, p, k + 1, k + 1, 0);
    assert r.Some? ==> list + ([p[start..k]] + r.value.alts) == list + [p[start..k]] + r.value.alts;
  }

  // The first part of EXT (lines 995-1080)
  method ParseAlternatives(locale: Locale, p: CString, pattern: nat) returns (r: Option<Group.Split>)
    requires pattern < |p|
    ensures r == Group.SplitGroup(locale, p, pattern)
  {
    var startp: nat, k: nat, level: nat := pattern + 1, pattern + 1, 0;
    var list: seq<CString> := [];
    ExtendNothing(Group.SplitGroup(locale, p, pattern));
    while true
      invariant startp <= k <= |p|
      invariant Group.SplitGroup(locale, p, pattern) == Extend(list, Group.SplitFrom(locale, p, startp, k, level))
      decreases |p| - k
    {
      var c := At(p, k);
      if c == '\0' {
        return None;
      } else if c == '[' {
        var q := FindBracketEnd(locale, p, k);
        if q.None? {
          return None;
        }
        k := q.value;
      } else if Group.OpensGroup(p, k) {
        level := level + 1;
      } else if c == ')' {
        if level == 0 {
          list := list + [p[startp..k]];
          return Some(Group.Split(list, k + 1));
        }
        level := level - 1;
      } else if c == '|' && level == 0 {
        ExtendAtBar(list, locale, p, startp, k);
        list := list + [p[startp..k]];
        startp := k + 1;
      }
      k := k + 1;
    }
  }
}
