/**
  EXT splits a group with one flat scan and a nesting counter (lib/fnmatch_loop.c:995-1080). The scan
  finds the alternatives that a descent into nested groups finds, cuts nowhere else, and gives `?(` and
  `@(` room enough for what they append.
*/
module Alternatives {
  import opened Wrappers
  import opened Text
  import opened Group

  // The parenthesis that closes the group whose text starts at j, by descent into nested groups
  function Close(locale: Locale, p: CString, j: nat): (r: Option<nat>)
    requires j <= |p|
    ensures r.Some? ==> j <= r.value < |p| && p[r.value] == ')'
    decreases |p| - j
  {
    if j == |p| then None
    else if p[j] == '[' then
      var q :- SkipBracket(locale, p, j);
      Close(locale, p, q + 1)
    else if OpensGroup(p, j) then
      var q :- Close(locale, p, j + 2);
      Close(locale, p, q + 1)
    else if p[j] == ')' then Some(j)
    else Close(locale, p, j + 1)
  }

  // The alternatives of a group: brackets and nested groups are passed over whole.
  function Descend(locale: Locale, p: CString, start: nat, j: nat): (r: Option<Split>)
    requires start <= j <= |p|
    decreases |p| - j
  {
    if j == |p| then None
    else if p[j] == '[' then
      var q :- SkipBracket(locale, p, j);
      Descend(locale, p, start, q + 1)
    else if OpensGroup(p, j) then
      var q :- Close(locale, p, j + 2);
      Descend(locale, p, start, q + 1)
    else if p[j] == ')' then Some(Split([p[start..j]], j + 1))
    else if p[j] == '|' then
      var r :- Descend(locale, p, j + 1, j + 1);
      Some(Split([p[start..j]] + r.alts, r.rest))
    else Descend(locale, p, start, j + 1)
  }

  // The parenthesis behind a group's operator is an ordinary character.
  lemma ParenthesisIsPassed(locale: Locale, p: CString, start: nat, j: nat, level: nat)
    requires start <= j < |p| && OpensGroup(p, j)
    ensures SplitFrom(locale, p, start, j, level) == SplitFrom(locale, p, start, j + 2, level + 1)
  {
  }

  // The split behind a parenthesis that closes
  function SplitBehind(locale: Locale, p: CString, start: nat, close: Option<nat>, level: nat): Option<Split>
    requires close.Some? ==> start <= close.value < |p|
  {
    match close
    case None => None
    case Some(q) => SplitFrom(locale, p, start, q + 1, level)
  }

  // Counting down from a positive level passes exactly one nested group.
  lemma {:induction false} CounterPassesAGroup(locale: Locale, p: CString, start: nat, j: nat, level: nat)
    requires start <= j <= |p| && level > 0
    ensures SplitFrom(locale, p, start, j, level) == SplitBehind(locale, p, start, Close(locale, p, j), level - 1)
    decreases |p| - j, 1
  {
    if j < |p| {
      if p[j] == '[' {
        var q := SkipBracket(locale, p, j);
        if q.Some? {
          CounterPassesAGroup(locale, p, start, q.value + 1, level);
        }
      } else if OpensGroup(p, j) {
        CounterAtOperator(locale, p, start, j, level);
      } else if p[j] != ')' {
        CounterPassesAGroup(locale, p, start, j + 1, level);
      }
    }
  }

  lemma {:induction false} CounterAtOperator(locale: Locale, p: CString, start: nat, j: nat, level: nat)
    requires start <= j < |p| && OpensGroup(p, j) && level > 0 && p[j] != '['
    ensures SplitFrom(locale, p, start, j, level) == SplitBehind(locale, p, start, Close(locale, p, j), level - 1)
    decreases |p| - j, 0
  {
    ParenthesisIsPassed(locale, p, start, j, level);
    CounterPassesAGroup(locale, p, start, j + 2, level + 1);
    var q := Close(locale, p, j + 2);
    if q.Some? {
      CounterPassesAGroup(locale, p, start, q.value + 1, level);
    }
  }

  lemma ScanPassesAGroup(locale: Locale, p: CString, start: nat, j: nat)
    requires start <= j < |p| && OpensGroup(p, j)
    ensures var q := Close(locale, p, j + 2);
            SplitFrom(locale, p, start, j, 0) == if q.None? then None else SplitFrom(locale, p, start, q.value + 1, 0)
  {
    ParenthesisIsPassed(locale, p, start, j, 0);
    CounterPassesAGroup(locale, p, start, j + 2, 1);
  }

  lemma {:induction false} ScanIsDescent(locale: Locale, p: CString, start: nat, j: nat)
    requires start <= j <= |p|
    ensures SplitFrom(locale, p, start, j, 0) == Descend(locale, p, start, j)
    decreases |p| - j, 1
  {
    if j < |p| {
      if p[j] == '[' {
        var q := SkipBracket(locale, p, j);
        if q.Some? {
          ScanIsDescent(locale, p, start, q.value + 1);
        }
      } else if OpensGroup(p, j) {
        DescentAtOperator(locale, p, start, j);
      } else if p[j] == '|' {
        ScanIsDescent(locale, p, j + 1, j + 1);
      } else if p[j] != ')' {
        ScanIsDescent(locale, p, start, j + 1);
      }
    }
  }

  lemma {:induction false} DescentAtOperator(locale: Locale, p: CString, start: nat, j: nat)
    requires start <= j < |p| && OpensGroup(p, j)
    ensures SplitFrom(locale, p, start, j, 0) == Descend(locale, p, start, j)
    decreases |p| - j, 0
  {
    ScanPassesAGroup(locale, p, start, j);
    DescentPassesAGroup(locale, p, start, j);
    var q := Close(locale, p, j + 2);
    if q.Some? {
      ScanIsDescent(locale, p, start, q.value + 1);
    }
  }

  lemma DescentPassesAGroup(locale: Locale, p: CString, start: nat, j: nat)
    requires start <= j < |p| && OpensGroup(p, j)
    ensures var q := Close(locale, p, j + 2);
            Descend(locale, p, start, j) == if q.None? then None else Descend(locale, p, start, q.value + 1)
  {
  }

  // The split of a group: the descent's, with nothing lost between the parentheses.
  lemma SplitIsLossless(locale: Locale, p: CString, i: nat)
    requires i < |p|
    ensures SplitGroup(locale, p, i) == Descend(locale, p, i + 1, i + 1)
    ensures SplitGroup(locale, p, i).Some? ==>
              var r := SplitGroup(locale, p, i).value;
              Join(r.alts) == p[i + 1..r.rest - 1] && p[r.rest - 1] == ')'
  {
    ScanIsDescent(locale, p, i + 1, i + 1);
    if SplitGroup(locale, p, i).Some? {
      SplitFromIsLossless(locale, p, i + 1, i + 1, 0);
    }
  }

  // What line 1135 appends stays within the pattern_len characters of lines 1037-1038:
  // the alternative, the text behind the group and the NUL.
  lemma AppendedRestFits(locale: Locale, p: CString, i: nat, a: nat)
    requires i < |p| && SplitGroup(locale, p, i).Some? && a < |SplitGroup(locale, p, i).value.alts|
    ensures var r := SplitGroup(locale, p, i).value;
            |r.alts[a] + p[r.rest..]| + 1 <= |p[i..]|
  {
    SplitIsLossless(locale, p, i);
  }
}
