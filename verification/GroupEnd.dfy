/**
  When END finds the parenthesis that closes a group (lib/fnmatch_loop.c:933-973). Its loop steps over the character
  behind a nested group without looking at it; EXT does not.
*/
module GroupEnd {
  import opened Wrappers
  import opened Text
  import opened Group
  import opened Alternatives
  import Division
  import Posix

  // Nothing from k up to r closes or opens anything.
  predicate IsHarmless(p: CString, k: nat, r: nat)
    requires r <= |p|
  {
    forall x :: k <= x < r ==> p[x] != ')' && p[x] != '[' && !OpensGroup(p, x)
  }

  // The character at j may be stepped over: it closes nothing, and opens nothing but a bracket with harmless contents.
  predicate IsPassable(locale: Locale, p: CString, j: nat)
    requires j <= |p|
  {
    || j == |p|
    || (p[j] == '[' && SkipBracket(locale, p, j).Some? && IsHarmless(p, j + 1, SkipBracket(locale, p, j).value))
    || IsHarmless(p, j, j + 1)
  }

  // Where END, which has stepped over the character at r, is again where EXT is
  function Resumes(locale: Locale, p: CString, r: nat): (o: nat)
    requires r < |p|
    ensures r <= o < |p|
  {
    if p[r] == '[' && SkipBracket(locale, p, r).Some? then SkipBracket(locale, p, r).value else r
  }

  // In the text of a group, from j on, something passable stands behind each nested group.
  predicate IsTame(locale: Locale, p: CString, j: nat)
    requires j <= |p|
    decreases |p| - j
  {
    if j == |p| then true
    else if p[j] == '[' then
      match SkipBracket(locale, p, j)
      case None => true
      case Some(q) => IsTame(locale, p, q + 1)
    else if OpensGroup(p, j) then
      && IsTame(locale, p, j + 2)
      && match Close(locale, p, j + 2)
         case None => true
         case Some(q) => IsPassable(locale, p, q + 1) && IsTame(locale, p, q + 1)
    else p[j] == ')' || IsTame(locale, p, j + 1)
  }

  function Behind(close: Option<nat>): Option<nat> {
    match close
    case None => None
    case Some(q) => Some(q + 1)
  }

  // What END's loop makes of a nested group at k
  lemma EndAtOperator(locale: Locale, p: CString, k: nat)
    requires 0 < k < |p| && OpensGroup(p, k)
    ensures EndFrom(locale, p, k - 1)
            == match EndFrom(locale, p, k + 1)
               case None => None
               case Some(r) => if r == |p| then None else EndFrom(locale, p, r)
  {
  }

  lemma ClosePassesAGroup(locale: Locale, p: CString, j: nat)
    requires j < |p| && OpensGroup(p, j)
    ensures var q := Close(locale, p, j + 2);
            Close(locale, p, j) == if q.None? then None else Close(locale, p, q.value + 1)
  {
  }

  lemma TameAtOperator(locale: Locale, p: CString, k: nat)
    requires k < |p| && OpensGroup(p, k)
    ensures var q := Close(locale, p, k + 2);
            IsTame(locale, p, k)
            <==> IsTame(locale, p, k + 2)
                 && (q.Some? ==> IsPassable(locale, p, q.value + 1) && IsTame(locale, p, q.value + 1))
  {
  }

  lemma {:induction false} EndPassesHarmless(locale: Locale, p: CString, j: nat, q: nat)
    requires j <= q < |p| && IsHarmless(p, j + 1, q + 1)
    ensures EndFrom(locale, p, j) == EndFrom(locale, p, q)
    decreases q - j
  {
    if j < q {
      EndPassesHarmless(locale, p, j + 1, q);
    }
  }

  lemma PassedOver(locale: Locale, p: CString, r: nat)
    requires r < |p| && IsPassable(locale, p, r)
    ensures var o := Resumes(locale, p, r);
            && EndFrom(locale, p, r) == EndFrom(locale, p, o)
            && Close(locale, p, r) == Close(locale, p, o + 1) && IsTame(locale, p, r) == IsTame(locale, p, o + 1)
  {
    if p[r] == '[' {
      EndPassesHarmless(locale, p, r, SkipBracket(locale, p, r).value);
    }
  }

  lemma {:induction false} EndIsClose(locale: Locale, p: CString, j: nat)
    requires j < |p| && IsTame(locale, p, j + 1)
    ensures EndFrom(locale, p, j) == Behind(Close(locale, p, j + 1))
    decreases |p| - j, 1
  {
    var k := j + 1;
    if k < |p| {
      if p[k] == '[' {
        var q := SkipBracket(locale, p, k);
        if q.Some? {
          EndIsClose(locale, p, q.value);
        }
      } else if OpensGroup(p, k) {
        EndIsCloseAtOperator(locale, p, k);
      } else if p[k] != ')' {
        EndIsClose(locale, p, k);
      }
    }
  }

  // A nested group that END and EXT end alike, and something behind it
  lemma NestedIsPassed(locale: Locale, p: CString, k: nat) returns (r: nat)
    requires 0 < k < |p| && OpensGroup(p, k) && Close(locale, p, k + 2).Some?
    requires EndFrom(locale, p, k + 1) == Behind(Close(locale, p, k + 2)) && Close(locale, p, k + 2).value + 1 < |p|
    ensures r == Close(locale, p, k + 2).value + 1 && k + 2 < r < |p|
    ensures EndFrom(locale, p, k - 1) == EndFrom(locale, p, r) && Close(locale, p, k) == Close(locale, p, r)
  {
    r := Close(locale, p, k + 2).value + 1;
    EndAtOperator(locale, p, k);
    ClosePassesAGroup(locale, p, k);
  }

  lemma NothingBehindNested(locale: Locale, p: CString, k: nat)
    requires 0 < k < |p| && OpensGroup(p, k) && EndFrom(locale, p, k + 1) == Behind(Close(locale, p, k + 2))
    requires Close(locale, p, k + 2).Some? ==> Close(locale, p, k + 2).value + 1 == |p|
    ensures EndFrom(locale, p, k - 1) == None && Close(locale, p, k) == None
  {
    EndAtOperator(locale, p, k);
    ClosePassesAGroup(locale, p, k);
  }

  lemma {:induction false} EndIsCloseAtOperator(locale: Locale, p: CString, k: nat)
    requires 0 < k < |p| && OpensGroup(p, k) && IsTame(locale, p, k)
    ensures EndFrom(locale, p, k - 1) == Behind(Close(locale, p, k))
    decreases |p| - (k - 1), 0
  {
    TameAtOperator(locale, p, k);
    EndIsClose(locale, p, k + 1);
    var q := Close(locale, p, k + 2);
    if q.Some? && q.value + 1 < |p| {
      var r := NestedIsPassed(locale, p, k);
      PassedOver(locale, p, r);
      EndIsClose(locale, p, Resumes(locale, p, r));
    } else {
      NothingBehindNested(locale, p, k);
    }
  }

  // A descent into a group's text ends behind the parenthesis that closes it.
  predicate EndsAt(split: Option<Split>, close: Option<nat>) {
    match split
    case None => close.None?
    case Some(s) => s.rest > 0 && close == Some(s.rest - 1)
  }

  lemma {:induction false} DescentEndsAtClose(locale: Locale, p: CString, start: nat, j: nat)
    requires start <= j <= |p|
    ensures EndsAt(Descend(locale, p, start, j), Close(locale, p, j))
    decreases |p| - j, 1
  {
    if j < |p| {
      if p[j] == '[' {
        var q := SkipBracket(locale, p, j);
        if q.Some? {
          DescentEndsAtClose(locale, p, start, q.value + 1);
        }
      } else if OpensGroup(p, j) {
        DescentAtGroupEndsAtClose(locale, p, start, j);
      } else if p[j] == '|' {
        DescentEndsAtClose(locale, p, j + 1, j + 1);
      } else if p[j] != ')' {
        DescentEndsAtClose(locale, p, start, j + 1);
      }
    }
  }

  lemma {:induction false} DescentAtGroupEndsAtClose(locale: Locale, p: CString, start: nat, j: nat)
    requires start <= j < |p| && OpensGroup(p, j)
    ensures EndsAt(Descend(locale, p, start, j), Close(locale, p, j))
    decreases |p| - j, 0
  {
    DescentPassesAGroup(locale, p, start, j);
    ClosePassesAGroup(locale, p, j);
    var q := Close(locale, p, j + 2);
    if q.Some? {
      DescentEndsAtClose(locale, p, start, q.value + 1);
    }
  }

  // Where EXT ends the group at i, or i if it is none
  function Closing(locale: Locale, p: CString, i: nat): nat
    requires i < |p|
  {
    match SplitGroup(locale, p, i)
    case None => i
    case Some(split) => split.rest
  }

  lemma ClosingIsBehindClose(locale: Locale, p: CString, i: nat)
    requires i < |p|
    ensures Closing(locale, p, i) == match Close(locale, p, i + 1) case None => i case Some(q) => q + 1
    ensures SplitGroup(locale, p, i).None? <==> Close(locale, p, i + 1).None?
  {
    ScanIsDescent(locale, p, i + 1, i + 1);
    DescentEndsAtClose(locale, p, i + 1, i + 1);
  }

  // END ends a tame group where EXT does.
  lemma EndFindsClosing(locale: Locale, p: CString, i: nat)
    requires i < |p| && IsTame(locale, p, i + 1)
    ensures End(locale, p, i) == Closing(locale, p, i)
  {
    EndIsClose(locale, p, i);
    ClosingIsBehindClose(locale, p, i);
  }

  // ----- and where it does not -----

  // The first nested group with something else behind it is tame itself, and stands directly before the closing
  // parenthesis.
  predicate MissesClosing(locale: Locale, p: CString, j: nat)
    requires j <= |p|
    decreases |p| - j
  {
    && j < |p|
    && if p[j] == '[' then
         var q := SkipBracket(locale, p, j);
         q.Some? && MissesClosing(locale, p, q.value + 1)
       else if OpensGroup(p, j) then
         var q := Close(locale, p, j + 2);
         && IsTame(locale, p, j + 2) && q.Some? && q.value + 1 < |p|
         && (p[q.value + 1] == ')' || (IsPassable(locale, p, q.value + 1) && MissesClosing(locale, p, q.value + 1)))
       else p[j] != ')' && MissesClosing(locale, p, j + 1)
  }

  // Past a parenthesis that closes the text from j on
  predicate GoesPast(r: Option<nat>, close: Option<nat>) {
    close.Some? && (r.Some? ==> r.value > close.value + 1)
  }

  lemma {:induction false} EndGoesPast(locale: Locale, p: CString, j: nat)
    requires j < |p| && MissesClosing(locale, p, j + 1)
    ensures GoesPast(EndFrom(locale, p, j), Close(locale, p, j + 1))
    decreases |p| - j, 1
  {
    var k := j + 1;
    if p[k] == '[' {
      EndGoesPast(locale, p, SkipBracket(locale, p, k).value);
    } else if OpensGroup(p, k) {
      EndGoesPastAtOperator(locale, p, k);
    } else {
      EndGoesPast(locale, p, k);
    }
  }

  lemma {:induction false} EndGoesPastAtOperator(locale: Locale, p: CString, k: nat)
    requires 0 < k < |p| && OpensGroup(p, k) && MissesClosing(locale, p, k)
    ensures GoesPast(EndFrom(locale, p, k - 1), Close(locale, p, k))
    decreases |p| - (k - 1), 0
  {
    var r := MissesAtOperator(locale, p, k);
    if p[r] == ')' {
      EndStepsOverClose(locale, p, r);
    } else {
      var o := MissesBehind(locale, p, r);
      EndGoesPast(locale, p, o);
    }
  }

  lemma EndStepsOverClose(locale: Locale, p: CString, r: nat)
    requires r < |p| && p[r] == ')'
    ensures GoesPast(EndFrom(locale, p, r), Close(locale, p, r))
  {
  }

  lemma MissesAtOperator(locale: Locale, p: CString, k: nat) returns (r: nat)
    requires 0 < k < |p| && OpensGroup(p, k) && MissesClosing(locale, p, k)
    ensures k + 2 < r < |p| && (p[r] == ')' || (IsPassable(locale, p, r) && MissesClosing(locale, p, r)))
    ensures EndFrom(locale, p, k - 1) == EndFrom(locale, p, r) && Close(locale, p, k) == Close(locale, p, r)
  {
    EndIsClose(locale, p, k + 1);
    r := NestedIsPassed(locale, p, k);
  }

  lemma MissesBehind(locale: Locale, p: CString, r: nat) returns (o: nat)
    requires r < |p| && p[r] != ')' && IsPassable(locale, p, r) && MissesClosing(locale, p, r)
    ensures r <= o < |p| && MissesClosing(locale, p, o + 1)
    ensures EndFrom(locale, p, r) == EndFrom(locale, p, o) && Close(locale, p, r) == Close(locale, p, o + 1)
  {
    o := Resumes(locale, p, r);
    PassedOver(locale, p, r);
  }

  // A nested group directly before the closing parenthesis, with nothing amiss inside or before it: END never finds
  // that parenthesis.
  lemma EndMissesClosing(locale: Locale, p: CString, i: nat)
    requires i < |p| && MissesClosing(locale, p, i + 1)
    ensures SplitGroup(locale, p, i).Some? && End(locale, p, i) != Closing(locale, p, i)
  {
    EndGoesPast(locale, p, i);
    ClosingIsBehindClose(locale, p, i);
  }

  // END takes a parenthesis behind r for the one it looks for, which EXT takes for another: that of a group which opens
  // at r, or one in the bracket at r.
  predicate TakesAnother(locale: Locale, p: CString, r: nat)
    requires r < |p|
  {
    || (OpensGroup(p, r) && IsTame(locale, p, r + 2) && Close(locale, p, r + 2).Some?)
    || (p[r] == '[' && exists x :: r < x < |p| && p[x] == ')' && IsHarmless(p, r + 1, x)
                         && (SkipBracket(locale, p, r).Some? ==> x < SkipBracket(locale, p, r).value))
  }

  // The first nested group with something else behind it is tame itself, and stands directly before such an r.
  predicate StopsShort(locale: Locale, p: CString, j: nat)
    requires j <= |p|
    decreases |p| - j
  {
    && j < |p|
    && if p[j] == '[' then
         var q := SkipBracket(locale, p, j);
         q.Some? && StopsShort(locale, p, q.value + 1)
       else if OpensGroup(p, j) then
         var q := Close(locale, p, j + 2);
         && IsTame(locale, p, j + 2) && q.Some? && q.value + 1 < |p|
         && (|| TakesAnother(locale, p, q.value + 1)
             || (IsPassable(locale, p, q.value + 1) && StopsShort(locale, p, q.value + 1)))
       else p[j] != ')' && StopsShort(locale, p, j + 1)
  }

  // END's answer r is none of a parenthesis that closes the text from j on, but comes before it.
  predicate ComesBefore(r: Option<nat>, close: Option<nat>) {
    r.Some? && (close.Some? ==> r.value <= close.value)
  }

  lemma EndTakesGroups(locale: Locale, p: CString, r: nat)
    requires r < |p| && OpensGroup(p, r) && IsTame(locale, p, r + 2) && Close(locale, p, r + 2).Some?
    ensures ComesBefore(EndFrom(locale, p, r), Close(locale, p, r))
  {
    ClosePassesAGroup(locale, p, r);
    EndIsClose(locale, p, r + 1);
    assert EndFrom(locale, p, r) == EndFrom(locale, p, r + 1);
  }

  lemma EndTakesBrackets(locale: Locale, p: CString, r: nat, x: nat)
    requires r < x < |p| && p[r] == '[' && p[x] == ')' && IsHarmless(p, r + 1, x)
    requires SkipBracket(locale, p, r).Some? ==> x < SkipBracket(locale, p, r).value
    ensures ComesBefore(EndFrom(locale, p, r), Close(locale, p, r))
  {
    EndPassesHarmless(locale, p, r, x - 1);
    assert EndFrom(locale, p, x - 1) == Some(x + 1);
  }

  lemma EndTakesAnother(locale: Locale, p: CString, r: nat)
    requires r < |p| && TakesAnother(locale, p, r)
    ensures ComesBefore(EndFrom(locale, p, r), Close(locale, p, r))
  {
    if OpensGroup(p, r) {
      EndTakesGroups(locale, p, r);
    } else {
      var x :| r < x < |p| && p[x] == ')' && IsHarmless(p, r + 1, x)
               && (SkipBracket(locale, p, r).Some? ==> x < SkipBracket(locale, p, r).value);
      EndTakesBrackets(locale, p, r, x);
    }
  }

  lemma StopsBehind(locale: Locale, p: CString, r: nat) returns (o: nat)
    requires r < |p| && IsPassable(locale, p, r) && StopsShort(locale, p, r)
    ensures r <= o < |p| && StopsShort(locale, p, o + 1)
    ensures EndFrom(locale, p, r) == EndFrom(locale, p, o) && Close(locale, p, r) == Close(locale, p, o + 1)
  {
    o := Resumes(locale, p, r);
    PassedOver(locale, p, r);
  }

  lemma {:induction false} EndComesBefore(locale: Locale, p: CString, j: nat)
    requires j < |p| && StopsShort(locale, p, j + 1)
    ensures ComesBefore(EndFrom(locale, p, j), Close(locale, p, j + 1))
    decreases |p| - j, 1
  {
    var k := j + 1;
    if p[k] == '[' {
      EndComesBefore(locale, p, SkipBracket(locale, p, k).value);
    } else if OpensGroup(p, k) {
      EndComesBeforeAtOperator(locale, p, k);
    } else {
      EndComesBefore(locale, p, k);
    }
  }

  lemma {:induction false} EndComesBeforeAtOperator(locale: Locale, p: CString, k: nat)
    requires 0 < k < |p| && OpensGroup(p, k) && StopsShort(locale, p, k)
    ensures ComesBefore(EndFrom(locale, p, k - 1), Close(locale, p, k))
    decreases |p| - (k - 1), 0
  {
    var r := StopsAtOperator(locale, p, k);
    if TakesAnother(locale, p, r) {
      EndTakesAnother(locale, p, r);
    } else {
      var o := StopsBehind(locale, p, r);
      EndComesBefore(locale, p, o);
    }
  }

  lemma StopsAtOperator(locale: Locale, p: CString, k: nat) returns (r: nat)
    requires 0 < k < |p| && OpensGroup(p, k) && StopsShort(locale, p, k)
    ensures k + 2 < r < |p|
    ensures TakesAnother(locale, p, r) || (IsPassable(locale, p, r) && StopsShort(locale, p, r))
    ensures EndFrom(locale, p, k - 1) == EndFrom(locale, p, r) && Close(locale, p, k) == Close(locale, p, r)
  {
    EndIsClose(locale, p, k + 1);
    r := NestedIsPassed(locale, p, k);
  }

  // A nested group directly before another one, or before a bracket with a parenthesis in it, with nothing amiss inside
  // or before it: END stops at a parenthesis before the one that closes the group.
  lemma EndStopsShort(locale: Locale, p: CString, i: nat)
    requires i < |p| && StopsShort(locale, p, i + 1)
    ensures End(locale, p, i) != Closing(locale, p, i)
    ensures End(locale, p, i) > i && (SplitGroup(locale, p, i).Some? ==> End(locale, p, i) < Closing(locale, p, i))
  {
    EndComesBefore(locale, p, i);
    ClosingIsBehindClose(locale, p, i);
  }

  // ----- exactly, where no closing parenthesis stands directly before a group or a bracket that is not harmless -----

  predicate NothingOpensBehindClosing(locale: Locale, p: CString, j: nat) {
    forall y :: j <= y < |p| && p[y] == ')' ==> IsPassable(locale, p, y + 1) || p[y + 1] == ')'
  }

  // The d-th parenthesis from j on that closes no group opened behind j
  function NthClose(locale: Locale, p: CString, j: nat, d: nat): (r: Option<nat>)
    requires j <= |p| && d > 0
    ensures r.Some? ==> j <= r.value < |p| && p[r.value] == ')'
    decreases d
  {
    var q :- Close(locale, p, j);
    if d == 1 then Some(q) else NthClose(locale, p, q + 1, d - 1)
  }

  lemma {:induction false} NthCloseAdds(locale: Locale, p: CString, j: nat, a: nat, b: nat)
    requires j <= |p| && a > 0 && b > 0 && NthClose(locale, p, j, a).Some?
    ensures NthClose(locale, p, j, a + b) == NthClose(locale, p, NthClose(locale, p, j, a).value + 1, b)
    decreases a
  {
    if a > 1 {
      NthCloseAdds(locale, p, Close(locale, p, j).value + 1, a - 1, b);
    }
  }

  lemma NthClosePassesAGroup(locale: Locale, p: CString, k: nat, d: nat)
    requires k < |p| && OpensGroup(p, k) && d > 0 && Close(locale, p, k + 2).Some?
    ensures NthClose(locale, p, k, d) == NthClose(locale, p, Close(locale, p, k + 2).value + 1, d)
    ensures NthClose(locale, p, k + 2, d + 1) == NthClose(locale, p, k, d)
  {
    ClosePassesAGroup(locale, p, k);
  }

  predicate IsSteppable(locale: Locale, p: CString, r: nat)
    requires r < |p|
  {
    IsPassable(locale, p, r) || p[r] == ')'
  }

  lemma NthCloseStepsOver(locale: Locale, p: CString, r: nat, d: nat)
    requires r < |p| && d > 0 && IsSteppable(locale, p, r)
    ensures var o := Resumes(locale, p, r);
            && (p[r] != ')' ==> NthClose(locale, p, r, d) == NthClose(locale, p, o + 1, d))
            && (p[r] == ')' ==> NthClose(locale, p, r, d + 1) == NthClose(locale, p, o + 1, d))
  {
    if p[r] != ')' {
      PassedOver(locale, p, r);
    }
  }

  lemma NthCloseFromNested(locale: Locale, p: CString, k: nat, d1: nat, r: nat, e: nat)
    requires k < |p| && OpensGroup(p, k) && d1 > 0 && e > 0 && 0 < r <= |p|
    requires NthClose(locale, p, k + 2, d1) == Some(r - 1)
    ensures NthClose(locale, p, k, d1 - 1 + e) == NthClose(locale, p, r, e)
  {
    if d1 == 1 {
      NthClosePassesAGroup(locale, p, k, e);
    } else {
      NthClosePassesAGroup(locale, p, k, d1 - 1);
      NthCloseAdds(locale, p, k, d1 - 1, e);
    }
  }

  // From the d1-th parenthesis of the nested group, one character stepped over, and the d2-th from there
  lemma BehindNested(locale: Locale, p: CString, k: nat, d1: nat, r: nat, d2: nat) returns (d: nat)
    requires k < |p| && OpensGroup(p, k) && d1 > 0 && d2 > 0 && 0 < r < |p| && IsSteppable(locale, p, r)
    requires NthClose(locale, p, k + 2, d1) == Some(r - 1)
    ensures d > 0 && NthClose(locale, p, k, d) == NthClose(locale, p, Resumes(locale, p, r) + 1, d2)
    ensures d == 1 <==> d1 == 1 && d2 == 1 && p[r] != ')'
  {
    var e := if p[r] == ')' then d2 + 1 else d2;
    NthCloseStepsOver(locale, p, r, d2);
    NthCloseFromNested(locale, p, k, d1, r, e);
    d := d1 - 1 + e;
  }

  // END's loop stops behind the d-th parenthesis, which is the first if and only if the text is tame.
  ghost predicate Counted(locale: Locale, p: CString, x: nat, r: Option<nat>, d: nat)
    requires x <= |p|
  {
    && d > 0
    && match r
       case None => IsTame(locale, p, x) ==> Close(locale, p, x).None?
       case Some(end) => end > 0 && NthClose(locale, p, x, d) == Some(end - 1) && (d == 1 <==> IsTame(locale, p, x))
  }

  lemma BracketIsSkipped(locale: Locale, p: CString, k: nat, d: nat)
    requires 0 < k < |p| && p[k] == '[' && d > 0 && SkipBracket(locale, p, k).Some?
    ensures var q := SkipBracket(locale, p, k).value;
            && EndFrom(locale, p, k - 1) == EndFrom(locale, p, q)
            && Close(locale, p, k) == Close(locale, p, q + 1) && IsTame(locale, p, k) == IsTame(locale, p, q + 1)
            && NthClose(locale, p, k, d) == NthClose(locale, p, q + 1, d)
  {
  }

  lemma CharacterIsSkipped(locale: Locale, p: CString, k: nat, d: nat)
    requires 0 < k < |p| && p[k] != '[' && p[k] != ')' && !OpensGroup(p, k) && d > 0
    ensures EndFrom(locale, p, k - 1) == EndFrom(locale, p, k)
    ensures Close(locale, p, k) == Close(locale, p, k + 1) && IsTame(locale, p, k) == IsTame(locale, p, k + 1)
    ensures NthClose(locale, p, k, d) == NthClose(locale, p, k + 1, d)
  {
  }

  lemma CountedBehindBracket(locale: Locale, p: CString, k: nat, d: nat)
    requires 0 < k < |p| && p[k] == '[' && SkipBracket(locale, p, k).Some?
    requires var q := SkipBracket(locale, p, k).value; Counted(locale, p, q + 1, EndFrom(locale, p, q), d)
    ensures Counted(locale, p, k, EndFrom(locale, p, k - 1), d)
  {
    BracketIsSkipped(locale, p, k, d);
  }

  lemma CountedBehindCharacter(locale: Locale, p: CString, k: nat, d: nat)
    requires 0 < k < |p| && p[k] != '[' && p[k] != ')' && !OpensGroup(p, k)
    requires Counted(locale, p, k + 1, EndFrom(locale, p, k), d)
    ensures Counted(locale, p, k, EndFrom(locale, p, k - 1), d)
  {
    CharacterIsSkipped(locale, p, k, d);
  }

  lemma CountedHere(locale: Locale, p: CString, k: nat)
    requires 0 < k <= |p|
    requires k == |p| || p[k] == ')' || (p[k] == '[' && SkipBracket(locale, p, k).None?)
    ensures Counted(locale, p, k, EndFrom(locale, p, k - 1), 1)
  {
  }

  lemma EndStepsOver(locale: Locale, p: CString, k: nat, r: nat)
    requires 0 < k < |p| && OpensGroup(p, k) && 0 < r < |p| && IsSteppable(locale, p, r)
    requires EndFrom(locale, p, k + 1) == Some(r)
    ensures EndFrom(locale, p, k - 1) == EndFrom(locale, p, Resumes(locale, p, r))
  {
    EndAtOperator(locale, p, k);
    if p[r] != ')' {
      PassedOver(locale, p, r);
    }
  }

  // The text from k on is tame if the nested group is, and what is behind it.
  lemma NestedTame(locale: Locale, p: CString, k: nat, d1: nat, r: nat)
    requires 0 < k < |p| && OpensGroup(p, k) && 0 < r < |p| && IsSteppable(locale, p, r)
    requires Counted(locale, p, k + 2, Some(r), d1)
    ensures var o := Resumes(locale, p, r);
            && (IsTame(locale, p, k) <==> d1 == 1 && p[r] != ')' && IsTame(locale, p, o + 1))
            && (IsTame(locale, p, k) ==> Close(locale, p, k) == Close(locale, p, o + 1))
  {
    TameAtOperator(locale, p, k);
    ClosePassesAGroup(locale, p, k);
    if p[r] != ')' {
      PassedOver(locale, p, r);
    }
  }

  // `one` says that the nested group is tame and something passable stands behind it.
  lemma CountedFrom(locale: Locale, p: CString, k: nat, x: nat, end: Option<nat>, one: bool, d: nat, d2: nat)
    requires k <= |p| && x <= |p| && d > 0 && Counted(locale, p, x, end, d2)
    requires NthClose(locale, p, k, d) == NthClose(locale, p, x, d2) && (d == 1 <==> one && d2 == 1)
    requires IsTame(locale, p, k) <==> one && IsTame(locale, p, x)
    requires IsTame(locale, p, k) ==> Close(locale, p, k) == Close(locale, p, x)
    ensures Counted(locale, p, k, end, d)
  {
  }

  // The nested group counts d1 parentheses to r, and from where END resumes there are d2 more.
  lemma CountedBehindNested(locale: Locale, p: CString, k: nat, d1: nat, r: nat, d2: nat) returns (d: nat)
    requires 0 < k < |p| && OpensGroup(p, k) && 0 < r < |p| && IsSteppable(locale, p, r)
    requires EndFrom(locale, p, k + 1) == Some(r) && Counted(locale, p, k + 2, Some(r), d1)
    requires var o := Resumes(locale, p, r); Counted(locale, p, o + 1, EndFrom(locale, p, o), d2)
    ensures Counted(locale, p, k, EndFrom(locale, p, k - 1), d)
  {
    var o := Resumes(locale, p, r);
    EndStepsOver(locale, p, k, r);
    NestedTame(locale, p, k, d1, r);
    d := BehindNested(locale, p, k, d1, r, d2);
    CountedFrom(locale, p, k, o + 1, EndFrom(locale, p, o), d1 == 1 && p[r] != ')', d, d2);
  }

  lemma CountedWithoutNested(locale: Locale, p: CString, k: nat, d1: nat)
    requires 0 < k < |p| && OpensGroup(p, k)
    requires Counted(locale, p, k + 2, EndFrom(locale, p, k + 1), d1)
    requires EndFrom(locale, p, k + 1) == None || EndFrom(locale, p, k + 1) == Some(|p|)
    ensures Counted(locale, p, k, EndFrom(locale, p, k - 1), 1)
  {
    EndAtOperator(locale, p, k);
    ClosePassesAGroup(locale, p, k);
    TameAtOperator(locale, p, k);
  }

  // Each nested group that stands directly before a closing parenthesis costs END one parenthesis, and nothing gives
  // one back.
  lemma {:induction false} EndCounts(locale: Locale, p: CString, j: nat) returns (d: nat)
    requires j < |p| && NothingOpensBehindClosing(locale, p, j + 1)
    ensures Counted(locale, p, j + 1, EndFrom(locale, p, j), d)
    decreases |p| - j, 2
  {
    var k := j + 1;
    if k == |p| || p[k] == ')' || (p[k] == '[' && SkipBracket(locale, p, k).None?) {
      d := 1;
      CountedHere(locale, p, k);
    } else if p[k] == '[' {
      d := EndCounts(locale, p, SkipBracket(locale, p, k).value);
      CountedBehindBracket(locale, p, k, d);
    } else if OpensGroup(p, k) {
      d := EndCountsAtOperator(locale, p, k);
    } else {
      d := EndCounts(locale, p, k);
      CountedBehindCharacter(locale, p, k, d);
    }
  }

  lemma NothingOpensAtEnd(locale: Locale, p: CString, k: nat, r: nat)
    requires k + 1 < |p| && NothingOpensBehindClosing(locale, p, k) && EndFrom(locale, p, k + 1) == Some(r) && r < |p|
    ensures k + 2 < r && IsSteppable(locale, p, r)
    ensures NothingOpensBehindClosing(locale, p, Resumes(locale, p, r) + 1)
  {
    assert p[r - 1] == ')';
  }

  lemma {:induction false} EndCountsAtOperator(locale: Locale, p: CString, k: nat) returns (d: nat)
    requires 0 < k < |p| && OpensGroup(p, k) && NothingOpensBehindClosing(locale, p, k)
    ensures Counted(locale, p, k, EndFrom(locale, p, k - 1), d)
    decreases |p| - (k - 1), 1
  {
    var d1 := EndCounts(locale, p, k + 1);
    var r := EndFrom(locale, p, k + 1);
    if r.Some? && r.value < |p| {
      d := EndCountsPast(locale, p, k, d1, r.value);
    } else {
      d := 1;
      CountedWithoutNested(locale, p, k, d1);
    }
  }

  lemma {:induction false} EndCountsPast(locale: Locale, p: CString, k: nat, d1: nat, r: nat) returns (d: nat)
    requires 0 < k < |p| && OpensGroup(p, k) && NothingOpensBehindClosing(locale, p, k)
    requires EndFrom(locale, p, k + 1) == Some(r) && r < |p|
    requires Counted(locale, p, k + 2, EndFrom(locale, p, k + 1), d1)
    ensures Counted(locale, p, k, EndFrom(locale, p, k - 1), d)
    decreases |p| - (k - 1), 0
  {
    NothingOpensAtEnd(locale, p, k, r);
    var d2 := EndCounts(locale, p, Resumes(locale, p, r));
    d := CountedBehindNested(locale, p, k, d1, r, d2);
  }

  // Where no closing parenthesis stands directly before a group, or a bracket that is not harmless, END ends a group
  // where EXT does if and only if it is tame. Elsewhere, what END steps over can give back a parenthesis that it
  // missed: Surprises.MissesCancel.
  lemma EndIsExact(locale: Locale, p: CString, i: nat)
    requires i < |p| && NothingOpensBehindClosing(locale, p, i + 1)
    ensures End(locale, p, i) == Closing(locale, p, i)
            <==> SplitGroup(locale, p, i).None? || IsTame(locale, p, i + 1)
  {
    var d := EndCounts(locale, p, i);
    ClosingIsBehindClose(locale, p, i);
    if IsTame(locale, p, i + 1) {
      EndFindsClosing(locale, p, i);
    } else if EndFrom(locale, p, i).Some? {
      NthCloseAdds(locale, p, i + 1, 1, d - 1);
    }
  }

  // ----- brackets in a group -----

  // Where the first item of the bracket at j begins
  function FirstItem(env: Env, p: CString, j: nat): nat
    requires j < |p|
  {
    if Posix.HasNotSign(env, p, j + 1) then j + 2 else j + 1
  }

  // END and EXT step over a bracket up to the first `]` behind its first character.
  lemma SkipsToFirstClose(env: Env, p: CString, j: nat)
    requires j < |p|
    ensures var (r, first) := (SkipBracket(env.locale, p, j), FirstItem(env, p, j));
            && (r.Some? ==> first < r.value && p[r.value] == ']' && forall x :: first < x < r.value ==> p[x] != ']')
            && (r.None? ==> forall x :: first < x < |p| ==> p[x] != ']')
  {
    var first := FirstItem(env, p, j);
    FindsFirstClose(p, if At(p, first) == ']' then first + 1 else first);
  }

  lemma {:induction false} FindsFirstClose(p: CString, k: nat)
    requires k <= |p|
    ensures var r := FindClose(p, k);
            forall x :: k <= x < (if r.Some? then r.value else |p|) ==> p[x] != ']'
    decreases |p| - k
  {
    if At(p, k) != ']' && k < |p| {
      FindsFirstClose(p, k + 1);
    }
  }

  // That is the bracket the standard reads, if no other `]` is in it: no class, and none that a backslash quotes.
  lemma SkipsTheBracket(env: Env, p: CString, j: nat)
    requires j < |p| && Posix.ReadSet(env, p, j + 1).Some?
    requires var next := Posix.ReadSet(env, p, j + 1).value.1;
             forall x :: FirstItem(env, p, j) < x < next - 1 ==> p[x] != ']'
    ensures SkipBracket(env.locale, p, j) == Some(Posix.ReadSet(env, p, j + 1).value.1 - 1)
  {
    var (first, next) := (FirstItem(env, p, j), Posix.ReadSet(env, p, j + 1).value.1);
    SkipsToFirstClose(env, p, j);
    Division.SetEnds(env, p, first);
    ItemsTakeOne(env, p, first);
    assert p[next - 1] == ']' && first < next - 1;
  }

  lemma ItemsTakeOne(env: Env, p: CString, k: nat)
    requires k <= |p| && Posix.ReadItems(env, p, k).Some?
    ensures Posix.ReadItems(env, p, k).value.1 > k + 1
  {
  }
}
