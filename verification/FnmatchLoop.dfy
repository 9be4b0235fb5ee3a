/**
  FCT and EXT (lib/fnmatch_loop.c:39-930, 975-1193) in their own form: a loop that advances through
  pattern and string, and calls itself for the text behind a `*` and for groups. Each returns what
  the functions in Fnmatch say; and FCT, counting the turns of its main loop over all the calls it
  makes, stays within (|pattern| + 1) * (|string| + 1) of them.
*/
module FnmatchLoop {
  import opened Wrappers
  import opened Text
  import opened Fnmatch
  import opened FnmatchScan
  import Group

  // ----- the work bound -----

  // (p + 1) * (s + 1), row by row
  function Budget(p: nat, s: nat): nat {
    if p == 0 then s + 1 else Budget(p - 1, s) + (s + 1)
  }

  lemma {:induction false} BudgetIsProduct(p: nat, s: nat)
    ensures Budget(p, s) == (p + 1) * (s + 1)
  {
    if p > 0 {
      BudgetIsProduct(p - 1, s);
      assert (p + 1) * (s + 1) == p * (s + 1) + (s + 1);
    }
  }

  lemma {:induction false} BudgetIsMonotone(p: nat, s: nat, p': nat, s': nat)
    requires p' <= p && s' <= s
    ensures Budget(p', s') <= Budget(p, s)
  {
    if p' < p {
      BudgetIsMonotone(p - 1, s, p', s');
    } else if p > 0 {
      BudgetIsMonotone(p - 1, s, p' - 1, s');
    }
  }

  // One turn that takes a pattern character and a string character
  lemma TurnIsPaid(p: nat, s: nat, p': nat)
    requires p' < p && 0 < s
    ensures 1 + Budget(p', s - 1) <= Budget(p, s)
  {
    BudgetIsMonotone(p - 1, s, p', s - 1);
  }

  // t places tried, at most q turns each
  function Tries(t: nat, q: nat): nat {
    if t == 0 then 0 else Tries(t - 1, q) + q
  }

  lemma {:induction false} TriesWithinBudget(t: nat, q: nat, s: nat)
    requires 0 < q && t <= s
    ensures Tries(t, q) + Budget(q - 1, s - t) == Budget(q - 1, s)
    decreases t
  {
    if t > 0 {
      TriesWithinBudget(t - 1, q, s);
      BudgetOneMore(q - 1, s - t);
    }
  }

  lemma {:induction false} BudgetOneMore(p: nat, s: nat)
    ensures Budget(p, s + 1) == Budget(p, s) + p + 1
  {
    if p > 0 {
      BudgetOneMore(p - 1, s);
    }
  }

  // A star that tries t places and goes on behind t characters or more with less than q pattern characters left
  lemma SearchIsPaid(p: nat, s: nat, q: nat, t: nat, p': nat, s': nat)
    requires 0 < q < p && t <= s && p' < q && s' <= s - t
    ensures 1 + Tries(t, q) + Budget(p', s') <= Budget(p, s)
  {
    BudgetIsMonotone(q - 1, s - t, p', s');
    TriesWithinBudget(t, q, s);
    BudgetIsMonotone(p, s, q, s);
  }

  lemma FailedSearchIsPaid(p: nat, s: nat, q: nat, t: nat)
    requires 0 < q < p && t <= s
    ensures 1 + Tries(t, q) <= Budget(p, s)
  {
    SearchIsPaid(p, s, q, t, 0, 0);
  }

  lemma {:induction false} TriesIsMonotone(t: nat, t': nat, q: nat)
    requires t <= t'
    ensures Tries(t, q) <= Tries(t', q)
  {
    if t < t' {
      TriesIsMonotone(t, t' - 1, q);
    }
  }

  ghost predicate Counts(env: Env) {
    env.Sane() && !env.flags.extMatch
  }

  lemma InnerCounts(env: Env)
    requires Counts(env)
    ensures Counts(env.Inner())
  {
    assert forall c: char :: env.Inner().Fold(c) == env.Fold(c);
  }

  // ----- case '*' -----

  // Lines 111-141
  method SkipRun(env: Env, p: CString, pattern: nat, s: CString, str: nat, e: nat) returns (r: Option<(nat, nat)>)
    requires pattern <= |p| && str <= e <= |s|
    ensures r == SkipWildcards(env, p, pattern, s, str, e)
    ensures r.Some? ==> At(p, r.value.0) != '?' && At(p, r.value.0) != '*'
  {
    var i, n := pattern, str;
    while At(p, i) == '?' || At(p, i) == '*'
      invariant pattern <= i <= |p| && str <= n <= e
      invariant SkipWildcards(env, p, i, s, n, e) == SkipWildcards(env, p, pattern, s, str, e)
      decreases |p| - i
    {
      var c := At(p, i);
      if At(p, i + 1) == '(' && env.flags.extMatch {
        var endp := EndPattern(env.locale, p, i + 1);
        if endp != i + 1 {
          i := endp;
          continue;
        }
      }
      if c == '?' {
        if n == e || (s[n] == '/' && env.flags.fileName) {
          return None;
        }
        n := n + 1;
      }
      i := i + 1;
    }
    return Some((i, n));
  }

  // A turn with p pattern and s string characters left that cost `turns` more and goes on, if at all, with
  // fewer left
  ghost predicate IsPaid(p: nat, s: nat, turns: nat, turn: Turn, patternEnd: nat, e: nat) {
    if turn.Return? then 1 + turns <= Budget(p, s)
    else turn.pattern <= patternEnd && turn.str <= e
         && 1 + turns + Budget(patternEnd - turn.pattern, e - turn.str) <= Budget(p, s)
  }

  // Lines 108-226, with `pattern` behind the star
  method StarCase(env: Env, p: CString, pattern: nat, s: CString, str: nat, e: nat, nlp: bool)
    returns (turn: Turn, ghost turns: nat)
    requires pattern <= |p| && str <= e <= |s|
    ensures turn == Star(env, p, pattern, s, str, e, nlp)
    ensures Counts(env) ==> IsPaid(|p| - pattern + 1, e - str, turns, turn, |p|, e)
    decreases |p| - pattern, e - str, 5, 1
  {
    turn, turns := Return(NoMatch), 0;
    BudgetIsMonotone(|p| - pattern + 1, e - str, 0, 0);
    if str < e && s[str] == '.' && nlp {
      return;
    }
    var run := SkipRun(env, p, pattern, s, str, e);
    if run.Some? {
      turn, turns := BehindStarCase(env, p, run.value.0, s, run.value.1, e, nlp);
      BudgetIsMonotone(|p| - pattern + 1, e - str, |p| - run.value.0 + 1, e - run.value.1);
    }
  }

  // Lines 143-226
  method BehindStarCase(env: Env, p: CString, i: nat, s: CString, str: nat, e: nat, nlp: bool)
    returns (turn: Turn, ghost turns: nat)
    requires i <= |p| && str <= e <= |s| && At(p, i) != '*'
    ensures turn == BehindStar(env, p, i, s, str, e, nlp)
    ensures Counts(env) ==> IsPaid(|p| - i + 1, e - str, turns, turn, |p|, e)
    decreases |p| - i, e - str, 5, 0
  {
    turn, turns := Return(NoMatch), 0;
    BudgetIsMonotone(|p| - i + 1, e - str, 0, 0);
    if i == |p| {
      if !env.flags.fileName || env.flags.leadingDir || FindSlash(s, str, e) == e {
        turn := Return(Match);
      }
    } else if p[i] == '/' && env.flags.fileName {
      turn, turns := SlashCase(env, p, i, s, str, e);
    } else {
      // The next slash under FNM_FILE_NAME; else the next NUL, of which there is none
      var endp := if env.flags.fileName then FindSlash(s, str, e) else e;
      var v;
      v, turns := SearchLoop(env, p, i, s, str, endp, e, nlp);
      if v.Ends? {
        turn := Continue(v.pattern, v.str, v.noLeadingPeriod);
        if Counts(env) {
          SearchIsPaid(|p| - i + 1, e - str, |p| - i, v.str - str, |p| - v.pattern, e - v.str);
        }
      } else {
        turn := Return(v);
        FailedSearchIsPaid(|p| - i + 1, e - str, |p| - i, endp - str);
      }
    }
  }

  // Lines 188-196
  method SlashCase(env: Env, p: CString, i: nat, s: CString, str: nat, e: nat) returns (turn: Turn, ghost turns: nat)
    requires i < |p| && str <= e <= |s|
    ensures var m := FindSlash(s, str, e);
            turn == Return(if m < e then Fct(env, p, i + 1, s, m + 1, e, env.flags.period, false) else NoMatch)
    ensures Counts(env) ==> 1 + turns <= Budget(|p| - i + 1, e - str)
    decreases |p| - i, e - str, 4, 1
  {
    var n := str;
    turn, turns := Return(NoMatch), 0;
    BudgetIsMonotone(|p| - i + 1, e - str, 0, 0);
    while n < e && s[n] != '/'
      invariant str <= n <= e && FindSlash(s, n, e) == FindSlash(s, str, e)
    {
      n := n + 1;
    }
    if n < e {
      var v;
      v, turns := FctMethod(env, p, i + 1, s, n + 1, e, env.flags.period, false);
      turn := Return(v);
      TurnIsPaid(|p| - i + 1, e - n, |p| - (i + 1));
      BudgetIsMonotone(|p| - i + 1, e - str, |p| - i + 1, e - n);
    }
  }

  // Lines 183-186 and 205-214
  method SearchLoop(env: Env, p: CString, i: nat, s: CString, str: nat, endp: nat, e: nat, noLeadingPeriod: bool)
    returns (v: Verdict, ghost turns: nat)
    requires i < |p| && str <= endp <= e <= |s| && p[i] != '*'
    ensures v == Search(env.Inner(), p, i, s, str, endp, e, noLeadingPeriod)
    ensures v.Ends? ==> i <= v.pattern < |p| && str <= v.str <= e
    ensures Counts(env) && v.Ends? ==> i < v.pattern
    ensures Counts(env) ==> turns <= Tries(if v.Ends? then v.str - str else endp - str, |p| - i)
    decreases |p| - i, e - str, 4, 0
  {
    var n, nlp, inner := str, noLeadingPeriod, env.Inner();
    ghost var q := |p| - i;
    turns := 0;
    while n < endp
      invariant str <= n <= endp
      invariant Search(inner, p, i, s, n, endp, e, nlp) == Search(inner, p, i, s, str, endp, e, noLeadingPeriod)
      invariant Counts(env) ==> turns <= Tries(n - str, q)
    {
      ghost var spent;
      v, spent := TryPlace(env, p, i, s, n, e, nlp);
      turns := turns + spent;
      if v != NoMatch {
        if Counts(env) {
          TriesIsMonotone(n + 1 - str, if v.Ends? then v.str - str else endp - str, q);
        }
        return;
      }
      n, nlp := n + 1, false;
    }
    v := NoMatch;
  }

  // One turn of the search: the first character is compared before the chunk is tried.
  method TryPlace(env: Env, p: CString, i: nat, s: CString, n: nat, e: nat, nlp: bool)
    returns (v: Verdict, ghost turns: nat)
    requires i < |p| && n < e <= |s| && p[i] != '*'
    ensures v == if SearchesBlindly(env.Inner(), p, i) || env.Inner().Fold(s[n]) == FirstLiteral(env.Inner(), p, i)
                 then Fct(env.Inner(), p, i, s, n, e, nlp, true) else NoMatch
    ensures v.Ends? ==> i <= v.pattern < |p| && n <= v.str <= e
    ensures Counts(env) ==> turns <= |p| - i && (v.Ends? ==> i < v.pattern && n < v.str)
    decreases |p| - i, e - n, 3, 2
  {
    var inner := env.Inner();
    v, turns := NoMatch, 0;
    if SearchesBlindly(inner, p, i) || inner.Fold(s[n]) == FirstLiteral(inner, p, i) {
      v, turns := FctMethod(inner, p, i, s, n, e, nlp, true);
      if Counts(env) {
        InnerCounts(env);
        ChunkMovesOn(inner, p, i, s, n, e, nlp);
      }
    }
  }

  // A chunk that was placed at n took at least one character of each text.
  lemma ChunkMovesOn(env: Env, p: CString, i: nat, s: CString, n: nat, e: nat, nlp: bool)
    requires Counts(env) && i < |p| && p[i] != '*' && n <= e <= |s|
    ensures var v := Fct(env, p, i, s, n, e, nlp, true); v.Ends? ==> i < v.pattern && n < v.str
  {
  }

  // ----- FCT -----

  // Within the budget, with p and s characters left of p0 and s0
  ghost predicate Affords(chunk: bool, turns: nat, p: nat, s: nat, p0: nat, s0: nat) {
    if chunk then turns + p <= p0 else turns + Budget(p, s) <= Budget(p0, s0)
  }

  method FctMethod(env: Env, p: CString, pattern: nat, s: CString, str: nat, e: nat, noLeadingPeriod: bool, chunk: bool)
    returns (v: Verdict, ghost turns: nat)
    requires pattern <= |p| && str <= e <= |s|
    ensures v == Fct(env, p, pattern, s, str, e, noLeadingPeriod, chunk)
    ensures Counts(env) ==> turns <= if chunk then |p| - pattern else Budget(|p| - pattern, e - str)
    decreases |p| - pattern, e - str, 3, 1
  {
    var i, n, nlp := pattern, str, noLeadingPeriod;
    turns := 0;
    while At(p, i) != '\0'
      invariant pattern <= i <= |p| && str <= n <= e
      invariant Fct(env, p, i, s, n, e, nlp, chunk) == Fct(env, p, pattern, s, str, e, noLeadingPeriod, chunk)
      invariant Counts(env) ==> Affords(chunk, turns, |p| - i, e - n, |p| - pattern, e - str)
      decreases |p| - i
    {
      var turn; ghost var spent;
      turn, spent := TurnMethod(env, p, i, s, n, e, nlp, chunk);
      turns := turns + 1 + spent;
      if turn.Return? {
        return turn.verdict, turns;
      }
      i, n, nlp := turn.pattern, turn.str, turn.noLeadingPeriod;
    }
    return if n == e || (env.flags.leadingDir && s[n] == '/') then Match else NoMatch, turns;
  }

  // The body of the loop (lines 57-919)
  method TurnMethod(env: Env, p: CString, i: nat, s: CString, n: nat, e: nat, nlp: bool, chunk: bool)
    returns (turn: Turn, ghost turns: nat)
    requires i < |p| && n <= e <= |s|
    ensures turn == LoopTurn(env, p, i, s, n, e, nlp, chunk)
    ensures Counts(env) ==> if chunk then turns == 0 else IsPaid(|p| - i, e - n, turns, turn, |p|, e)
    decreases |p| - i, e - n, 3, 0
  {
    turns := 0;
    BudgetIsMonotone(|p| - i, e - n, 0, 0);
    var c := env.Fold(p[i]);
    if env.flags.extMatch && Group.IsOperator(c) && At(p, i + 1) == '(' {
      var res := ExtMethod(env, c, p, i + 1, s, n, e, nlp);
      if res.Some? {
        return Return(if res.value then Match else NoMatch), 0;
      }
    } else if c == '*' && chunk {
      return Return(Ends(i, n, nlp)), 0;
    }
    if c == '*' {
      turn, turns := StarCase(env, p, i + 1, s, n, e, nlp);
    } else {
      var step := StepMethod(env, p, i, s, n, e, nlp);
      if step.None? {
        return Return(NoMatch), 0;
      }
      turn := Continue(step.value.0, n + 1, step.value.1);
      TurnIsPaid(|p| - i, e - n, |p| - step.value.0);
    }
  }

  // The cases of the switch other than '*' (lines 62-90, 228-250, 888-919)
  method StepMethod(env: Env, p: CString, i: nat, s: CString, n: nat, e: nat, nlp: bool)
    returns (r: Option<(nat, bool)>)
    requires i < |p| && n <= e <= |s|
    ensures r == Step(env, p, i, s, n, e, nlp)
  {
    var c := env.Fold(p[i]);
    if n == e {
      return None;
    }
    var next, newNlp := i + 1, false;
    if c == '?' {
      if (s[n] == '/' && env.flags.fileName) || (s[n] == '.' && nlp) {
        return None;
      }
    } else if c == '\\' && !env.flags.noEscape {
      if At(p, i + 1) == '\0' || env.Fold(s[n]) != env.Fold(At(p, i + 1)) {
        return None;
      }
      next := i + 2;
    } else if c == '[' {
      if (s[n] == '.' && nlp) || (s[n] == '/' && env.flags.fileName) {
        return None;
      }
      var outcome := MatchBracket(env, p, i + 1, s[n]);
      match outcome {
        case Reject => return None;
        case Accept(behind) => next := behind;
        case Unterminated =>
          if env.Fold(s[n]) != '[' {
            return None;
          }
      }
    } else if c == '/' && env.NoLeadingPeriod() {
      if s[n] != c {
        return None;
      }
      newNlp := true;
    } else if env.Fold(s[n]) != c {
      return None;
    }
    return Some((next, newNlp));
  }

  // ----- EXT -----

  method ExtMethod(env: Env, op: char, p: CString, i: nat, s: CString, str: nat, e: nat, nlp: bool)
    returns (res: Option<bool>)
    requires 0 < i < |p| && str <= e <= |s| && Group.IsOperator(op)
    ensures res == Ext(env, op, p, i, s, str, e, nlp)
    decreases |p| - (i - 1), e - str, 2, 3
  {
    var parsed := ParseAlternatives(env.locale, p, i);
    if parsed.None? {
      return None;
    }
    var split := parsed.value;
    Group.SplitFromIsLossless(env.locale, p, i + 1, i + 1, 0);
    if op == '*' || op == '?' {
      ghost var turns;
      var v;
      v, turns := FctMethod(env, p, split.rest, s, str, e, nlp, false);
      if v == Match {
        return Some(true);
      }
    }
    var found;
    if op == '*' || op == '+' {
      found := ClosureLoop(env, p, i, split, s, str, e, nlp);
    } else if op == '!' {
      found := NegationLoop(env, p, i, split, s, str, e, nlp);
    } else {
      found := ChoiceLoop(env, p, i, split, s, str, e, nlp);
    }
    return Some(found);
  }

  // Lines 1090-1118
  method ClosureLoop(env: Env, p: CString, i: nat, split: Group.Split, s: CString, str: nat, e: nat, nlp: bool)
    returns (found: bool)
    requires 0 < i < |p| && str <= e <= |s| && Group.Covers(p, i + 1, split)
    ensures found == Closure(env, p, i, split, s, str, e, nlp)
    decreases |p| - (i - 1), e - str, 2, 2
  {
    var a := 0;
    while a < |split.alts|
      invariant 0 <= a <= |split.alts|
      invariant forall a', rs | 0 <= a' < a && str <= rs <= e :: !ClosureAt(env, p, i, split, s, str, e, nlp, a', rs)
    {
      var rs := str;
      while rs <= e
        invariant str <= rs <= e + 1
        invariant forall rs' | str <= rs' < rs :: !ClosureAt(env, p, i, split, s, str, e, nlp, a, rs')
      {
        found := TryClosure(env, p, i, split, s, str, e, nlp, a, rs);
        if found {
          return;
        }
        rs := rs + 1;
      }
      a := a + 1;
    }
    return false;
  }

  // The condition at lines 1095-1114
  method TryClosure(env: Env, p: CString, i: nat, split: Group.Split, s: CString, str: nat, e: nat, nlp: bool,
                    a: nat, rs: nat)
    returns (found: bool)
    requires 0 < i < |p| && str <= rs <= e <= |s| && Group.Covers(p, i + 1, split) && a < |split.alts|
    ensures found == ClosureAt(env, p, i, split, s, str, e, nlp, a, rs)
    decreases |p| - (i - 1), e - str, 2, 1
  {
    var inner, nlp' := env.Inner(), NlpBehind(env, s, str, rs, nlp);
    ghost var turns;
    var v;
    v, turns := FctMethod(inner, split.alts[a], 0, s, str, rs, nlp, false);
    if v != Match {
      return false;
    }
    v, turns := FctMethod(inner, p, split.rest, s, rs, e, nlp', false);
    if v != Match && rs != str {
      v, turns := FctMethod(inner, p, i - 1, s, rs, e, nlp', false);
    }
    return v == Match;
  }

  // Lines 1130-1141: STRCAT writes behind each alternative in the list.
  method ChoiceLoop(env: Env, p: CString, i: nat, split: Group.Split, s: CString, str: nat, e: nat, nlp: bool)
    returns (found: bool)
    requires 0 < i < |p| && str <= e <= |s| && Group.Covers(p, i + 1, split)
    ensures found == Choice(env, p, i, split, s, str, e, nlp)
    decreases |p| - (i - 1), e - str, 2, 2
  {
    var list := split.alts;
    var a := 0;
    while a < |list|
      invariant 0 <= a <= |list| == |split.alts|
      invariant list[a..] == split.alts[a..]
      invariant forall a' | 0 <= a' < a ::
                  Fct(env.Inner(), split.alts[a'] + p[split.rest..], 0, s, str, e, nlp, false) != Match
    {
      assert list[a] == list[a..][0] == split.alts[a];
      list := list[a := list[a] + p[split.rest..]];
      ghost var turns;
      var v;
      v, turns := FctMethod(env.Inner(), list[a], 0, s, str, e, nlp, false);
      if v == Match {
        return true;
      }
      a := a + 1;
    }
    return false;
  }

  // Lines 1148-1168
  method NegationLoop(env: Env, p: CString, i: nat, split: Group.Split, s: CString, str: nat, e: nat, nlp: bool)
    returns (found: bool)
    requires 0 < i < |p| && str <= e <= |s| && Group.Covers(p, i + 1, split)
    ensures found == Negation(env, p, i, split, s, str, e, nlp)
    decreases |p| - (i - 1), e - str, 2, 2
  {
    var rs := str;
    while rs <= e
      invariant str <= rs <= e + 1
      invariant forall rs' | str <= rs' < rs :: !NegationAt(env, p, i, split, s, str, e, nlp, rs')
    {
      found := TryNegation(env, p, i, split, s, str, e, nlp, rs);
      if found {
        return;
      }
      rs := rs + 1;
    }
    return false;
  }

  // Lines 1152-1165
  method TryNegation(env: Env, p: CString, i: nat, split: Group.Split, s: CString, str: nat, e: nat, nlp: bool, rs: nat)
    returns (found: bool)
    requires 0 < i < |p| && str <= rs <= e <= |s| && Group.Covers(p, i + 1, split)
    ensures found == NegationAt(env, p, i, split, s, str, e, nlp, rs)
    decreases |p| - (i - 1), e - str, 2, 1
  {
    ghost var turns;
    var v;
    var a := 0;
    while a < |split.alts|
      invariant 0 <= a <= |split.alts|
      invariant forall a' | 0 <= a' < a :: Fct(env.Inner(), split.alts[a'], 0, s, str, rs, nlp, false) != Match
    {
      v, turns := FctMethod(env.Inner(), split.alts[a], 0, s, str, rs, nlp, false);
      if v == Match {
        return false;
      }
      a := a + 1;
    }
    v, turns := FctMethod(env.Inner(), p, split.rest, s, rs, e, NlpBehind(env, s, str, rs, nlp), false);
    return v == Match;
  }
}
