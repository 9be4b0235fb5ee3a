/**
  The matcher `FCT` and the group matcher `EXT` (lib/fnmatch_loop.c:39-930 and 975-1193) as
  functions: what one call returns, for every pattern, string and set of flags. The three recursive
  routines share one measure: the pattern left, then the string left, then the routine's rank.
*/
module Fnmatch {
  import opened Wrappers
  import opened Text
  import Bracket
  import Group

  // What a call of FCT answers. `Ends` is a return of 0 with `*ends` filled in.
  datatype Verdict =
    | Match
    | NoMatch
    | Ends(pattern: nat, str: nat, noLeadingPeriod: bool)

  // What one turn of FCT's loop does: return, or go on at the next positions.
  datatype Turn =
    | Return(verdict: Verdict)
    | Continue(pattern: nat, str: nat, noLeadingPeriod: bool)

  // The first `/` in s[n..e], or e (memchr in lines 170-173)
  function FindSlash(s: CString, n: nat, e: nat): (r: nat)
    requires n <= e <= |s|
    ensures n <= r <= e && (r < e ==> s[r] == '/') && forall j :: n <= j < r ==> s[j] != '/'
    decreases e - n
  {
    if n == e || s[n] == '/' then n else FindSlash(s, n + 1, e)
  }

  // One turn of FCT's loop for a pattern character other than `*`: the next pattern position and
  // the new no_leading_period, or None for FNM_NOMATCH (lines 71-90, 228-916).
  function Step(env: Env, p: CString, i: nat, s: CString, n: nat, e: nat, nlp: bool): (r: Option<(nat, bool)>)
    requires i < |p| && n <= e <= |s|
    ensures r.Some? ==> n < e && i < r.value.0 <= |p|
  {
    var c := env.Fold(p[i]);
    if n == e then None
    else if c == '?' then
      if (s[n] == '/' && env.flags.fileName) || (s[n] == '.' && nlp) then None
      else Some((i + 1, false))
    else if c == '\\' && !env.flags.noEscape then
      if At(p, i + 1) == '\0' || env.Fold(s[n]) != env.Fold(At(p, i + 1)) then None
      else Some((i + 2, false))
    else if c == '[' then
      if (s[n] == '.' && nlp) || (s[n] == '/' && env.flags.fileName) then None
      else match Bracket.Step(env, p, i + 1, s[n])
        case Reject => None
        case Accept(next) => Some((next, false))
        case Unterminated => if env.Fold(s[n]) == '[' then Some((i + 1, false)) else None
    else if c == '/' && env.NoLeadingPeriod() then
      if s[n] == '/' then Some((i + 1, true)) else None
    else
      if env.Fold(s[n]) == c then Some((i + 1, false)) else None
  }

  // The run of wildcards behind a `*` (lines 111-141): the first other pattern position and the
  // string position behind one character per `?`, or None for FNM_NOMATCH.
  function SkipWildcards(env: Env, p: CString, i: nat, s: CString, n: nat, e: nat): (r: Option<(nat, nat)>)
    requires i <= |p| && n <= e <= |s|
    ensures r.Some? ==> i <= r.value.0 <= |p| && n <= r.value.1 <= e
    decreases |p| - i
  {
    var c := At(p, i);
    if c != '?' && c != '*' then Some((i, n))
    else if At(p, i + 1) == '(' && env.flags.extMatch && Group.End(env.locale, p, i + 1) != i + 1 then
      SkipWildcards(env, p, Group.End(env.locale, p, i + 1), s, n, e)
    else if c == '*' then SkipWildcards(env, p, i + 1, s, n, e)
    else if n == e || (s[n] == '/' && env.flags.fileName) then None
    else SkipWildcards(env, p, i + 1, s, n + 1, e)
  }

  // FCT from pattern position i and string position n. `chunk`: the caller passed `ends`.
  function Fct(env: Env, p: CString, i: nat, s: CString, n: nat, e: nat, nlp: bool, chunk: bool): (r: Verdict)
    requires i <= |p| && n <= e <= |s|
    ensures r.Ends? ==> chunk && i <= r.pattern < |p| && n <= r.str <= e
    decreases |p| - i, e - n, 3, 1
  {
    if i == |p| then
      if n == e || (env.flags.leadingDir && s[n] == '/') then Match else NoMatch
    else match LoopTurn(env, p, i, s, n, e, nlp, chunk)
      case Return(v) => v
      case Continue(i', n', nlp') => Fct(env, p, i', s, n', e, nlp', chunk)
  }

  // The body of the loop (lines 57-919)
  function LoopTurn(env: Env, p: CString, i: nat, s: CString, n: nat, e: nat, nlp: bool, chunk: bool): (r: Turn)
    requires i < |p| && n <= e <= |s|
    ensures r.Continue? ==> i < r.pattern <= |p| && n <= r.str <= e
    ensures r.Return? && r.verdict.Ends? ==> chunk && r.verdict == Ends(i, n, nlp)
    decreases |p| - i, e - n, 3, 0
  {
    var c := env.Fold(p[i]);
    var group := if env.flags.extMatch && Group.IsOperator(c) && At(p, i + 1) == '('
                 then Ext(env, c, p, i + 1, s, n, e, nlp) else None;
    if group.Some? then Return(if group.value then Match else NoMatch)
    else if c == '*' then
      if chunk && !(env.flags.extMatch && At(p, i + 1) == '(') then Return(Ends(i, n, nlp))
      else Star(env, p, i + 1, s, n, e, nlp)
    else match Step(env, p, i, s, n, e, nlp)
      case None => Return(NoMatch)
      case Some((i', nlp')) => Continue(i', n + 1, nlp')
  }

  // Which of the three ways a `*` looks for the text behind it (lines 175-203).
  predicate SearchesBlindly(env: Env, p: CString, i: nat)
    requires i < |p|
  {
    p[i] == '[' || (env.flags.extMatch && (p[i] == '@' || p[i] == '+' || p[i] == '!') && At(p, i + 1) == '(')
  }

  // The character the text behind a `*` has to start with (lines 202-204).
  function FirstLiteral(env: Env, p: CString, i: nat): char
    requires i < |p|
  {
    env.Fold(if p[i] == '\\' && !env.flags.noEscape then At(p, i + 1) else p[i])
  }

  // `case '*'` (lines 108-226), with i behind the star
  function Star(env: Env, p: CString, i: nat, s: CString, n: nat, e: nat, nlp: bool): (r: Turn)
    requires i <= |p| && n <= e <= |s|
    ensures if r.Return? then !r.verdict.Ends? else i <= r.pattern < |p| && n <= r.str <= e
    decreases |p| - i, e - n, 5, 1
  {
    if n < e && s[n] == '.' && nlp then Return(NoMatch)
    else match SkipWildcards(env, p, i, s, n, e)
      case None => Return(NoMatch)
      case Some((i', n')) => BehindStar(env, p, i', s, n', e, nlp)
  }

  // Behind the star and its wildcards: a placement of the following text, once found, is final (lines 143-226).
  function BehindStar(env: Env, p: CString, i: nat, s: CString, n: nat, e: nat, nlp: bool): (r: Turn)
    requires i <= |p| && n <= e <= |s|
    ensures if r.Return? then !r.verdict.Ends? else i <= r.pattern < |p| && n <= r.str <= e
    decreases |p| - i, e - n, 5, 0
  {
    if i == |p| then
      Return(if !env.flags.fileName || env.flags.leadingDir || FindSlash(s, n, e) == e then Match else NoMatch)
    else if p[i] == '/' && env.flags.fileName then
      var m := FindSlash(s, n, e);
      Return(if m < e then Fct(env, p, i + 1, s, m + 1, e, env.flags.period, false) else NoMatch)
    else
      var endp := if env.flags.fileName then FindSlash(s, n, e) else e;
      match Search(env.Inner(), p, i, s, n, endp, e, nlp)
      case Ends(i', n', nlp') => Continue(i', n', nlp')
      case v => Return(v)
  }

  // The loops at lines 183-186 and 205-214: the first placement in [n, endp) the chunk call accepts.
  function Search(env: Env, p: CString, i: nat, s: CString, n: nat, endp: nat, e: nat, nlp: bool): (r: Verdict)
    requires i < |p| && n <= endp <= e <= |s|
    ensures r.Ends? ==> i <= r.pattern < |p| && n <= r.str <= e
    decreases |p| - i, e - n, 4, 0
  {
    if n == endp then NoMatch
    else
      var r := if SearchesBlindly(env, p, i) || env.Fold(s[n]) == FirstLiteral(env, p, i)
               then Fct(env, p, i, s, n, e, nlp, true) else NoMatch;
      if r != NoMatch then r else Search(env, p, i, s, n + 1, endp, e, false)
  }

  // The no_leading_period with which the text behind a piece is matched (lines 1101-1103)
  function NlpBehind(env: Env, s: CString, n: nat, rs: nat, nlp: bool): bool
    requires n <= rs <= |s|
  {
    if rs == n then nlp else s[rs - 1] == '/' && env.NoLeadingPeriod()
  }

  // EXT for the operator `op`; i is at the `(`. None stands for -1, an invalid group.
  function Ext(env: Env, op: char, p: CString, i: nat, s: CString, n: nat, e: nat, nlp: bool): (r: Option<bool>)
    requires 0 < i < |p| && n <= e <= |s| && Group.IsOperator(op)
    ensures r.Some? <==> Group.SplitGroup(env.locale, p, i).Some?
    decreases |p| - (i - 1), e - n, 2, 3
  {
    match Group.SplitGroup(env.locale, p, i)
    case None => None
    case Some(split) =>
      Group.SplitFromIsLossless(env.locale, p, i + 1, i + 1, 0);
      var here := Fct(env, p, split.rest, s, n, e, nlp, false) == Match;
      if op == '+' || op == '*' then Some((op == '*' && here) || Closure(env, p, i, split, s, n, e, nlp))
      else if op == '!' then Some(Negation(env, p, i, split, s, n, e, nlp))
      else Some((op == '?' && here) || Choice(env, p, i, split, s, n, e, nlp))
  }

  // `*(` and `+(`: some alternative takes a prefix, and what remains is for the rest of the pattern or,
  // unless the prefix was empty, for the whole group again (lines 1090-1118)
  predicate Closure(env: Env, p: CString, i: nat, split: Group.Split, s: CString, n: nat, e: nat, nlp: bool)
    requires 0 < i < |p| && n <= e <= |s| && Group.Covers(p, i + 1, split)
    decreases |p| - (i - 1), e - n, 2, 2
  {
    exists a, rs | 0 <= a < |split.alts| && n <= rs <= e :: ClosureAt(env, p, i, split, s, n, e, nlp, a, rs)
  }

  predicate ClosureAt(env: Env, p: CString, i: nat, split: Group.Split, s: CString, n: nat, e: nat, nlp: bool,
                      a: nat, rs: nat)
    requires 0 < i < |p| && n <= rs <= e <= |s| && Group.Covers(p, i + 1, split) && a < |split.alts|
    decreases |p| - (i - 1), e - n, 2, 1
  {
    && Fct(env.Inner(), split.alts[a], 0, s, n, rs, nlp, false) == Match
    && (|| Fct(env.Inner(), p, split.rest, s, rs, e, NlpBehind(env, s, n, rs, nlp), false) == Match
        || (rs > n && Fct(env.Inner(), p, i - 1, s, rs, e, NlpBehind(env, s, n, rs, nlp), false) == Match))
  }

  // `?(` and `@(`: an alternative with the rest of the pattern appended (lines 1130-1141)
  predicate Choice(env: Env, p: CString, i: nat, split: Group.Split, s: CString, n: nat, e: nat, nlp: bool)
    requires 0 < i < |p| && n <= e <= |s| && Group.Covers(p, i + 1, split)
    decreases |p| - (i - 1), e - n, 2, 2
  {
    exists a | 0 <= a < |split.alts| ::
      Fct(env.Inner(), split.alts[a] + p[split.rest..], 0, s, n, e, nlp, false) == Match
  }

  // `!(`: a prefix that no alternative takes (lines 1148-1168)
  predicate Negation(env: Env, p: CString, i: nat, split: Group.Split, s: CString, n: nat, e: nat, nlp: bool)
    requires 0 < i < |p| && n <= e <= |s| && Group.Covers(p, i + 1, split)
    decreases |p| - (i - 1), e - n, 2, 2
  {
    exists rs | n <= rs <= e :: NegationAt(env, p, i, split, s, n, e, nlp, rs)
  }

  predicate NegationAt(env: Env, p: CString, i: nat, split: Group.Split, s: CString, n: nat, e: nat, nlp: bool, rs: nat)
    requires 0 < i < |p| && n <= rs <= e <= |s| && Group.Covers(p, i + 1, split)
    decreases |p| - (i - 1), e - n, 2, 1
  {
    && (forall a | 0 <= a < |split.alts| :: Fct(env.Inner(), split.alts[a], 0, s, n, rs, nlp, false) != Match)
    && Fct(env.Inner(), p, split.rest, s, rs, e, NlpBehind(env, s, n, rs, nlp), false) == Match
  }

  // The call for a whole string (lib/fnmatch.c:371-373)
  predicate Accepts(env: Env, p: CString, s: CString) {
    Fct(env, p, 0, s, 0, |s|, env.flags.period, false) == Match
  }
}
