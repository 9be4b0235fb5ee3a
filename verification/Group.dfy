/**
  The ksh groups `?() *() +() @() !()`: how `END` finds the end of one (lib/fnmatch_loop.c:933-973)
  and how `EXT` splits one into its alternatives (lines 995-1080).
*/
module Group {
  import opened Wrappers
  import opened Text
  import Bracket

  predicate IsOperator(c: char) {
    c == '?' || c == '*' || c == '+' || c == '@' || c == '!'
  }

  predicate OpensGroup(p: CString, j: nat)
    requires j <= |p|
  {
    IsOperator(At(p, j)) && At(p, j + 1) == '('
  }

  // The position of the next `]`, if there is one
  function FindClose(p: CString, k: nat): (r: Option<nat>)
    requires k <= |p|
    ensures r.Some? ==> k <= r.value < |p| && p[r.value] == ']'
    decreases |p| - k
  {
    if At(p, k) == ']' then Some(k) else if k == |p| then None else FindClose(p, k + 1)
  }

  // Both END and EXT skip a bracket without looking inside; `j` is at `[`, the result at its `]`
  // (lines 942-960 and 1004-1025).
  function SkipBracket(locale: Locale, p: CString, j: nat): (r: Option<nat>)
    requires j < |p|
    ensures r.Some? ==> j < r.value < |p| && p[r.value] == ']'
  {
    var k := if Bracket.Negated(locale, p, j + 1) then j + 2 else j + 1;
    FindClose(p, if At(p, k) == ']' then k + 1 else k)
  }

  // END's loop; `j` is the position before the next character to look at. None: invalid pattern.
  function EndFrom(locale: Locale, p: CString, j: nat): (r: Option<nat>)
    requires j < |p|
    ensures r.Some? ==> j + 1 < r.value <= |p| && p[r.value - 1] == ')'
    decreases |p| - j
  {
    var k := j + 1;
    var c := At(p, k);
    if c == '\0' then None
    else if c == '[' then
      match SkipBracket(locale, p, k)
      case None => None
      case Some(q) => EndFrom(locale, p, q)
    else if OpensGroup(p, k) then
      var q := match EndFrom(locale, p, k + 1) case None => k + 1 case Some(q) => q;
      if q == |p| then None else EndFrom(locale, p, q)
    else if c == ')' then Some(k + 1)
    else EndFrom(locale, p, k)
  }

  // END: a position just behind a `)`, or `i` itself.
  function End(locale: Locale, p: CString, i: nat): (r: nat)
    requires i < |p|
    ensures r == i || (i + 1 < r <= |p| && p[r - 1] == ')')
  {
    match EndFrom(locale, p, i)
    case None => i
    case Some(q) => q
  }

  datatype Split = Split(alts: seq<CString>, rest: nat)

  // EXT's loop: the current alternative starts at `start`, the next character is at `j`.
  function SplitFrom(locale: Locale, p: CString, start: nat, j: nat, level: nat): (r: Option<Split>)
    requires start <= j <= |p|
    ensures r.Some? ==> |r.value.alts| > 0 && j < r.value.rest <= |p| && p[r.value.rest - 1] == ')'
    decreases |p| - j
  {
    var c := At(p, j);
    if c == '\0' then None
    else if c == '[' then
      match SkipBracket(locale, p, j)
      case None => None
      case Some(q) => SplitFrom(locale, p, start, q + 1, level)
    else if OpensGroup(p, j) then SplitFrom(locale, p, start, j + 1, level + 1)
    else if c == ')' then
      if level == 0 then Some(Split([p[start..j]], j + 1))
      else SplitFrom(locale, p, start, j + 1, level - 1)
    else if c == '|' && level == 0 then
      match SplitFrom(locale, p, j + 1, j + 1, level)
      case None => None
      case Some(r) => Some(Split([p[start..j]] + r.alts, r.rest))
    else SplitFrom(locale, p, start, j + 1, level)
  }

  function SplitGroup(locale: Locale, p: CString, i: nat): (r: Option<Split>)
    requires i < |p|
    ensures r.Some? ==> |r.value.alts| > 0 && i + 1 < r.value.rest <= |p|
  {
    SplitFrom(locale, p, i + 1, i + 1, 0)
  }

  function Join(alts: seq<CString>): (r: CString)
    ensures |alts| > 0 ==> forall a :: 0 <= a < |alts| ==> |alts[a]| <= |r|
  {
    if alts == [] then "" else if |alts| == 1 then alts[0] else alts[0] + "|" + Join(alts[1..])
  }

  ghost predicate Covers(p: CString, start: nat, r: Split) {
    start < r.rest <= |p| && Join(r.alts) == p[start..r.rest - 1]
  }

  // The alternatives joined with `|` are the text between the parentheses.
  lemma {:induction false} SplitFromIsLossless(locale: Locale, p: CString, start: nat, j: nat, level: nat)
    requires start <= j <= |p|
    requires SplitFrom(locale, p, start, j, level).Some?
    ensures Covers(p, start, SplitFrom(locale, p, start, j, level).value)
    decreases |p| - j
  {
    var c := At(p, j);
    if c == '[' {
      SplitFromIsLossless(locale, p, start, SkipBracket(locale, p, j).value + 1, level);
    } else if OpensGroup(p, j) {
      SplitFromIsLossless(locale, p, start, j + 1, level + 1);
    } else if c == ')' && level > 0 {
      SplitFromIsLossless(locale, p, start, j + 1, level - 1);
    } else if c == '|' && level == 0 {
      SplitFromIsLossless(locale, p, j + 1, j + 1, level);
      BarRejoins(p, start, j, SplitFrom(locale, p, j + 1, j + 1, level).value);
    } else if c != ')' {
      SplitFromIsLossless(locale, p, start, j + 1, level);
    }
  }

  lemma BarRejoins(p: CString, start: nat, j: nat, r: Split)
    requires start <= j < |p| && p[j] == '|' && |r.alts| > 0 && Covers(p, j + 1, r)
    ensures Covers(p, start, Split([p[start..j]] + r.alts, r.rest))
  {
  }
}
