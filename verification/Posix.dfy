/**
  A pattern as section 2.13 of POSIX.1-2017 XCU reads it: a slash is found before any bracket, under FNM_FILE_NAME, and
  what a bracket holds is that of section 9.3.5 of POSIX.1-2017 XBD in the POSIX locale. FNM_CASEFOLD folds the pattern
  and the string alike.
*/
module Posix {
  import opened Wrappers
  import opened Text
  import opened Glob
  import Bracket

  // `!` after the `[` is a not sign. What a circumflex is there, section 2.13.1 leaves open: a not sign as well, unless
  // POSIXLY_CORRECT is set.
  predicate HasNotSign(env: Env, p: CString, i: nat)
    requires i <= |p|
  {
    match At(p, i)
    case '!' => true
    case '^' => !env.locale.posixlyCorrect
    case _ => false
  }

  // The first `:]` from k on
  function NameClose(p: CString, k: nat): (r: Option<nat>)
    requires k <= |p|
    ensures r.Some? ==> k <= r.value && r.value + 2 <= |p| && p[r.value] == ':' && p[r.value + 1] == ']'
    decreases |p| - k
  {
    if k == |p| then None else if p[k] == ':' && At(p, k + 1) == ']' then Some(k) else NameClose(p, k + 1)
  }

  // A character that stands for itself in a bracket, and the position behind it
  function Single(env: Env, p: CString, j: nat): (r: Option<(char, nat)>)
    requires j <= |p|
    ensures r.Some? ==> j < r.value.1 <= |p|
  {
    if j == |p| then None
    else if !env.flags.noEscape && p[j] == '\\' then if j + 1 == |p| then None else Some((p[j + 1], j + 2))
    else if p[j] == '[' && At(p, j + 1) in {':', '=', '.'} then None
    else Some((p[j], j + 1))
  }

  // None: the bracket does not end there, names no class of the locale, or has an equivalence class or a collating
  // symbol, which depend on the locale.
  function ReadItem(env: Env, p: CString, j: nat): (r: Option<(Item, nat)>)
    requires j <= |p|
    ensures r.Some? ==> j < r.value.1 <= |p|
  {
    if At(p, j) == '[' && At(p, j + 1) == ':' then
      var k :- NameClose(p, j + 2);
      if env.locale.isClass(p[j + 2..k]) then Some((InAnyCase(p[j + 2..k]), k + 2)) else None
    else
      var (lo, k) :- Single(env, p, j);
      if At(p, k) == '-' && At(p, k + 1) != ']' then
        var (hi, k') :- Single(env, p, k + 1);
        Some((Range(env.Fold(lo), env.Fold(hi)), k'))
      else Some((One(env.Fold(lo)), k))
  }

  function ReadItems(env: Env, p: CString, j: nat): (r: Option<(seq<Item>, nat)>)
    requires j <= |p|
    ensures r.Some? ==> j < r.value.1 <= |p|
    decreases |p| - j
  {
    var (item, k) :- ReadItem(env, p, j);
    if At(p, k) == ']' then Some(([item], k + 1))
    else
      var (items, next) :- ReadItems(env, p, k);
      Some(([item] + items, next))
  }

  function ReadSet(env: Env, p: CString, i: nat): (r: Option<(Element, nat)>)
    requires i <= |p|
    ensures r.Some? ==> i < r.value.1 <= |p| && r.value.0.Set?
  {
    var negated := HasNotSign(env, p, i);
    var (items, next) :- ReadItems(env, p, if negated then i + 1 else i);
    Some((Set(negated, items), next))
  }

  // The items from j on run to the end of the pattern, and no `]` closes them.
  predicate RunsOut(env: Env, p: CString, j: nat)
    requires j <= |p|
    decreases |p| - j
  {
    match ReadItem(env, p, j)
    case None => !Bracket.HasClose(p, j)
    case Some((_, k)) => At(p, k) != ']' && RunsOut(env, p, k)
  }

  // A `[` that nothing closes is an ordinary character, and by rule 1 of section 2.13.3 one with a slash before its
  // `]`.
  function ReadBracket(env: Env, p: CString, i: nat): (r: Option<(Element, nat)>)
    requires i <= |p|
    ensures r.Some? ==> i <= r.value.1 <= |p|
  {
    var open := Literal(env.Fold('['), false);
    match ReadSet(env, p, i)
    case None =>
      if RunsOut(env, p, if HasNotSign(env, p, i) then i + 1 else i) then Some((open, i)) else None
    case Some((set', next)) =>
      if env.flags.fileName && '/' in p[i..next] then Some((open, i)) else Some((set', next))
  }

  function ReadElement(env: Env, p: CString, i: nat): (r: Option<(Element, nat)>)
    requires i < |p|
    ensures r.Some? ==> i < r.value.1 <= |p|
  {
    match p[i]
    case '*' => Some((Run, i + 1))
    case '?' => Some((AnyOne, i + 1))
    case '[' => ReadBracket(env, p, i + 1)
    case '\\' =>
      if env.flags.noEscape then Some((Literal(env.Fold('\\'), false), i + 1))
      else if i + 1 == |p| then Some((Dangling, i + 1))
      else Some((Literal(env.Fold(p[i + 1]), true), i + 2))
    case c => Some((Literal(env.Fold(c), false), i + 1))
  }

  // None: the meaning of some bracket depends on the locale (see ReadItem).
  function Read(env: Env, p: CString, i: nat): (r: Option<Glob>)
    requires i <= |p|
    decreases |p| - i
  {
    if i == |p| then Some(Nil)
    else
      var (element, next) :- ReadElement(env, p, i);
      var tail :- Read(env, p, next);
      Some(Cons(element, tail))
  }
}
