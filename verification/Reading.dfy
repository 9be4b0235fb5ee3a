/**
  A pattern as the matcher reads it (lib/fnmatch_loop.c:55-64, 78-90, 228-600 and 796-812). Of brackets only those are
  read that the matcher leaves at one place, whatever character it tries on them.
*/
module Reading {
  import opened Wrappers
  import opened Text
  import opened Glob
  import Bracket

  // The end of a run of the letters a to y, with which the matcher spells class names
  function NameEnd(p: CString, k: nat): (r: nat)
    requires k <= |p|
    ensures k <= r <= |p|
    ensures forall j :: k <= j < r ==> 'a' <= p[j] < 'z'
    ensures r < |p| ==> !('a' <= p[r] < 'z')
    decreases |p| - k
  {
    if k < |p| && 'a' <= p[k] < 'z' then NameEnd(p, k + 1) else k
  }

  // `[:`, `[=` or `[.` at position j
  predicate OpensName(p: CString, j: nat)
    requires j < |p|
  {
    p[j] == '[' && (At(p, j + 1) == ':' || At(p, j + 1) == '=' || At(p, j + 1) == '.')
  }

  // The letters from j + 2 on end with `:]`.
  predicate ClosesName(p: CString, j: nat)
    requires j + 2 <= |p|
  {
    var k := NameEnd(p, j + 2);
    At(p, k) == ':' && At(p, k + 1) == ']'
  }

  // Skipping finds the end of the letters behind the `[:` at j before it has counted too many.
  predicate SkipsName(env: Env, p: CString, j: nat)
    requires j + 2 <= |p|
  {
    NameEnd(p, j + 2) - j - 1 < env.locale.classMaxLength
  }

  // The path that skips the rest of a bracket takes the character at j for itself.
  predicate StaysInside(env: Env, p: CString, j: nat)
    requires j < |p|
  {
    OpensName(p, j) ==> p[j + 1] == ':' && SkipsName(env, p, j) && !ClosesName(p, j)
  }

  // One item of a bracket, and the position behind it. Without `lenient`, only if skipping passes over it as well.
  // None: the item is unterminated, names no class of the locale, or is not skipped as it is read.
  function ParseItem(env: Env, p: CString, j: nat, lenient: bool): (r: Option<(Item, nat)>)
    requires j <= |p|
    ensures r.Some? ==> j < r.value.1 <= |p|
  {
    if j == |p| then None
    else if !env.flags.noEscape && p[j] == '\\' then
      if j + 1 == |p| then None else ParseRange(env, p, j + 2, env.Fold(p[j + 1]), lenient)
    else if !OpensName(p, j) then ParseRange(env, p, j + 1, env.Fold(p[j]), lenient)
    else if p[j + 1] != ':' then if lenient then Some((Bare(env.Fold('[')), j + 1)) else None
    else
      var k := NameEnd(p, j + 2);
      if k - (j + 2) >= env.locale.classMaxLength || !(lenient || SkipsName(env, p, j)) then None
      else if !ClosesName(p, j) then Some((Bare('['), j + 1))
      else if env.locale.isClass(p[j + 2..k]) then Some((Named(p[j + 2..k]), k + 2))
      else None
  }

  function ParseRange(env: Env, p: CString, k: nat, c: char, lenient: bool): (r: Option<(Item, nat)>)
    requires k <= |p|
    ensures r.Some? ==> k <= r.value.1 <= |p|
  {
    if At(p, k) != '-' || At(p, k + 1) == ']' then Some((One(c), k))
    else if k + 1 == |p| then None
    else if !env.flags.noEscape && p[k + 1] == '\\' then
      if k + 2 == |p| then None else Some((Range(c, p[k + 2]), k + 3))
    else if lenient || StaysInside(env, p, k + 1) then Some((Range(c, p[k + 1]), k + 2))
    else None
  }

  // The items up to the closing bracket; a `]` in first place is an item. `first` is for the first item, `rest` for
  // the others.
  function ParseItems(env: Env, p: CString, j: nat, first: bool, rest: bool): (r: Option<(seq<Item>, nat)>)
    requires j <= |p|
    ensures r.Some? ==> j < r.value.1 <= |p|
    decreases |p| - j
  {
    var (item, k) :- ParseItem(env, p, j, first);
    if At(p, k) == ']' then Some(([item], k + 1))
    else
      var (items, next) :- ParseItems(env, p, k, rest, rest);
      Some(([item] + items, next))
  }

  // The first item is never skipped, and in a negated bracket it does not matter where skipping ends.
  function ParseSet(env: Env, p: CString, i: nat): (r: Option<(Element, nat)>)
    requires i <= |p|
    ensures r.Some? ==> i < r.value.1 <= |p| && r.value.0.Set?
  {
    var negated := Bracket.Negated(env.locale, p, i);
    var (items, next) :- ParseItems(env, p, if negated then i + 1 else i, true, negated);
    Some((Set(negated, items), next))
  }

  // ----- brackets without an end -----

  // The items from j on run to the end of the pattern, and no `]` closes them.
  predicate RunsOut(env: Env, p: CString, j: nat)
    requires j <= |p|
    decreases |p| - j
  {
    match ParseItem(env, p, j, true)
    case None => !Bracket.HasClose(p, j)
    case Some((_, k)) => At(p, k) != ']' && RunsOut(env, p, k)
  }

  predicate HoldsOpen(env: Env, item: Item) {
    || item.Bare? || item == One('[') || (item.Range? && item.lo <= '[' <= item.hi)
    || (item.Named? && env.locale.inClass(item.name, '['))
  }

  // From j on there are only items that do not hold `[`, up to the end of the pattern.
  predicate StandsOpen(env: Env, p: CString, j: nat)
    requires j <= |p|
    decreases |p| - j
  {
    || j == |p|
    || (var r := ParseItem(env, p, j, true);
        r.Some? && !HoldsOpen(env, r.value.0) && StandsOpen(env, p, r.value.1))
  }

  // A `[` whose items run out stands for itself, unless the matcher finds a `[` among them: then for nothing.
  function ParseOpen(env: Env, p: CString, j: nat): Element
    requires j <= |p|
  {
    if StandsOpen(env, p, j) then Literal('[', false) else Set(false, [])
  }

  function ParseBracket(env: Env, p: CString, i: nat): (r: Option<(Element, nat)>)
    requires i <= |p|
    ensures r.Some? ==> i <= r.value.1 <= |p|
  {
    var (set', j) := (ParseSet(env, p, i), if Bracket.Negated(env.locale, p, i) then i + 1 else i);
    if set'.None? && RunsOut(env, p, j) then Some((ParseOpen(env, p, j), i)) else set'
  }

  // ----- patterns -----

  // None: some bracket is outside the plain syntax (see ParseItem).
  function Parse(env: Env, p: CString, i: nat): (r: Option<Glob>)
    requires i <= |p|
    decreases |p| - i
  {
    if i == |p| then Some(Nil)
    else
      var (element, next) :- ParseElement(env, p, i);
      var tail :- Parse(env, p, next);
      Some(Cons(element, tail))
  }

  function ParseElement(env: Env, p: CString, i: nat): (r: Option<(Element, nat)>)
    requires i < |p|
    ensures r.Some? ==> i < r.value.1 <= |p|
  {
    match p[i]
    case '*' => Some((Run, i + 1))
    case '?' => Some((AnyOne, i + 1))
    case '[' => ParseBracket(env, p, i + 1)
    case '\\' =>
      if env.flags.noEscape then Some((Literal('\\', false), i + 1))
      else if i + 1 == |p| then Some((Dangling, i + 1))
      else Some((Literal(env.Fold(p[i + 1]), true), i + 2))
    case c => Some((Literal(env.Fold(c), false), i + 1))
  }
}
