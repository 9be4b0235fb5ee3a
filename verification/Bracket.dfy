/**
  A bracket expression `[...]` (lib/fnmatch_loop.c:228-888, without the glibc-only collation
  branches), as the matcher steps over it: a function of the pattern, the position after `[` and
  the character it has to match.
*/
module Bracket {
  import opened Text

  datatype Outcome =
    | Reject              // return FNM_NOMATCH
    | Accept(next: nat)   // the pattern goes on at `next`
    | Unterminated        // no closing bracket: `[` stands for itself

  // [!...], and [^...] unless POSIXLY_CORRECT is set
  function Negated(locale: Locale, p: CString, i: nat): bool
    requires i <= |p|
  {
    At(p, i) == '!' || (!locale.posixlyCorrect && At(p, i) == '^')
  }

  datatype ClassScan = TooLong | NotAClass | ClassName(name: string, next: nat)

  // Collects the name of a `[:name:]`; `k` is the next character to read (lines 276-298).
  function ScanClass(env: Env, p: CString, k: nat, name: string): (r: ClassScan)
    requires k <= |p|
    ensures r.ClassName? ==> k + 2 <= r.next <= |p|
    decreases |p| - k
  {
    var c := At(p, k);
    if |name| == env.locale.classMaxLength then TooLong
    else if c == ':' && At(p, k + 1) == ']' then ClassName(name, k + 2)
    else if c < 'a' || c >= 'z' then NotAClass
    else ScanClass(env, p, k + 1, name + [c])
  }

  // The rest of a `[:name:]` on the skipping path (lines 844-859); `seen` characters were read.
  // Reject, or the position where skipping goes on.
  function SkipClass(env: Env, p: CString, start: nat, k: nat, seen: nat): (r: Outcome)
    requires start < k <= |p|
    ensures !r.Unterminated? && (r.Accept? ==> start <= r.next <= |p|)
    decreases |p| - k
  {
    if seen == env.locale.classMaxLength then Reject
    else if At(p, k) == ':' && At(p, k + 1) == ']' then Accept(k + 2)
    else if At(p, k) < 'a' || At(p, k) >= 'z' then Accept(start)
    else SkipClass(env, p, start, k + 1, seen + 1)
  }

  // The rest of a `[.name.]` on the skipping path (lines 873-882).
  function SkipSymbol(p: CString, k: nat): (r: Outcome)
    requires k <= |p|
    ensures !r.Unterminated? && (r.Accept? ==> k < r.next <= |p|)
    decreases |p| - k
  {
    if k == |p| then Reject
    else if At(p, k) == '.' && At(p, k + 1) == ']' then Accept(k + 2)
    else SkipSymbol(p, k + 1)
  }

  // Some `]` at or behind k
  predicate HasClose(p: CString, k: nat) {
    exists j :: k <= j < |p| && p[j] == ']'
  }

  // `matched:` skips the rest of the expression (lines 824-884).
  function Skip(env: Env, p: CString, k: nat): (r: Outcome)
    requires k <= |p|
    ensures !r.Unterminated? && (r.Accept? ==> k < r.next <= |p|)
    decreases |p| - k
  {
    var c := At(p, k);
    if c == ']' then Accept(k + 1)
    else if c == '\0' then Reject
    else if !env.flags.noEscape && c == '\\' then
      if At(p, k + 1) == '\0' then Reject else Skip(env, p, k + 2)
    else if c == '[' && At(p, k + 1) == ':' then
      var r := SkipClass(env, p, k + 1, k + 2, 1);
      if r.Accept? then Skip(env, p, r.next) else Reject
    else if c == '[' && At(p, k + 1) == '=' then
      if At(p, k + 2) == '\0' then Reject
      else if At(p, k + 3) != '=' || At(p, k + 4) != ']' then Reject
      else Skip(env, p, k + 5)
    else if c == '[' && At(p, k + 1) == '.' then
      var r := SkipSymbol(p, k + 2);
      if r.Accept? then Skip(env, p, r.next) else Reject
    else Skip(env, p, k + 1)
  }

  function Matched(env: Env, p: CString, k: nat, negated: bool): (r: Outcome)
    requires k <= |p|
    ensures !r.Unterminated? && (r.Accept? ==> k < r.next <= |p|)
  {
    var r := Skip(env, p, k);
    if negated then Reject else r
  }

  // The end of the loop body (lines 816-821): stop at `]`, or go on with the character at `k`.
  function Continue(env: Env, p: CString, k: nat, ch: char, negated: bool): (r: Outcome)
    requires k <= |p|
    ensures r.Accept? ==> k < r.next <= |p|
    decreases |p| - k, 1
  {
    if At(p, k) == ']' then (if negated then Accept(k + 1) else Reject)
    else Items(env, p, k, ch, negated)
  }

  // `normal_bracket:` (lines 580-598 and 796-812). `c` is the folded item character, `k` the position
  // behind it.
  function NormalItem(env: Env, p: CString, k: nat, c: char, ch: char, negated: bool): (r: Outcome)
    requires k <= |p|
    ensures r.Accept? ==> k < r.next <= |p|
    decreases |p| - k, 2
  {
    var isRange := At(p, k) == '-' && At(p, k + 1) != '\0' && At(p, k + 1) != ']';
    if !isRange && c == env.Fold(ch) then Matched(env, p, k, negated)
    else if At(p, k) == '-' && At(p, k + 1) != ']' then
      var escaped := !env.flags.noEscape && At(p, k + 1) == '\\';
      var last := if escaped then At(p, k + 2) else At(p, k + 1);
      if last == '\0' then Reject
      else
        var k' := if escaped then k + 3 else k + 2;
        if c <= env.Fold(ch) <= last then Matched(env, p, k', negated)
        else Continue(env, p, k', ch, negated)
    else Continue(env, p, k, ch, negated)
  }

  // One turn of the loop over the items (lines 257-432); the item starts at `j`.
  function Items(env: Env, p: CString, j: nat, ch: char, negated: bool): (r: Outcome)
    requires j <= |p|
    ensures r.Accept? ==> j < r.next <= |p|
    decreases |p| - j, 0
  {
    var c := At(p, j);
    if !env.flags.noEscape && c == '\\' then
      if At(p, j + 1) == '\0' then Reject
      else NormalItem(env, p, j + 2, env.Fold(At(p, j + 1)), ch, negated)
    else if c == '[' && At(p, j + 1) == ':' then
      match ScanClass(env, p, j + 2, "")
      case TooLong => Reject
      case NotAClass => NormalItem(env, p, j + 1, '[', ch, negated)
      case ClassName(name, next) =>
        if !env.locale.isClass(name) then Reject
        else if env.locale.inClass(name, ch) then Matched(env, p, next, negated)
        else Continue(env, p, next, ch, negated)
    else if c == '\0' then Unterminated
    else NormalItem(env, p, j + 1, env.Fold(c), ch, negated)
  }

  function Step(env: Env, p: CString, i: nat, ch: char): (r: Outcome)
    requires i <= |p|
    ensures r.Accept? ==> i < r.next <= |p|
  {
    var negated := Negated(env.locale, p, i);
    Items(env, p, if negated then i + 1 else i, ch, negated)
  }
}
