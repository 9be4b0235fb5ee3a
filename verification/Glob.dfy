/**
  A pattern as a list of elements, and what it means for a stretch of the string, without an algorithm: the relation
  of section 2.13 of POSIX.1-2017 XCU (Pattern Matching Notation) with the FNM_* flags. Posix reads a pattern as the
  standard does, Reading as the matcher does.
*/
module Glob {
  import opened Text

  datatype Item =
    | One(c: char)                 // the folded character
    | Bare(c: char)                // a `[` before `:`, `=` or `.` that stands for itself
    | Range(lo: char, hi: char)
    | Named(name: string)          // the characters of the class
    | InAnyCase(name: string)      // the characters of the class and, under FNM_CASEFOLD, their counterparts

  datatype Element =
    | Run                                       // *
    | AnyOne                                    // ?
    | Literal(c: char, quoted: bool)            // the folded character
    | Set(negated: bool, items: seq<Item>)      // [...]
    | Dangling                                  // a backslash at the end of the pattern

  datatype Glob = Nil | Cons(head: Element, tail: Glob)

  ghost predicate ItemHolds(env: Env, item: Item, ch: char) {
    match item
    case One(c) => env.Fold(ch) == c
    case Bare(c) => env.Fold(ch) == c
    case Range(lo, hi) => lo <= env.Fold(ch) <= hi
    case Named(name) => env.locale.inClass(name, ch)
    case InAnyCase(name) => exists c: char :: env.Fold(c) == env.Fold(ch) && env.locale.inClass(name, c)
  }

  ghost predicate InItems(env: Env, items: seq<Item>, ch: char) {
    exists item :: item in items && ItemHolds(env, item, ch)
  }

  // ----- matching -----

  // A period that FNM_PERIOD protects: at the start of the string, and under FNM_FILE_NAME behind a slash
  predicate Leading(env: Env, s: CString, n: nat)
    requires n <= |s|
  {
    env.flags.period && (n == 0 || (env.flags.fileName && s[n - 1] == '/'))
  }

  predicate LeadingDot(env: Env, s: CString, n: nat, e: nat)
    requires n <= e <= |s|
  {
    n < e && s[n] == '.' && Leading(env, s, n)
  }

  // A wildcard may stand for this character.
  predicate Wild(env: Env, s: CString, n: nat)
    requires n < |s|
  {
    !(env.flags.fileName && s[n] == '/')
  }

  predicate AllWild(env: Env, s: CString, n: nat, k: nat)
    requires n <= k <= |s|
  {
    env.flags.fileName ==> forall j :: n <= j < k ==> s[j] != '/'
  }

  // One element other than Run against one character
  ghost predicate Fits(env: Env, element: Element, s: CString, n: nat, e: nat)
    requires n < e <= |s|
  {
    match element
    case Literal(c, _) => env.Fold(s[n]) == c
    case AnyOne => Wild(env, s, n) && !LeadingDot(env, s, n, e)
    case Set(negated, items) =>
      Wild(env, s, n) && !LeadingDot(env, s, n, e) && InItems(env, items, s[n]) != negated
    case _ => false
  }

  ghost predicate Matches(env: Env, g: Glob, s: CString, n: nat, e: nat)
    requires n <= e <= |s|
    decreases g
  {
    match g
    case Nil => n == e || (env.flags.leadingDir && s[n] == '/')
    case Cons(Run, tail) =>
      && !LeadingDot(env, s, n, e)
      && exists k :: n <= k <= e && AllWild(env, s, n, k) && Matches(env, tail, s, k, e)
    case Cons(element, tail) =>
      n < e && Fits(env, element, s, n, e) && Matches(env, tail, s, n + 1, e)
  }
}
