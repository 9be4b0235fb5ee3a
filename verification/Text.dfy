/**
  The matcher's strings, flags and locale (lib/fnmatch.c:115-260).

  A C string is the sequence of its characters before the terminating NUL; `At` also reads the
  NUL itself and nothing behind it, so every `At` in the model is a proof that the C code does not
  run past the end of a pattern.
*/
module Text {

  type CString = s: string | '\0' !in s witness []

  function At(p: CString, i: nat): (c: char)
    requires i <= |p|
    ensures c == '\0' <==> i == |p|
  {
    if i < |p| then p[i] else '\0'
  }

  datatype Flags = Flags(
    noEscape: bool,    // FNM_NOESCAPE
    fileName: bool,    // FNM_FILE_NAME
    period: bool,      // FNM_PERIOD
    leadingDir: bool,  // FNM_LEADING_DIR
    caseFold: bool,    // FNM_CASEFOLD
    extMatch: bool     // FNM_EXTMATCH
  )

  // What the matcher asks of the platform: tolower, wctype, iswctype, CHAR_CLASS_MAX_LENGTH and
  // whether POSIXLY_CORRECT is set in the environment.
  type Length = n: nat | n > 0 witness 1

  datatype Locale = Locale(
    toLower: char -> char,
    classMaxLength: Length,
    isClass: string -> bool,
    inClass: (string, char) -> bool,
    posixlyCorrect: bool
  )

  // The characters that mean something to the matcher outside a bracket.
  predicate IsSpecial(c: char) {
    || c == '\0' || c == '?' || c == '*' || c == '\\' || c == '[' || c == ']' || c == '+'
    || c == '@' || c == '!' || c == '(' || c == ')' || c == '|' || c == '/' || c == '.'
  }

  datatype Env = Env(flags: Flags, locale: Locale) {

    function Fold(c: char): char {
      if flags.caseFold then locale.toLower(c) else c
    }

    // NO_LEADING_PERIOD (lib/fnmatch.c:116-117)
    predicate NoLeadingPeriod() {
      flags.fileName && flags.period
    }

    // flags2 (lib/fnmatch_loop.c:180-181, 199-200, 1096): the flags the inner calls run under
    function Inner(): Env {
      if flags.fileName then this else this.(flags := flags.(period := false))
    }

    // Lower-casing touches no character the matcher treats specially, as in every C locale.
    ghost predicate Sane() {
      && (forall c: char {:trigger Fold(c)} :: IsSpecial(c) ==> Fold(c) == c)
      && (forall c: char {:trigger Fold(c)} :: IsSpecial(Fold(c)) ==> IsSpecial(c))
    }
  }
}
