/**
  fnmatch itself (lib/fnmatch.c:265-383) in a UTF-8 locale: both arguments are converted to wide
  strings, on the stack when they are short and with a counting pass when they are not, and the
  matcher runs on the result.
*/
module FnmatchMain {
  import opened Wrappers
  import opened Utf8
  import opened Utf8Decode
  import opened Restart
  import opened MbState
  import opened Mbsrtowcs
  import opened Text
  import Fnmatch
  import FnmatchLoop
  import Agreement
  import Glob
  import Posix
  import Reading
  import Commitment
  import Meaning

  const SHORT := 1024

  // A wide character as the matcher sees it
  function ToChar(wc: Wide): (c: char)
    requires Scalar(wc)
    ensures c == '\0' <==> wc == 0
  {
    wc as int as char
  }

  lemma ToCharKeepsPoint(wc: Wide)
    requires Scalar(wc)
    ensures ToChar(wc) as int == wc as int
  {
  }

  function ToText(wcs: seq<Wide>): (s: CString)
    requires forall j :: 0 <= j < |wcs| ==> Scalar(wcs[j]) && wcs[j] != 0
    ensures |s| == |wcs| && forall j :: 0 <= j < |wcs| ==> s[j] == ToChar(wcs[j])
  {
    if wcs == [] then "" else [ToChar(wcs[0])] + ToText(wcs[1..])
  }

  // Every character takes a byte, so n bytes never make more than n characters.
  lemma {:induction false} NoMoreCharactersThanBytes(s: seq<Byte>, d: Decoder)
    requires 0 in s
    ensures |Convert([], s, d).wcs| <= Strlen(s)
    decreases |s|
  {
    TakenHasNoNul([], s, d);
    var v := VerdictOn([], s, d);
    if v.Character? && v.wc != 0 {
      NoMoreCharactersThanBytes(s[v.taken..], d);
      CharacterThenRest([], s, v.wc, v.taken, d);
      assert |Encode(v.wc)| >= 1;
    }
  }

  // The string's length, or 1024 if it is longer (lib/strnlen.c:28-35)
  method Strnlen(s: seq<Byte>) returns (n: nat)
    requires 0 in s
    ensures n == if Strlen(s) < SHORT then Strlen(s) else SHORT
  {
    n := 0;
    while n < SHORT && s[n] != 0
      invariant n <= Strlen(s) && n <= SHORT
    {
      n := n + 1;
    }
  }

  // The conversion into an array of n + 1, where n is enough (lines 284-300 and 352-366)
  method Fill(s: seq<Byte>, n: nat, ps: PackedState, mbLenMax: nat) returns (ret: Option<nat>, wide: array<Wide>)
    requires ps.Valid() && ps.IsInitial() && 0 in s && |Convert([], s, ps.d).wcs| <= n
    modifies ps
    ensures ps.Valid() && fresh(wide)
    ensures ret.Some? <==> Convert([], s, ps.d).Done?
    ensures ret.Some? ==> ps.IsInitial() && ret.value < wide.Length && wide[ret.value] == 0
    ensures ret.Some? ==> wide[..ret.value] == Convert([], s, ps.d).wcs
  {
    wide := new Wide[n + 1];
    var rest; ghost var stored, left;
    ret, rest, stored, left := Store(wide, s, n + 1, ps, mbLenMax);
    if ret.Some? {
      assert rest.None?;  // no goto prepare_...
      assert stored + [] == stored;
    }
  }

  // Lines 282-319 and 322-369: short strings in one pass, long ones counted first. Both fill the array with
  // the same characters and a NUL; `goto prepare_wpattern` and `goto prepare_wstring` are not reached, and
  // the state is initial wherever this is asserted.
  method Widen(s: seq<Byte>, ps: PackedState, mbLenMax: nat) returns (ok: bool, wide: array<Wide>, n: nat)
    requires ps.Valid() && ps.IsInitial() && 0 in s
    modifies ps
    ensures ps.Valid() && fresh(wide)
    ensures ok <==> Convert([], s, ps.d).Done?
    ensures ok ==> ps.IsInitial() && n < wide.Length && wide[n] == 0
    ensures ok ==> wide[..n] == Convert([], s, ps.d).wcs
  {
    NoMoreCharactersThanBytes(s, ps.d);
    var ret;
    n := Strnlen(s);
    if n < SHORT {
      ret, wide := Fill(s, n, ps, mbLenMax);
      return ret.Some?, wide, if ret.Some? then ret.value else 0;
    }
    var count := Count(s, ps, mbLenMax);
    if count.None? {
      wide := new Wide[0];
      return false, wide, 0;
    }
    assert ps.IsInitial();  // as asserted
    ret, wide := Fill(s, count.value, ps, mbLenMax);
    return true, wide, count.value;
  }

  // Patterns without groups that the matcher reads as the standard does mean, without FNM_PERIOD, what the standard
  // says.
  lemma WideMatchMeaning(env: Env, p: CString, s: CString)
    requires env.Sane() && Commitment.NoGroups(env, p, 0) && !env.flags.period
    requires Reading.Parse(env, p, 0).Some? && Posix.Read(env, p, 0).Some?
    ensures var (g, std) := (Reading.Parse(env, p, 0).value, Posix.Read(env, p, 0).value);
            && (Agreement.HasLostOpen(g) ==> !Fnmatch.Accepts(env, p, s))
            && (Agreement.Alike(env, g, std) ==>
                  (Fnmatch.Accepts(env, p, s)
                   <==> Glob.Matches(env, std, s, 0, |s|) && !(env.flags.fileName && Meaning.HasStarQuotedSlash(std))))
            && (env.flags.fileName && Agreement.HasSlashInSet(g) && !env.flags.leadingDir ==>
                  !(Fnmatch.Accepts(env, p, s) && Glob.Matches(env, std, s, 0, |s|)))
  {
    Meaning.FctMeaning(env, p, 0, Reading.Parse(env, p, 0).value, Posix.Read(env, p, 0).value, s, 0, |s|);
  }

  predicate AcceptsDecoded(env: Env, wpattern: seq<Wide>, wstring: seq<Wide>, d: Decoder)
    requires IsText(wpattern, d) && IsText(wstring, d)
  {
    Fnmatch.Accepts(env, ToText(wpattern), ToText(wstring))
  }

  // The call of the wide matcher (lines 371-373)
  method MatchTexts(env: Env, wpattern: seq<Wide>, wstring: seq<Wide>, d: Decoder) returns (r: int, ghost turns: nat)
    requires IsText(wpattern, d) && IsText(wstring, d)
    ensures r == if AcceptsDecoded(env, wpattern, wstring, d) then 0 else 1
    ensures env.Sane() && !env.flags.extMatch ==> turns <= (|wpattern| + 1) * (|wstring| + 1)
  {
    var p, s := ToText(wpattern), ToText(wstring);
    var v;
    v, turns := FnmatchLoop.FctMethod(env, p, 0, s, 0, |s|, env.flags.period, false);
    FnmatchLoop.BudgetIsProduct(|p|, |s|);
    r := if v == Fnmatch.Match then 0 else 1;
  }

  // ----- from bytes to the answer -----

  // The code points of a text
  ghost predicate IsSpelled(wcs: seq<Wide>, t: CString, d: Decoder) {
    && |wcs| == |t|
    && forall j :: 0 <= j < |t| ==> Scalar(wcs[j]) && Fits(wcs[j], d.wcharMax) && wcs[j] as int == t[j] as int
  }

  // The bytes begin with the UTF-8 encoding of a text, whose characters wchar_t can hold, and a NUL.
  ghost predicate Spells(bytes: seq<Byte>, t: CString, d: Decoder) {
    exists wcs: seq<Wide> :: IsSpelled(wcs, t, d) && EncodeAll(wcs) + [0] <= bytes
  }

  lemma SpellingIsText(wcs: seq<Wide>, t: CString, d: Decoder)
    requires IsSpelled(wcs, t, d)
    ensures IsText(wcs, d) && ToText(wcs) == t
  {
    forall j | 0 <= j < |t| ensures wcs[j] != 0 && ToChar(wcs[j]) == t[j] {
      SamePoint(wcs[j], t[j]);
    }
  }

  lemma SamePoint(wc: Wide, c: char)
    requires Scalar(wc) && wc as int == c as int && c != '\0'
    ensures wc != 0 && ToChar(wc) == c
  {
    ToCharKeepsPoint(wc);
  }

  lemma TextIsSpelling(wcs: seq<Wide>, d: Decoder)
    requires IsText(wcs, d)
    ensures IsSpelled(wcs, ToText(wcs), d)
  {
    var t := ToText(wcs);
    forall j | 0 <= j < |t| ensures wcs[j] as int == t[j] as int {
      ToCharKeepsPoint(wcs[j]);
    }
  }

  lemma SpellingConverts(bytes: seq<Byte>, t: CString, d: Decoder)
    requires Spells(bytes, t, d)
    ensures 0 in bytes && Convert([], bytes, d).Done?
    ensures IsText(Convert([], bytes, d).wcs, d) && ToText(Convert([], bytes, d).wcs) == t
  {
    var wcs: seq<Wide> :| IsSpelled(wcs, t, d) && EncodeAll(wcs) + [0] <= bytes;
    SpellingIsText(wcs, t, d);
    ConvertInvertsEncoding(wcs, bytes, d);
  }

  lemma NulBehind(bytes: seq<Byte>, n: nat)
    requires n < |bytes| && bytes[n] == 0
    ensures [] + bytes[..n] + [0] <= bytes
  {
    assert [] + bytes[..n] + [0] == bytes[..n + 1];
  }

  lemma DoneIsEncoded(bytes: seq<Byte>, d: Decoder)
    requires 0 in bytes && Convert([], bytes, d).Done?
    ensures IsText(Convert([], bytes, d).wcs, d) && EncodeAll(Convert([], bytes, d).wcs) + [0] <= bytes
  {
    DoneIsDecoded([], bytes, d);
    NulBehind(bytes, Strlen(bytes));
  }

  lemma DoneSpells(bytes: seq<Byte>, wcs: seq<Wide>, d: Decoder)
    requires IsText(wcs, d) && EncodeAll(wcs) + [0] <= bytes
    ensures Spells(bytes, ToText(wcs), d)
  {
    TextIsSpelling(wcs, d);
  }

  lemma BadSpellsNothing(bytes: seq<Byte>, d: Decoder)
    requires 0 in bytes && Convert([], bytes, d).Bad?
    ensures !exists t: CString :: Spells(bytes, t, d)
  {
    if t: CString :| Spells(bytes, t, d) {
      SpellingConverts(bytes, t, d);
    }
  }

  lemma OneText(bytes: seq<Byte>, d: Decoder)
    requires 0 in bytes && Convert([], bytes, d).Done? && IsText(Convert([], bytes, d).wcs, d)
    ensures forall t: CString :: Spells(bytes, t, d) ==> t == ToText(Convert([], bytes, d).wcs)
  {
    forall t: CString | Spells(bytes, t, d) ensures t == ToText(Convert([], bytes, d).wcs) {
      SpellingConverts(bytes, t, d);
    }
  }

  // What the conversions make of both arguments
  method MatchConverted(pattern: seq<Byte>, str: seq<Byte>, env: Env, d: Decoder, mbLenMax: nat)
    returns (r: int, ghost turns: nat)
    requires 0 in pattern && 0 in str
    ensures r == -1 <==> Convert([], pattern, d).Bad? || Convert([], str, d).Bad?
    ensures r != -1 ==> IsText(Convert([], pattern, d).wcs, d) && IsText(Convert([], str, d).wcs, d)
    ensures r != -1 ==>
              r == if AcceptsDecoded(env, Convert([], pattern, d).wcs, Convert([], str, d).wcs, d) then 0 else 1
    ensures r != -1 && env.Sane() && !env.flags.extMatch ==>
              turns <= (|Convert([], pattern, d).wcs| + 1) * (|Convert([], str, d).wcs| + 1)
  {
    turns := 0;
    var ps := new PackedState(d);
    var ok, wpattern, wlen := Widen(pattern, ps, mbLenMax);
    if !ok {
      return -1, 0;
    }
    ghost var wp := wpattern[..wlen];
    assert ps.IsInitial();  // as asserted
    var wstring, n;
    ok, wstring, n := Widen(str, ps, mbLenMax);
    if !ok {
      return -1, 0;
    }
    DoneIsDecoded([], pattern, d);
    DoneIsDecoded([], str, d);
    r, turns := MatchTexts(env, wpattern[..wlen], wstring[..n], d);
  }

  // A text is spelled exactly if the conversion ends well, and then it is the one that was found.
  lemma SpelledIsConverted(bytes: seq<Byte>, d: Decoder)
    requires 0 in bytes
    ensures Convert([], bytes, d).Bad? <==> !exists t: CString :: Spells(bytes, t, d)
    ensures Convert([], bytes, d).Done? ==>
              && IsText(Convert([], bytes, d).wcs, d)
              && forall t: CString :: Spells(bytes, t, d) ==> t == ToText(Convert([], bytes, d).wcs)
  {
    if Convert([], bytes, d).Bad? {
      BadSpellsNothing(bytes, d);
    } else {
      DoneIsEncoded(bytes, d);
      DoneSpells(bytes, Convert([], bytes, d).wcs, d);
      OneText(bytes, d);
    }
  }

  // fnmatch: 0 for a match, FNM_NOMATCH for none, -1 if an argument is not UTF-8. It is what the matcher answers on the
  // texts that the bytes spell.
  method FnMatch(pattern: seq<Byte>, str: seq<Byte>, env: Env, d: Decoder, mbLenMax: nat)
    returns (r: int, ghost turns: nat)
    requires 0 in pattern && 0 in str
    ensures r == -1 <==> !(exists p: CString :: Spells(pattern, p, d)) || !(exists s: CString :: Spells(str, s, d))
    ensures forall p: CString, s: CString :: Spells(pattern, p, d) && Spells(str, s, d) ==>
              && r == (if Fnmatch.Accepts(env, p, s) then 0 else 1)
              && (env.Sane() && !env.flags.extMatch ==> turns <= (|p| + 1) * (|s| + 1))
  {
    r, turns := MatchConverted(pattern, str, env, d, mbLenMax);
    SpelledIsConverted(pattern, d);
    SpelledIsConverted(str, d);
  }
}
