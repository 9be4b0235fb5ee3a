/**
  mbsrtowcs and mbsrtoc32s (lib/mbsrtowcs-impl.h:18-121): a NUL-terminated UTF-8 string is converted
  character by character, into an array or only to count the characters.
*/
module Mbsrtowcs {
  import opened Wrappers
  import opened Utf8
  import opened Utf8Decode
  import opened Restart
  import opened MbState

  // ----- NUL bytes -----

  lemma NulIsAlone(v: Wide)
    requires Scalar(v) && v != 0
    ensures forall j :: 0 <= j < |Encode(v)| ==> Encode(v)[j] != 0
  {
  }

  lemma StartHasNoNul(p: seq<Byte>)
    requires IsStart(p)
    ensures 0 !in p
  {
  }

  // A string with its NUL, or four bytes of it, decides the next character.
  lemma AlwaysDecided(saved: seq<Byte>, s: seq<Byte>, d: Decoder)
    requires Pending(saved) && (0 in s || |s| >= 4)
    ensures d.decode(saved + s) != Incomplete
  {
    IncludedIsIncomplete(saved + s, d);
    if IsStart(saved + s) {
      StartHasNoNul(saved + s);
    }
  }

  lemma PrefixDecides(saved: seq<Byte>, s: seq<Byte>, k: nat, d: Decoder)
    requires Pending(saved) && 0 < k <= |s| && (0 in s[..k] || k >= 4)
    ensures d.decode(saved + s[..k]) == d.decode(saved + s) != Incomplete
  {
    AlwaysDecided(saved, s[..k], d);
    assert saved + s[..k] <= saved + s;
    IncludedIsStable(saved + s[..k], saved + s, d);
  }

  // ----- the conversion of a whole string -----

  // The characters before the NUL, or those before the first ill-formed byte sequence and the bytes
  // from there on
  datatype Conversion =
    | Done(wcs: seq<Wide>)
    | Bad(wcs: seq<Wide>, rest: seq<Byte>)

  function Prepend(wcs: seq<Wide>, c: Conversion): Conversion {
    match c
    case Done(more) => Done(wcs + more)
    case Bad(more, rest) => Bad(wcs + more, rest)
  }

  lemma NulIsBehind(saved: seq<Byte>, s: seq<Byte>, bs: seq<Byte>, taken: nat)
    requires 0 in s && taken <= |s| && saved + s[..taken] == bs
    requires forall j :: 0 <= j < |bs| ==> bs[j] != 0
    ensures forall j :: 0 <= j < taken ==> s[j] != 0
    ensures 0 in s[taken..]
  {
    forall j | 0 <= j < taken ensures s[j] != 0 {
      assert s[j] == bs[|saved| + j];
    }
    var z :| 0 <= z < |s| && s[z] == 0;
    assert s[z] in s[taken..];
  }

  lemma TakenHasNoNul(saved: seq<Byte>, s: seq<Byte>, d: Decoder)
    requires Pending(saved) && 0 in s
    ensures var v := VerdictOn(saved, s, d);
            && !v.Unfinished?
            && (v.Character? && v.wc != 0 ==> 0 in s[v.taken..])
  {
    AlwaysDecided(saved, s, d);
    var v := VerdictOn(saved, s, d);
    if v.Character? && v.wc != 0 {
      NulIsAlone(v.wc);
      NulIsBehind(saved, s, Encode(v.wc), v.taken);
    }
  }

  function Convert(saved: seq<Byte>, s: seq<Byte>, d: Decoder): (r: Conversion)
    requires Pending(saved) && 0 in s
    ensures r.Bad? ==> |r.rest| <= |s|
    decreases |s|
  {
    TakenHasNoNul(saved, s, d);
    match VerdictOn(saved, s, d)
    case Character(wc, taken) =>
      if wc == 0 then Done([]) else Prepend([wc], Convert([], s[taken..], d))
    case _ => Bad([], s)
  }

  // strlen
  function Strlen(s: seq<Byte>): (n: nat)
    requires 0 in s
    ensures n < |s| && s[n] == 0 && forall j :: 0 <= j < n ==> s[j] != 0
  {
    if s[0] == 0 then 0 else assert 0 in s[1..]; 1 + Strlen(s[1..])
  }

  lemma StrlenIsFirst(s: seq<Byte>, n: nat)
    requires n < |s| && s[n] == 0 && forall j :: 0 <= j < n ==> s[j] != 0
    ensures 0 in s && Strlen(s) == n
  {
  }

  ghost predicate IsText(wcs: seq<Wide>, d: Decoder) {
    forall j :: 0 <= j < |wcs| ==> Scalar(wcs[j]) && wcs[j] != 0 && Fits(wcs[j], d.wcharMax)
  }

  // A conversion that ends well gives the characters whose encodings make up the string.
  lemma {:induction false} DoneIsDecoded(saved: seq<Byte>, s: seq<Byte>, d: Decoder)
    requires Pending(saved) && 0 in s && Convert(saved, s, d).Done?
    ensures var wcs := Convert(saved, s, d).wcs;
            IsText(wcs, d) && EncodeAll(wcs) == saved + s[..Strlen(s)]
    decreases |s|
  {
    FeedFindsCharacters(saved, s, d);
    TakenHasNoNul(saved, s, d);
    var v := VerdictOn(saved, s, d);
    if v.wc == 0 {
      assert saved + s[..0] == [];
    } else {
      var rest := s[v.taken..];
      DoneIsDecoded([], rest, d);
      CharacterThenRest(saved, s, v.wc, v.taken, d);
      TextGrows(v.wc, Convert([], rest, d).wcs, d);
      assert [] + rest[..Strlen(rest)] == rest[..Strlen(rest)];
    }
  }

  lemma TextGrows(wc: Wide, wcs: seq<Wide>, d: Decoder)
    requires Scalar(wc) && wc != 0 && Fits(wc, d.wcharMax) && IsText(wcs, d)
    ensures IsText([wc] + wcs, d) && EncodeAll([wc] + wcs) == Encode(wc) + EncodeAll(wcs)
  {
    assert ([wc] + wcs)[1..] == wcs;
  }

  lemma CharacterThenRest(saved: seq<Byte>, s: seq<Byte>, wc: Wide, taken: nat, d: Decoder)
    requires 0 in s && taken <= |s| && 0 in s[taken..] && Scalar(wc) && wc != 0
    requires saved + s[..taken] == Encode(wc)
    ensures Encode(wc) + s[taken..][..Strlen(s[taken..])] == saved + s[..Strlen(s)]
  {
    NulIsAlone(wc);
    RestAfter(saved, s, Encode(wc), taken);
  }

  lemma RestAfter(saved: seq<Byte>, s: seq<Byte>, bs: seq<Byte>, taken: nat)
    requires 0 in s && taken <= |s| && 0 in s[taken..]
    requires saved + s[..taken] == bs && forall j :: 0 <= j < |bs| ==> bs[j] != 0
    ensures bs + s[taken..][..Strlen(s[taken..])] == saved + s[..Strlen(s)]
  {
    var m := Strlen(s[taken..]);
    NulIsBehind(saved, s, bs, taken);
    forall j | taken <= j < taken + m ensures s[j] != 0 {
      assert s[j] == s[taken..][j - taken];
    }
    StrlenIsFirst(s, taken + m);
    SliceSplits(saved, s, taken, m);
  }

  lemma SliceSplits(saved: seq<Byte>, s: seq<Byte>, k: nat, m: nat)
    requires k + m <= |s|
    ensures saved + s[..k] + s[k..][..m] == saved + s[..k + m]
  {
  }

  // The encoding of any text is converted back to it.
  lemma {:induction false} ConvertInvertsEncoding(wcs: seq<Wide>, s: seq<Byte>, d: Decoder)
    requires IsText(wcs, d) && EncodeAll(wcs) + [0] <= s
    ensures 0 in s && Convert([], s, d) == Done(wcs)
  {
    if wcs == [] {
      VerdictOnNul(s, d);
    } else {
      FirstEncoding(wcs, s);
      VerdictOnEncoding(wcs[0], s, d);
      ConvertInvertsEncoding(wcs[1..], s[Length(wcs[0])..], d);
      ConvertGoesOn([], s, wcs, Length(wcs[0]), d);
    }
  }

  lemma ConvertGoesOn(saved: seq<Byte>, s: seq<Byte>, wcs: seq<Wide>, k: nat, d: Decoder)
    requires Pending(saved) && k <= |s| && wcs != [] && wcs[0] != 0 && VerdictOn(saved, s, d) == Character(wcs[0], k)
    requires 0 in s[k..] && Convert([], s[k..], d) == Done(wcs[1..])
    ensures 0 in s && Convert(saved, s, d) == Done(wcs)
  {
    NulInSlice(s, k);
    assert Prepend([wcs[0]], Done(wcs[1..])) == Done(wcs) by {
      assert [wcs[0]] + wcs[1..] == wcs;
    }
  }

  lemma NulInSlice(s: seq<Byte>, k: nat)
    requires k <= |s| && 0 in s[k..]
    ensures 0 in s
  {
  }

  // A character of which some bytes are saved already
  lemma VerdictOnRest(saved: seq<Byte>, v: Wide, s: seq<Byte>, d: Decoder)
    requires IsStart(saved) && Scalar(v) && v != 0 && Fits(v, d.wcharMax) && Encode(v) <= saved + s
    ensures |saved| < Length(v) <= |saved| + |s| && VerdictOn(saved, s, d) == Character(v, Length(v) - |saved|)
  {
    IncludedAccepts(saved + s, v, d);
    IncludedIsIncomplete(saved, d);
    if Length(v) <= |saved| {
      assert Encode(v) <= saved by {
        assert saved == (saved + s)[..|saved|];
      }
      IncludedAccepts(saved, v, d);
    }
    assert |Encode(v)| == Length(v);
  }

  lemma SavedBeginsText(saved: seq<Byte>, wcs: seq<Wide>, s: seq<Byte>, d: Decoder)
    requires IsStart(saved) && IsText(wcs, d) && EncodeAll(wcs) + [0] <= saved + s
    ensures wcs != []
    ensures Encode(wcs[0]) <= saved + s && EncodeAll(wcs[1..]) + [0] <= (saved + s)[Length(wcs[0])..]
  {
    StartHasNoNul(saved);
    if wcs == [] {
      FirstByte(saved, s, 0);
    } else {
      FirstEncoding(wcs, saved + s);
    }
  }

  lemma FirstByte(saved: seq<Byte>, s: seq<Byte>, b: Byte)
    requires saved != [] && [b] <= saved + s
    ensures b in saved
  {
    assert saved[0] == (saved + s)[0];
  }

  // The same from every reachable state: the saved bytes and the string together are the encoding of the text.
  lemma ConvertCompletesEncoding(saved: seq<Byte>, wcs: seq<Wide>, s: seq<Byte>, d: Decoder)
    requires Pending(saved) && IsText(wcs, d) && EncodeAll(wcs) + [0] <= saved + s
    ensures 0 in s && Convert(saved, s, d) == Done(wcs)
  {
    if saved == [] {
      assert saved + s == s;
      ConvertInvertsEncoding(wcs, s, d);
    } else {
      SavedBeginsText(saved, wcs, s, d);
      VerdictOnRest(saved, wcs[0], s, d);
      var k := Length(wcs[0]) - |saved|;
      assert (saved + s)[Length(wcs[0])..] == s[k..];
      ConvertInvertsEncoding(wcs[1..], s[k..], d);
      ConvertGoesOn(saved, s, wcs, k, d);
    }
  }

  lemma VerdictOnNul(s: seq<Byte>, d: Decoder)
    requires [0] <= s
    ensures VerdictOn([], s, d) == Character(0, 1) && 0 in s
  {
    assert s[0] == 0;
    VerdictOnEncoding(0, s, d);
  }

  lemma FirstEncoding(wcs: seq<Wide>, s: seq<Byte>)
    requires wcs != [] && (forall wc :: wc in wcs ==> Scalar(wc)) && EncodeAll(wcs) + [0] <= s
    ensures Encode(wcs[0]) <= s && EncodeAll(wcs[1..]) + [0] <= s[Length(wcs[0])..] && 0 in s
  {
    var (bs, more) := (Encode(wcs[0]), EncodeAll(wcs[1..]));
    assert EncodeAll(wcs) == bs + more;
    SplitPrefix(bs, more, s);
  }

  lemma SplitPrefix(bs: seq<Byte>, more: seq<Byte>, s: seq<Byte>)
    requires bs + more + [0] <= s
    ensures bs <= s && more + [0] <= s[|bs|..] && 0 in s
  {
    var all := bs + more + [0];
    assert bs == all[..|bs|] == s[..|bs|];
    assert more + [0] == all[|bs|..] == s[|bs|..|all|];
    assert s[|all| - 1] == all[|all| - 1] == 0;
  }

  lemma PrependTwice(a: seq<Wide>, b: seq<Wide>, c: Conversion)
    ensures Prepend(a, Prepend(b, c)) == Prepend(a + b, c)
  {
  }

  lemma PrependNothing(c: Conversion)
    ensures Prepend([], c) == c
  {
  }

  // ----- the two modes -----

  // Lines 34-45 and 81-92: the length with the NUL, up to the bytes that a character may have in any locale; at least
  // four bytes are looked at.
  method SourceAvailable(s: seq<Byte>, mbLenMax: nat) returns (n: nat)
    requires 0 in s
    ensures 0 < n <= |s| && (0 in s[..n] || n >= 4)
  {
    if s[0] == 0 {
      n := 1;
    } else if s[1] == 0 {
      n := 2;
    } else if s[2] == 0 {
      n := 3;
    } else if mbLenMax <= 4 || s[3] == 0 {
      n := 4;
    } else {
      n := 4;
      while n < mbLenMax && s[n] != 0
        invariant 4 <= n < |s| && forall j :: 0 <= j < n ==> s[j] != 0
      {
        n := n + 1;
      }
      if n < mbLenMax {
        n := n + 1;
      }
    }
    assert n < 4 ==> s[..n][n - 1] == 0;
  }

  // One character of a string: the bytes offered to mbrtowc decide what the whole string decides.
  lemma OfferSuffices(saved: seq<Byte>, s: seq<Byte>, n: nat, d: Decoder)
    requires Pending(saved) && 0 in s && 0 < n <= |s| && (0 in s[..n] || n >= 4)
    ensures var r := Feed(saved, s[..n], d);
            match VerdictOn(saved, s, d)
            case Character(wc, taken) =>
              r.saved == [] && r.wc == Some(wc) && r.reply == Consumed(if wc == 0 then 0 else taken)
            case Unfinished(_) => false
            case Illegal => r.reply.IllegalSequence? && r.saved == saved
  {
    PrefixDecides(saved, s, n, d);
    FeedFindsCharacters(saved, s, d);
  }

  // What a turn of either loop learns from MBRTOWC
  datatype Next =
    | Char(wc: Wide, taken: nat)
    | End
    | BadInput

  // What is left to convert
  ghost predicate Remains(whole: Conversion, saved: seq<Byte>, s: seq<Byte>, d: Decoder) {
    Pending(saved) && 0 in s && whole == Convert(saved, s, d)
  }

  // Lines 32-64 and 79-109. The conversion `whole` of s begins with what is returned, and goes on as `more`.
  method ConvertOne(s: seq<Byte>, ps: PackedState, mbLenMax: nat, ghost whole: Conversion)
    returns (next: Next, ghost more: Conversion)
    requires ps.Valid() && Remains(whole, ps.Saved(), s, ps.d)
    modifies ps
    ensures ps.Valid() && ps.Saved() == (if next.BadInput? then old(ps.Saved()) else [])
    ensures match next
            case Char(wc, taken) =>
              && 0 < taken <= |s| && whole == Prepend([wc], more) && Remains(more, [], s[taken..], ps.d)
            case End => whole == Done([])
            case BadInput => whole == Bad([], s)
  {
    ghost var saved := ps.Saved();
    var avail := SourceAvailable(s, mbLenMax);
    TakenHasNoNul(saved, s, ps.d);
    OfferSuffices(saved, s, avail, ps.d);
    var r, wc := ps.Mbrtowc(Some(s[..avail]));
    more := whole;
    assert r != Value(NeedMore) && r != BadState;  // abort () is not reached
    if r == Value(IllegalSequence) {
      return BadInput, more;
    }
    if r == Value(Consumed(0)) {
      return End, more;
    }
    more := Convert([], s[r.reply.bytes..], ps.d);
    return Char(wc.value, r.reply.bytes), more;
  }

  // Without a destination: counts, and leaves the caller's state alone. None stands for an ill-formed string.
  method Count(src: seq<Byte>, ps: PackedState, mbLenMax: nat) returns (ret: Option<nat>)
    requires ps.Valid() && 0 in src
    ensures ret == match Convert(ps.Saved(), src, ps.d) case Done(wcs) => Some(|wcs|) case Bad(_, _) => None
  {
    var state := new PackedState.Copy(ps);
    var s, totalcount := src, 0;
    ghost var whole, counted: seq<Wide> := Convert(ps.Saved(), src, ps.d), [];
    ghost var left := whole;
    PrependNothing(whole);
    while true
      invariant state.Valid() && state.d == ps.d && fresh(state)
      invariant totalcount == |counted| && Prepend(counted, left) == whole
      invariant Remains(left, state.Saved(), s, ps.d)
      decreases |s|
    {
      var next; ghost var more;
      next, more := ConvertOne(s, state, mbLenMax, left);
      match next {
        case BadInput => return None;
        case End => return Some(totalcount);
        case Char(wc, taken) =>
          PrependTwice(counted, [wc], more);
          counted, left := counted + [wc], more;
          s, totalcount := s[taken..], totalcount + 1;
      }
    }
  }

  // One turn of the storing loop (lines 32-64): dest[n] gets the character, or the final NUL.
  method StoreOne(dest: array<Wide>, n: nat, s: seq<Byte>, ps: PackedState, mbLenMax: nat, ghost whole: Conversion)
    returns (next: Next, ghost more: Conversion)
    requires ps.Valid() && Remains(whole, ps.Saved(), s, ps.d) && n < dest.Length
    modifies ps, dest
    ensures ps.Valid() && ps.Saved() == (if next.BadInput? then old(ps.Saved()) else [])
    ensures match next
            case Char(wc, taken) =>
              && 0 < taken <= |s| && whole == Prepend([wc], more) && Remains(more, [], s[taken..], ps.d)
              && dest[n] == wc
            case End => whole == Done([]) && dest[n] == 0
            case BadInput => whole == Bad([], s) && dest[n] == old(dest[n])
    ensures forall j :: 0 <= j < dest.Length && j != n ==> dest[j] == old(dest[j])
  {
    next, more := ConvertOne(s, ps, mbLenMax, whole);
    match next {
      case Char(wc, _) => dest[n] := wc;
      case End => dest[n] := 0;
      case BadInput =>
    }
  }

  // With a destination: stores at most len characters, and the NUL if there is room. `rest` is what *srcp is left at,
  // None for a null pointer. The conversion of src is what was stored and what is left.
  method Store(dest: array<Wide>, src: seq<Byte>, len: nat, ps: PackedState, mbLenMax: nat)
    returns (ret: Option<nat>, rest: Option<seq<Byte>>, ghost stored: seq<Wide>, ghost left: Conversion)
    requires ps.Valid() && 0 in src && len <= dest.Length
    modifies ps, dest
    ensures ps.Valid() && |stored| <= len
    ensures Prepend(stored, left) == old(Convert(ps.Saved(), src, ps.d))
    ensures ps.Saved() == if |stored| == 0 && rest.Some? then old(ps.Saved()) else []
    ensures rest.None? ==> ret == Some(|stored|) && |stored| < len && left == Done([]) && dest[|stored|] == 0
    ensures rest.Some? && ret.None? ==> |stored| < len && left == Bad([], rest.value)
    ensures rest.Some? && ret.Some? ==> ret.value == |stored| == len && Remains(left, ps.Saved(), rest.value, ps.d)
    ensures dest[..|stored|] == stored
    ensures forall j :: |stored| + (if rest.None? then 1 else 0) <= j < dest.Length ==> dest[j] == old(dest[j])
  {
    ghost var saved0 := ps.Saved();
    ghost var whole := Convert(saved0, src, ps.d);
    var s, n := src, 0;
    stored, left := [], whole;
    PrependNothing(whole);
    while n < len
      invariant ps.Valid() && 0 <= n <= len && |stored| == n
      invariant ps.Saved() == if n == 0 then saved0 else []
      invariant Prepend(stored, left) == whole && Remains(left, ps.Saved(), s, ps.d)
      invariant forall j :: 0 <= j < n ==> dest[j] == stored[j]
      invariant forall j :: n <= j < dest.Length ==> dest[j] == old(dest[j])
    {
      var next; ghost var more;
      next, more := StoreOne(dest, n, s, ps, mbLenMax, left);
      if next.BadInput? {
        return None, Some(s), stored, left;
      }
      if next.End? {
        return Some(n), None, stored, left;
      }
      PrependTwice(stored, [next.wc], more);
      stored, left := stored + [next.wc], more;
      s, n := s[next.taken..], n + 1;
    }
    return Some(n), Some(s), stored, left;
  }

  // Counting, and then storing into room for len characters: the two agree wherever the room suffices, and then the
  // characters and a NUL are stored, *srcp is null, and the state is initial.
  method CountAndStore(dest: array<Wide>, src: seq<Byte>, len: nat, ps: PackedState, mbLenMax: nat)
    returns (count: Option<nat>, ret: Option<nat>, rest: Option<seq<Byte>>)
    requires ps.Valid() && 0 in src && len <= dest.Length
    modifies ps, dest
    ensures ps.Valid() && (rest.None? ==> ps.IsInitial())
    ensures count.Some? && count.value < len <==> ret.Some? && rest.None?
    ensures rest.None? ==> ret == count && ret.Some? && ret.value < dest.Length && dest[ret.value] == 0
    ensures rest.None? ==> dest[..ret.value] == old(Convert(ps.Saved(), src, ps.d)).wcs
  {
    ghost var whole := Convert(ps.Saved(), src, ps.d);
    count := Count(src, ps, mbLenMax);
    ghost var stored, left;
    ret, rest, stored, left := Store(dest, src, len, ps, mbLenMax);
    assert |whole.wcs| == |stored| + |left.wcs|;
    assert stored + [] == stored;
  }
}
