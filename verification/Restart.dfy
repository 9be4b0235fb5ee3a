/**
  One call of the restartable decoder, apart from how its state is stored (lib/mbrtowc.c:110-292,
  lib/mbrtowc-impl.h:22-263): the bytes saved by earlier calls and the n new ones are decoded
  together. Cutting the input anywhere changes nothing.
*/
module Restart {
  import opened Wrappers
  import opened Utf8
  import opened Utf8Decode

  // The return value: a number of bytes, (size_t) -2, or (size_t) -1 with EILSEQ
  datatype Reply =
    | Consumed(bytes: nat)
    | NeedMore
    | IllegalSequence

  // What a call answers, what it stores through pwc, and the bytes it leaves saved
  datatype Outcome = Outcome(reply: Reply, wc: Option<Wide>, saved: seq<Byte>)

  // The state in every run: nothing saved, or the beginning of a character
  ghost predicate Pending(saved: seq<Byte>) {
    saved == [] || IsStart(saved)
  }

  function Feed(saved: seq<Byte>, s: seq<Byte>, d: Decoder): (r: Outcome)
    requires Pending(saved)
  {
    if s == [] then Outcome(NeedMore, None, saved)
    else match d.decode(saved + s)
      case Success(res, wc) =>
        SuccessOutgrowsSaved(saved, s, d);
        Outcome(Consumed(res - |saved|), Some(wc), [])
      case Incomplete => Outcome(NeedMore, None, saved + s)
      case Invalid => Outcome(IllegalSequence, None, saved)
  }

  // The check at lib/mbrtowc.c:236, whether as many bytes were saved as the character has, never holds: what is saved
  // is a proper part of the character.
  lemma SuccessOutgrowsSaved(saved: seq<Byte>, s: seq<Byte>, d: Decoder)
    requires Pending(saved) && s != [] && d.decode(saved + s).Success?
    ensures var res := d.decode(saved + s).res; |saved| < if res > 0 then res else 1
  {
    var v := d.decode(saved + s).wc;
    IncludedSucceeds(saved + s, d);
    if Length(v) <= |saved| {
      assert Encode(v) <= saved by {
        assert saved == (saved + s)[..|saved|];
      }
      IncludedIsIncomplete(saved, d);
      IncludedAccepts(saved, v, d);
    }
  }

  lemma StartThenNul(saved: seq<Byte>, d: Decoder)
    requires IsStart(saved)
    ensures d.decode(saved + [0]) == Invalid
  {
    var p := saved + [0];
    IncludedIsIncomplete(saved, d);
    IncludedIsIncomplete(p, d);
    if d.decode(p).Success? {
      var v := d.decode(p).wc;
      IncludedSucceeds(p, d);
      SuccessOutgrowsSaved(saved, [0], d);
      EncodeIsWellFormed(v);
      assert false;
    }
  }

  // A null pointer, which stands for a NUL: it ends no character that has begun.
  lemma NullPointer(saved: seq<Byte>, d: Decoder)
    requires Pending(saved)
    ensures Feed(saved, [0], d)
            == if saved == [] then Outcome(Consumed(0), Some(0), []) else Outcome(IllegalSequence, None, saved)
  {
    if saved == [] {
      assert saved + [0] == [0] == Encode(0);
      IncludedAccepts([0], 0, d);
    } else {
      StartThenNul(saved, d);
    }
  }

  // How many bytes of the input a call that found a character has taken
  function Taken(r: Outcome): nat
    requires r.reply.Consumed? && r.wc.Some?
  {
    if r.wc.value == 0 then 1 else r.reply.bytes
  }

  // A call keeps the state pending, and the bytes of a character it finds are the saved ones and the ones it
  // takes. Only the NUL is answered with 0, and only from the initial state.
  lemma FeedFindsCharacters(saved: seq<Byte>, s: seq<Byte>, d: Decoder)
    requires Pending(saved)
    ensures var r := Feed(saved, s, d);
            && Pending(r.saved)
            && (r.reply.Consumed? ==>
                  && r.wc.Some? && Scalar(r.wc.value) && Fits(r.wc.value, d.wcharMax)
                  && (r.reply.bytes == 0 <==> r.wc.value == 0)
                  && (r.wc.value == 0 ==> saved == [] && s != [] && s[0] == 0)
                  && 1 <= Taken(r) <= |s| && saved + s[..Taken(r)] == Encode(r.wc.value))
  {
    if s != [] {
      var p := saved + s;
      IncludedIsIncomplete(p, d);
      if d.decode(p).Success? {
        IncludedSucceeds(p, d);
        SuccessOutgrowsSaved(saved, s, d);
        var k := Length(d.decode(p).wc);
        assert saved + s[..k - |saved|] == p[..k];
        assert p[..k] == Encode(d.decode(p).wc);
        assert d.decode(p).wc == 0 ==> p[0] == Encode(0)[0];
      }
    }
  }

  // ----- cutting the input -----

  // What a caller learns who passes input until something other than -2 comes back: the character and how many
  // bytes it took, or the bytes still saved, or that there is none.
  datatype Verdict =
    | Character(wc: Wide, taken: nat)
    | Unfinished(saved: seq<Byte>)
    | Illegal

  function VerdictOn(saved: seq<Byte>, s: seq<Byte>, d: Decoder): (v: Verdict)
    requires Pending(saved)
    ensures v.Unfinished? ==> Pending(v.saved)
    ensures v.Character? ==> 1 <= v.taken <= |s| && Scalar(v.wc) && saved + s[..v.taken] == Encode(v.wc)
  {
    FeedFindsCharacters(saved, s, d);
    var r := Feed(saved, s, d);
    match r.reply
    case Consumed(_) => Character(r.wc.value, Taken(r))
    case NeedMore => Unfinished(r.saved)
    case IllegalSequence => Illegal
  }

  function Later(v: Verdict, bytes: nat): Verdict {
    match v
    case Character(wc, taken) => Character(wc, bytes + taken)
    case _ => v
  }

  function VerdictOnPieces(saved: seq<Byte>, pieces: seq<seq<Byte>>, d: Decoder): Verdict
    requires Pending(saved)
    decreases |pieces|
  {
    if pieces == [] then Unfinished(saved)
    else match VerdictOn(saved, pieces[0], d)
      case Unfinished(saved') => Later(VerdictOnPieces(saved', pieces[1..], d), |pieces[0]|)
      case v => v
  }

  function Flatten(pieces: seq<seq<Byte>>): seq<Byte> {
    if pieces == [] then [] else pieces[0] + Flatten(pieces[1..])
  }

  lemma DecidedCall(saved: seq<Byte>, s: seq<Byte>, t: seq<Byte>, d: Decoder)
    requires Pending(saved) && s != [] && d.decode(saved + s) != Incomplete
    ensures VerdictOn(saved, s + t, d) == VerdictOn(saved, s, d)
  {
    IncludedIsStable(saved + s, saved + (s + t), d);
  }

  lemma UndecidedCall(saved: seq<Byte>, s: seq<Byte>, t: seq<Byte>, d: Decoder)
    requires Pending(saved) && s != [] && t != [] && d.decode(saved + s) == Incomplete
    ensures Pending(saved + s)
    ensures VerdictOn(saved, s + t, d) == Later(VerdictOn(saved + s, t, d), |s|)
  {
    IncludedIsIncomplete(saved + s, d);
    assert saved + s + t == saved + (s + t);
    if d.decode(saved + s + t).Success? {
      SuccessOutgrowsSaved(saved + s, t, d);
    }
  }

  lemma TwoCalls(saved: seq<Byte>, s: seq<Byte>, t: seq<Byte>, d: Decoder)
    requires Pending(saved)
    ensures VerdictOn(saved, s + t, d)
            == match VerdictOn(saved, s, d)
               case Unfinished(saved') => Later(VerdictOn(saved', t, d), |s|)
               case v => v
  {
    if s == [] {
      assert s + t == t;
    } else if d.decode(saved + s) != Incomplete {
      DecidedCall(saved, s, t, d);
    } else if t == [] {
      assert s + t == s;
    } else {
      UndecidedCall(saved, s, t, d);
    }
  }

  // Any cutting is as good as one call on the whole: the same character, the same number of bytes taken, the
  // same verdict.
  lemma {:induction false} CutsDoNotMatter(saved: seq<Byte>, pieces: seq<seq<Byte>>, d: Decoder)
    requires Pending(saved)
    ensures VerdictOnPieces(saved, pieces, d) == VerdictOn(saved, Flatten(pieces), d)
    decreases |pieces|
  {
    if pieces != [] {
      var v := VerdictOn(saved, pieces[0], d);
      TwoCalls(saved, pieces[0], Flatten(pieces[1..]), d);
      if v.Unfinished? {
        CutsDoNotMatter(v.saved, pieces[1..], d);
      }
    }
  }

  // ----- a whole stream -----

  // All the characters in the input, and the state behind them; None if decoding stopped
  function Stream(saved: seq<Byte>, s: seq<Byte>, d: Decoder): (r: (seq<Wide>, Option<seq<Byte>>))
    requires Pending(saved)
    ensures r.1.Some? ==> Pending(r.1.value)
    decreases |s|, 1
  {
    StreamAfter(VerdictOn(saved, s, d), s, d)
  }

  ghost predicate SoundOn(v: Verdict, s: seq<Byte>) {
    && (v.Unfinished? ==> Pending(v.saved))
    && (v.Character? ==> 1 <= v.taken <= |s|)
  }

  function StreamAfter(v: Verdict, s: seq<Byte>, d: Decoder): (r: (seq<Wide>, Option<seq<Byte>>))
    requires SoundOn(v, s)
    ensures r.1.Some? ==> Pending(r.1.value)
    decreases |s|, 0
  {
    match v
    case Unfinished(saved) => ([], Some(saved))
    case Illegal => ([], None)
    case Character(wc, taken) =>
      var (wcs, end) := Stream([], s[taken..], d);
      ([wc] + wcs, end)
  }

  function StreamPieces(saved: seq<Byte>, pieces: seq<seq<Byte>>, d: Decoder): (seq<Wide>, Option<seq<Byte>>)
    requires Pending(saved)
    decreases |pieces|
  {
    if pieces == [] then ([], Some(saved))
    else
      var (wcs, end) := Stream(saved, pieces[0], d);
      if end.None? then (wcs, end)
      else
        var (wcs', end') := StreamPieces(end.value, pieces[1..], d);
        (wcs + wcs', end')
  }

  lemma LaterIsShifted(v: Verdict, s: seq<Byte>, t: seq<Byte>, d: Decoder)
    requires SoundOn(v, t)
    ensures SoundOn(Later(v, |s|), s + t)
    ensures StreamAfter(Later(v, |s|), s + t, d) == StreamAfter(v, t, d)
  {
    if v.Character? {
      assert (s + t)[|s| + v.taken..] == t[v.taken..];
    }
  }

  // Decoding s and then t
  ghost function Then(first: (seq<Wide>, Option<seq<Byte>>), t: seq<Byte>, d: Decoder): (seq<Wide>, Option<seq<Byte>>)
    requires first.1.Some? ==> Pending(first.1.value)
  {
    if first.1.None? then first
    else (first.0 + Stream(first.1.value, t, d).0, Stream(first.1.value, t, d).1)
  }

  lemma {:induction false} StreamContinues(saved: seq<Byte>, s: seq<Byte>, t: seq<Byte>, d: Decoder)
    requires Pending(saved)
    ensures Stream(saved, s + t, d) == Then(Stream(saved, s, d), t, d)
    decreases |s|, 2
  {
    TwoCalls(saved, s, t, d);
    AfterContinues(VerdictOn(saved, s, d), s, t, d);
  }

  lemma {:induction false} AfterContinues(v: Verdict, s: seq<Byte>, t: seq<Byte>, d: Decoder)
    requires SoundOn(v, s)
    ensures var w := if v.Unfinished? then Later(VerdictOn(v.saved, t, d), |s|) else v;
            SoundOn(w, s + t) && StreamAfter(w, s + t, d) == Then(StreamAfter(v, s, d), t, d)
    decreases |s|, 1
  {
    if v.Unfinished? {
      LaterIsShifted(VerdictOn(v.saved, t, d), s, t, d);
      assert [] + Stream(v.saved, t, d).0 == Stream(v.saved, t, d).0;
    } else if v.Character? {
      CharacterContinues(v, s, t, d);
    }
  }

  lemma {:induction false} CharacterContinues(v: Verdict, s: seq<Byte>, t: seq<Byte>, d: Decoder)
    requires SoundOn(v, s) && v.Character?
    ensures StreamAfter(v, s + t, d) == Then(StreamAfter(v, s, d), t, d)
    decreases |s|, 0
  {
    var rest := s[v.taken..];
    assert (s + t)[v.taken..] == rest + t;
    StreamContinues([], rest, t, d);
    FirstThen(v.wc, Stream([], rest, d), t, d);
  }

  lemma FirstThen(wc: Wide, first: (seq<Wide>, Option<seq<Byte>>), t: seq<Byte>, d: Decoder)
    requires first.1.Some? ==> Pending(first.1.value)
    ensures var all := Then(first, t, d);
            Then(([wc] + first.0, first.1), t, d) == ([wc] + all.0, all.1)
  {
    if first.1.Some? {
      var more := Stream(first.1.value, t, d).0;
      assert [wc] + first.0 + more == [wc] + (first.0 + more);
    }
  }

  // Decoding a stream buffer by buffer gives the characters of the whole stream.
  lemma {:induction false} StreamCutsDoNotMatter(saved: seq<Byte>, pieces: seq<seq<Byte>>, d: Decoder)
    requires Pending(saved)
    ensures StreamPieces(saved, pieces, d) == Stream(saved, Flatten(pieces), d)
    decreases |pieces|
  {
    if pieces != [] {
      StreamContinues(saved, pieces[0], Flatten(pieces[1..]), d);
      var end := Stream(saved, pieces[0], d).1;
      if end.Some? {
        StreamCutsDoNotMatter(end.value, pieces[1..], d);
      }
    }
  }

  lemma VerdictOnEncoding(v: Wide, s: seq<Byte>, d: Decoder)
    requires Scalar(v) && Fits(v, d.wcharMax) && Encode(v) <= s
    ensures VerdictOn([], s, d) == Character(v, Length(v)) && Length(v) <= |s|
  {
    assert [] + s == s;
    IncludedAccepts(s, v, d);
  }

  // A stream of encoded characters is decoded to those characters.
  lemma {:induction false} StreamInvertsEncoding(vs: seq<Wide>, d: Decoder)
    requires forall v :: v in vs ==> Scalar(v) && Fits(v, d.wcharMax)
    ensures Stream([], EncodeAll(vs), d) == (vs, Some([]))
  {
    if vs != [] {
      VerdictOnEncoding(vs[0], EncodeAll(vs), d);
      StreamInvertsEncoding(vs[1..], d);
      FirstOfMany(vs, d);
      assert [vs[0]] + vs[1..] == vs;
    }
  }

  lemma FirstOfMany(vs: seq<Wide>, d: Decoder)
    requires vs != [] && forall v :: v in vs ==> Scalar(v)
    ensures Length(vs[0]) <= |EncodeAll(vs)|
    ensures var (wcs, end) := Stream([], EncodeAll(vs[1..]), d);
            StreamAfter(Character(vs[0], Length(vs[0])), EncodeAll(vs), d) == ([vs[0]] + wcs, end)
  {
  }
}
