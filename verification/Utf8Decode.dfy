/**
  The decision tree that mbrtowc and mbrtoc32 share (lib/mbrtowc-impl-utf8.h:22-138), and what it
  decides: the next character, the beginning of one, or neither.
*/
module Utf8Decode {
  import opened Utf8

  datatype Decoded =
    | Success(res: nat, wc: Wide)   // goto success, with *pwc = wc
    | Incomplete
    | Invalid

  // The tree over the m bytes c, c2, c3, c4, ..., whose first two, three and four combine to wc2, wc3 and wc4; a byte
  // that is not there is never looked at. FITS_IN_CHAR_TYPE (wc) is wc <= wcharMax.
  function Branches(m: nat, c: Byte, c2: Byte, c3: Byte, c4: Byte, wc2: Wide, wc3: Wide, wc4: Wide, wcharMax: Wide)
    : (r: Decoded)
    requires m > 0
  {
    if c < 0x80 then Success(if c == 0 then 0 else 1, c as Wide)
    else if c < 0xC2 then Invalid
    else if c < 0xE0 then
      if m == 1 then Incomplete
      else if (c2 ^ 0x80) < 0x40 then Success(2, wc2)
      else Invalid
    else if c < 0xF0 then
      if m == 1 then Incomplete
      else if (c2 ^ 0x80) < 0x40 && (c >= 0xE1 || c2 >= 0xA0) && (c != 0xED || c2 < 0xA0) then
        if m == 2 then Incomplete
        else if (c3 ^ 0x80) < 0x40 && wc3 <= wcharMax then Success(3, wc3)
        else Invalid
      else Invalid
    else if c <= 0xF4 then
      if m == 1 then Incomplete
      else if (c2 ^ 0x80) < 0x40 && (c >= 0xF1 || c2 >= 0x90) && (c < 0xF4 || c2 < 0x90) then
        if m == 2 then Incomplete
        else if (c3 ^ 0x80) < 0x40 then
          if m == 3 then Incomplete
          else if (c4 ^ 0x80) < 0x40 && wc4 <= wcharMax then Success(4, wc4)
          else Invalid
        else Invalid
      else Invalid
    else Invalid
  }

  function Tree(m: nat, c: Byte, c2: Byte, c3: Byte, c4: Byte, wcharMax: Wide): Decoded
    requires m > 0
  {
    Branches(m, c, c2, c3, c4, Combine2(c, c2), Combine3(c, c2, c3), Combine4(c, c2, c3, c4), wcharMax)
  }

  function Nth(p: seq<Byte>, j: nat): Byte {
    if j < |p| then p[j] else 0
  }

  function Decode(p: seq<Byte>, wcharMax: Wide): Decoded
    requires p != []
  {
    Tree(|p|, p[0], Nth(p, 1), Nth(p, 2), Nth(p, 3), wcharMax)
  }

  // wchar_t holds the character. The tree asks this of three- and four-byte sequences only.
  predicate Fits(v: Wide, wcharMax: Wide) {
    v <= 0x7FF || v <= wcharMax
  }

  // The beginning of a character, cut off inside it (RFC 3629, section 4)
  predicate IsStart(p: seq<Byte>) {
    match |p|
    case 1 => 0xC2 <= p[0] <= 0xF4
    case 2 => Start3(p[0], p[1]) || Start4(p[0], p[1])
    case 3 => Start4(p[0], p[1]) && Tail(p[2])
    case _ => false
  }

  // What the tree accepts is the encoding of the character it stores.

  lemma Success1(m: nat, c: Byte, c2: Byte, c3: Byte, c4: Byte,
                 wc2: Wide, wc3: Wide, wc4: Wide, wcharMax: Wide, r: Decoded)
    requires m > 0 && r == Branches(m, c, c2, c3, c4, wc2, wc3, wc4, wcharMax) && r.Success? && r.res != 2
      && r.res != 3 && r.res != 4
    ensures c < 0x80 && r == Success(if c == 0 then 0 else 1, c as Wide)
  {
  }

  lemma Success2(m: nat, c: Byte, c2: Byte, c3: Byte, c4: Byte,
                 wc2: Wide, wc3: Wide, wc4: Wide, wcharMax: Wide, r: Decoded)
    requires m > 0 && r == Branches(m, c, c2, c3, c4, wc2, wc3, wc4, wcharMax) && r.Success? && r.res == 2
    ensures m >= 2 && Octets2(c, c2) && r == Success(2, wc2)
  {
  }

  lemma Success3(m: nat, c: Byte, c2: Byte, c3: Byte, c4: Byte,
                 wc2: Wide, wc3: Wide, wc4: Wide, wcharMax: Wide, r: Decoded)
    requires m > 0 && r == Branches(m, c, c2, c3, c4, wc2, wc3, wc4, wcharMax) && r.Success? && r.res == 3
    ensures m >= 3 && Start3(c, c2) && Tail(c3) && r == Success(3, wc3) && wc3 <= wcharMax
  {
  }

  lemma Success4(m: nat, c: Byte, c2: Byte, c3: Byte, c4: Byte,
                 wc2: Wide, wc3: Wide, wc4: Wide, wcharMax: Wide, r: Decoded)
    requires m > 0 && r == Branches(m, c, c2, c3, c4, wc2, wc3, wc4, wcharMax) && r.Success? && r.res == 4
    ensures m >= 4 && Start4(c, c2) && Tail(c3) && Tail(c4) && r == Success(4, wc4) && wc4 <= wcharMax
  {
  }

  // v is the character whose encoding starts p, told by res.
  ghost predicate Starts(p: seq<Byte>, r: Decoded, wcharMax: Wide)
    requires r.Success?
  {
    && Scalar(r.wc) && Fits(r.wc, wcharMax)
    && Encode(r.wc) <= p && Length(r.wc) == (if r.wc == 0 then 1 else r.res)
    && (r.res == 0 <==> r.wc == 0)
  }

  lemma Starts2(p: seq<Byte>, c: Byte, c2: Byte, wcharMax: Wide, r: Decoded)
    requires Octets2(c, c2) && |p| >= 2 && p[0] == c && p[1] == c2
    requires r == Success(2, Combine2(c, c2))
    ensures Starts(p, r, wcharMax)
  {
    Encoded2(c, c2);
    assert p[..2] == [c, c2];
  }

  lemma Starts3(p: seq<Byte>, c: Byte, c2: Byte, c3: Byte, wcharMax: Wide, r: Decoded)
    requires Start3(c, c2) && Tail(c3) && |p| >= 3 && p[0] == c && p[1] == c2 && p[2] == c3
    requires Combine3(c, c2, c3) <= wcharMax
    requires r == Success(3, Combine3(c, c2, c3))
    ensures Starts(p, r, wcharMax)
  {
    Encoded3(c, c2, c3);
    assert p[..3] == [c, c2, c3];
  }

  lemma Starts4(p: seq<Byte>, c: Byte, c2: Byte, c3: Byte, c4: Byte, wcharMax: Wide, r: Decoded)
    requires Start4(c, c2) && Tail(c3) && Tail(c4)
    requires |p| >= 4 && p[0] == c && p[1] == c2 && p[2] == c3 && p[3] == c4
    requires Combine4(c, c2, c3, c4) <= wcharMax
    requires r == Success(4, Combine4(c, c2, c3, c4))
    ensures Starts(p, r, wcharMax)
  {
    Encoded4(c, c2, c3, c4);
    assert p[..4] == [c, c2, c3, c4];
  }

  lemma Starts1(p: seq<Byte>, c: Byte, wcharMax: Wide, r: Decoded)
    requires p != [] && p[0] == c && c < 0x80
    requires r == Success(if c == 0 then 0 else 1, c as Wide)
    ensures Starts(p, r, wcharMax)
  {
  }

  lemma SuccessStarts1(p: seq<Byte>, wcharMax: Wide, r: Decoded)
    requires p != [] && r == Decode(p, wcharMax) && r.Success? && r.res != 2 && r.res != 3 && r.res != 4
    ensures Starts(p, r, wcharMax)
  {
    var (c, c2, c3, c4) := (p[0], Nth(p, 1), Nth(p, 2), Nth(p, 3));
    Success1(|p|, c, c2, c3, c4, Combine2(c, c2), Combine3(c, c2, c3), Combine4(c, c2, c3, c4), wcharMax, r);
    Starts1(p, c, wcharMax, r);
  }

  lemma SuccessStarts2(p: seq<Byte>, wcharMax: Wide, r: Decoded)
    requires p != [] && r == Decode(p, wcharMax) && r.Success? && r.res == 2
    ensures Starts(p, r, wcharMax)
  {
    var (c, c2, c3, c4) := (p[0], Nth(p, 1), Nth(p, 2), Nth(p, 3));
    Success2(|p|, c, c2, c3, c4, Combine2(c, c2), Combine3(c, c2, c3), Combine4(c, c2, c3, c4), wcharMax, r);
    Starts2(p, c, c2, wcharMax, r);
  }

  lemma SuccessStarts3(p: seq<Byte>, wcharMax: Wide, r: Decoded)
    requires p != [] && r == Decode(p, wcharMax) && r.Success? && r.res == 3
    ensures Starts(p, r, wcharMax)
  {
    var (c, c2, c3, c4) := (p[0], Nth(p, 1), Nth(p, 2), Nth(p, 3));
    Success3(|p|, c, c2, c3, c4, Combine2(c, c2), Combine3(c, c2, c3), Combine4(c, c2, c3, c4), wcharMax, r);
    Starts3(p, c, c2, c3, wcharMax, r);
  }

  lemma SuccessStarts4(p: seq<Byte>, wcharMax: Wide, r: Decoded)
    requires p != [] && r == Decode(p, wcharMax) && r.Success? && r.res == 4
    ensures Starts(p, r, wcharMax)
  {
    var (c, c2, c3, c4) := (p[0], Nth(p, 1), Nth(p, 2), Nth(p, 3));
    Success4(|p|, c, c2, c3, c4, Combine2(c, c2), Combine3(c, c2, c3), Combine4(c, c2, c3, c4), wcharMax, r);
    Starts4(p, c, c2, c3, c4, wcharMax, r);
  }

  lemma SuccessIsEncoding(p: seq<Byte>, wcharMax: Wide)
    requires p != [] && Decode(p, wcharMax).Success?
    ensures Starts(p, Decode(p, wcharMax), wcharMax)
  {
    var r := Decode(p, wcharMax);
    match r.res
    case 2 => SuccessStarts2(p, wcharMax, r);
    case 3 => SuccessStarts3(p, wcharMax, r);
    case 4 => SuccessStarts4(p, wcharMax, r);
    case _ => SuccessStarts1(p, wcharMax, r);
  }

  // Every encoding is accepted, whatever follows it, or is refused for its width.

  // The tree's answer to an encoding of v
  ghost function Answer(v: Wide, wcharMax: Wide): Decoded {
    if Fits(v, wcharMax) then Success(if v == 0 then 0 else Length(v), v) else Invalid
  }

  lemma Accepted2(m: nat, v: Wide, c: Byte, c2: Byte, c3: Byte, c4: Byte, wc3: Wide, wc4: Wide, wcharMax: Wide)
    requires m >= 2 && Octets2(c, c2) && 0x7F < v <= 0x7FF
    ensures Branches(m, c, c2, c3, c4, v, wc3, wc4, wcharMax) == Answer(v, wcharMax)
  {
  }

  lemma Accepted3(m: nat, v: Wide, c: Byte, c2: Byte, c3: Byte, c4: Byte, wc2: Wide, wc4: Wide, wcharMax: Wide)
    requires m >= 3 && Start3(c, c2) && Tail(c3) && 0x7FF < v <= 0xFFFF
    ensures Branches(m, c, c2, c3, c4, wc2, v, wc4, wcharMax) == Answer(v, wcharMax)
  {
  }

  lemma Accepted4(m: nat, v: Wide, c: Byte, c2: Byte, c3: Byte, c4: Byte, wc2: Wide, wc3: Wide, wcharMax: Wide)
    requires m >= 4 && Start4(c, c2) && Tail(c3) && Tail(c4) && 0xFFFF < v
    ensures Branches(m, c, c2, c3, c4, wc2, wc3, v, wcharMax) == Answer(v, wcharMax)
  {
  }

  lemma EncodingIsAccepted(p: seq<Byte>, v: Wide, wcharMax: Wide)
    requires Scalar(v) && Encode(v) <= p
    ensures Decode(p, wcharMax) == Answer(v, wcharMax)
  {
    var bs := Encode(v);
    var (m, c, c2, c3, c4) := (|p|, p[0], Nth(p, 1), Nth(p, 2), Nth(p, 3));
    var (wc2, wc3, wc4) := (Combine2(c, c2), Combine3(c, c2, c3), Combine4(c, c2, c3, c4));
    assert c == bs[0];
    if v <= 0x7F {
    } else if v <= 0x7FF {
      assert c2 == bs[1];
      Octets2Of(v);
      Accepted2(m, v, c, c2, c3, c4, wc3, wc4, wcharMax);
    } else if v <= 0xFFFF {
      assert c2 == bs[1] && c3 == bs[2];
      Octets3Of(v);
      Accepted3(m, v, c, c2, c3, c4, wc2, wc4, wcharMax);
    } else {
      assert c2 == bs[1] && c3 == bs[2] && c4 == bs[3];
      Octets4Of(v);
      Accepted4(m, v, c, c2, c3, c4, wc2, wc3, wcharMax);
    }
  }

  // Incomplete: exactly the beginnings of characters

  lemma IncompleteIsStart(p: seq<Byte>, wcharMax: Wide)
    requires p != []
    ensures Decode(p, wcharMax) == Incomplete <==> IsStart(p)
  {
  }

  // Octets that complete the beginning of a character
  function Completion(p: seq<Byte>): seq<Byte>
    requires p != []
  {
    var second: Byte := if p[0] == 0xE0 then 0xA0 else if p[0] == 0xF0 then 0x90 else 0x80;
    if p[0] < 0xE0 then [0x80]
    else if p[0] < 0xF0 then (if |p| == 1 then [second, 0x80] else [0x80])
    else if |p| == 1 then [second, 0x80, 0x80]
    else if |p| == 2 then [0x80, 0x80]
    else [0x80]
  }

  lemma CompletionIsWellFormed(p: seq<Byte>)
    requires IsStart(p)
    ensures WellFormed(p + Completion(p))
  {
  }

  lemma CutIsStart(q: seq<Byte>, k: nat)
    requires WellFormed(q) && 0 < k < |q|
    ensures IsStart(q[..k])
  {
  }

  // The beginnings are the non-empty proper prefixes of the encodings.
  lemma StartIsProperPrefix(p: seq<Byte>)
    ensures IsStart(p) <==> p != [] && exists v :: Scalar(v) && p < Encode(v)
  {
    if IsStart(p) {
      CompletionIsWellFormed(p);
      var v := WellFormedIsEncoded(p + Completion(p));
      assert p < Encode(v);
    }
    forall v | Scalar(v) && p != [] && p < Encode(v) ensures IsStart(p) {
      EncodeIsWellFormed(v);
      CutIsStart(Encode(v), |p|);
      assert p == Encode(v)[..|p|];
    }
  }

  // Invalid: neither the beginning of a character nor followed by one that wchar_t can hold
  lemma InvalidIsNeither(p: seq<Byte>, wcharMax: Wide)
    requires p != []
    ensures Decode(p, wcharMax) == Invalid
            <==> !IsStart(p) && forall v :: Scalar(v) && Fits(v, wcharMax) ==> !(Encode(v) <= p)
  {
    IncompleteIsStart(p, wcharMax);
    if Decode(p, wcharMax).Success? {
      SuccessIsEncoding(p, wcharMax);
    }
    forall v | Scalar(v) && Fits(v, wcharMax) && Encode(v) <= p ensures Decode(p, wcharMax).Success? {
      EncodingIsAccepted(p, v, wcharMax);
    }
  }

  // The tree reads no further than it needs: longer input changes no verdict but Incomplete.

  lemma Unread1(m: nat, c: Byte, c2: Byte, c3: Byte, c4: Byte, d2: Byte, d3: Byte, d4: Byte,
                wc2: Wide, wc3: Wide, wc4: Wide, wd2: Wide, wd3: Wide, wd4: Wide, wcharMax: Wide)
    requires 1 <= m && Branches(1, c, c2, c3, c4, wc2, wc3, wc4, wcharMax) != Incomplete
    ensures Branches(m, c, d2, d3, d4, wd2, wd3, wd4, wcharMax) == Branches(1, c, c2, c3, c4, wc2, wc3, wc4, wcharMax)
  {
  }

  lemma Unread2(m: nat, c: Byte, c2: Byte, c3: Byte, c4: Byte, d3: Byte, d4: Byte,
                wc2: Wide, wc3: Wide, wc4: Wide, wd3: Wide, wd4: Wide, wcharMax: Wide)
    requires 2 <= m && Branches(2, c, c2, c3, c4, wc2, wc3, wc4, wcharMax) != Incomplete
    ensures Branches(m, c, c2, d3, d4, wc2, wd3, wd4, wcharMax) == Branches(2, c, c2, c3, c4, wc2, wc3, wc4, wcharMax)
  {
  }

  lemma Unread3(m: nat, c: Byte, c2: Byte, c3: Byte, c4: Byte, d4: Byte,
                wc2: Wide, wc3: Wide, wc4: Wide, wd4: Wide, wcharMax: Wide)
    requires 3 <= m && Branches(3, c, c2, c3, c4, wc2, wc3, wc4, wcharMax) != Incomplete
    ensures Branches(m, c, c2, c3, d4, wc2, wc3, wd4, wcharMax) == Branches(3, c, c2, c3, c4, wc2, wc3, wc4, wcharMax)
  {
  }

  lemma Unread4(m: nat, m': nat, c: Byte, c2: Byte, c3: Byte, c4: Byte, wc2: Wide, wc3: Wide, wc4: Wide, wcharMax: Wide)
    requires 4 <= m && 4 <= m'
    ensures Branches(m, c, c2, c3, c4, wc2, wc3, wc4, wcharMax) == Branches(m', c, c2, c3, c4, wc2, wc3, wc4, wcharMax)
  {
  }

  // Four bytes always decide.
  lemma FourDecide(m: nat, c: Byte, c2: Byte, c3: Byte, c4: Byte, wc2: Wide, wc3: Wide, wc4: Wide, wcharMax: Wide)
    requires m >= 4
    ensures Branches(m, c, c2, c3, c4, wc2, wc3, wc4, wcharMax) != Incomplete
  {
  }

  lemma VerdictIsStable(p: seq<Byte>, q: seq<Byte>, wcharMax: Wide)
    requires p != [] && p <= q && Decode(p, wcharMax) != Incomplete
    ensures Decode(q, wcharMax) == Decode(p, wcharMax)
  {
    var (c, c2, c3, c4) := (p[0], Nth(p, 1), Nth(p, 2), Nth(p, 3));
    var (d2, d3, d4) := (Nth(q, 1), Nth(q, 2), Nth(q, 3));
    assert q[0] == c && (|p| >= 2 ==> c2 == d2) && (|p| >= 3 ==> c3 == d3) && (|p| >= 4 ==> c4 == d4);
    var (wc2, wc3, wc4) := (Combine2(c, c2), Combine3(c, c2, c3), Combine4(c, c2, c3, c4));
    var (wd2, wd3, wd4) := (Combine2(c, d2), Combine3(c, d2, d3), Combine4(c, d2, d3, d4));
    match |p|
    case 1 => Unread1(|q|, c, c2, c3, c4, d2, d3, d4, wc2, wc3, wc4, wd2, wd3, wd4, wcharMax);
    case 2 => Unread2(|q|, c, c2, c3, c4, d3, d4, wc2, wc3, wc4, wd3, wd4, wcharMax);
    case 3 => Unread3(|q|, c, c2, c3, c4, d4, wc2, wc3, wc4, wd4, wcharMax);
    case _ => Unread4(|p|, |q|, c, c2, c3, c4, wc2, wc3, wc4, wcharMax);
  }

  lemma FourBytesSuffice(p: seq<Byte>, wcharMax: Wide)
    requires |p| >= 4
    ensures Decode(p[..4], wcharMax) == Decode(p, wcharMax) != Incomplete
  {
    var (c, c2, c3, c4) := (p[0], p[1], p[2], p[3]);
    FourDecide(4, c, c2, c3, c4, Combine2(c, c2), Combine3(c, c2, c3), Combine4(c, c2, c3, c4), wcharMax);
    VerdictIsStable(p[..4], p, wcharMax);
  }

  // The tree as one of the files that include it compiles it, with that file's FITS_IN_CHAR_TYPE
  datatype Included = Included(wcharMax: Wide, decode: seq<Byte> -> Decoded) {
    ghost predicate IsTree() {
      forall p {:trigger Decode(p, wcharMax)} :: p != [] ==> decode(p) == Decode(p, wcharMax)
    }
  }

  type Decoder = d: Included | d.IsTree() witness Include(0x7FFF_FFFF)

  function Include(wcharMax: Wide): (d: Included)
    ensures d.IsTree() && d.wcharMax == wcharMax
  {
    Included(wcharMax, p => if p == [] then Incomplete else Decode(p, wcharMax))
  }

  // What is known of the tree holds wherever it is included.

  lemma IncludedSucceeds(p: seq<Byte>, d: Decoder)
    requires p != [] && d.decode(p).Success?
    ensures Starts(p, d.decode(p), d.wcharMax)
  {
    SuccessIsEncoding(p, d.wcharMax);
  }

  lemma IncludedAccepts(p: seq<Byte>, v: Wide, d: Decoder)
    requires Scalar(v) && Encode(v) <= p
    ensures d.decode(p) == Answer(v, d.wcharMax)
  {
    EncodingIsAccepted(p, v, d.wcharMax);
  }

  lemma IncludedIsIncomplete(p: seq<Byte>, d: Decoder)
    requires p != []
    ensures d.decode(p) == Incomplete <==> IsStart(p)
  {
    IncompleteIsStart(p, d.wcharMax);
  }

  lemma IncludedIsStable(p: seq<Byte>, q: seq<Byte>, d: Decoder)
    requires p != [] && p <= q && d.decode(p) != Incomplete
    ensures d.decode(q) == d.decode(p)
  {
    VerdictIsStable(p, q, d.wcharMax);
  }

  lemma IncludedNeedsFour(p: seq<Byte>, d: Decoder)
    requires |p| >= 4
    ensures d.decode(p[..4]) == d.decode(p) != Incomplete
  {
    FourBytesSuffice(p, d.wcharMax);
  }
}
