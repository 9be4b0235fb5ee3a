/**
  UTF-8 as RFC 3629 defines it: the encoding of section 3 and the byte grammar of section 4, which is
  Table 3-7 in section 3.9 of the Unicode Standard.
*/
module Utf8 {

  type Byte = bv8
  type Wide = bv32

  // A Unicode scalar value
  predicate Scalar(v: Wide) {
    v <= 0x10FFFF && !(0xD800 <= v <= 0xDFFF)
  }

  // The number of octets, by the ranges of the table in RFC 3629, section 3
  function Length(v: Wide): nat {
    if v <= 0x7F then 1 else if v <= 0x7FF then 2 else if v <= 0xFFFF then 3 else 4
  }

  // RFC 3629, section 3: the octets of one character
  function Encode(v: Wide): (bs: seq<Byte>)
    requires Scalar(v)
    ensures |bs| == Length(v)
  {
    if v <= 0x7F then [v as Byte]
    else if v <= 0x7FF then [0xC0 | (v >> 6) as Byte, 0x80 | (v & 0x3F) as Byte]
    else if v <= 0xFFFF then
      [0xE0 | (v >> 12) as Byte, 0x80 | ((v >> 6) & 0x3F) as Byte, 0x80 | (v & 0x3F) as Byte]
    else
      [0xF0 | (v >> 18) as Byte, 0x80 | ((v >> 12) & 0x3F) as Byte,
       0x80 | ((v >> 6) & 0x3F) as Byte, 0x80 | (v & 0x3F) as Byte]
  }

  function EncodeAll(vs: seq<Wide>): seq<Byte>
    requires forall v :: v in vs ==> Scalar(v)
  {
    if vs == [] then [] else Encode(vs[0]) + EncodeAll(vs[1..])
  }

  // ----- RFC 3629, section 4 -----

  predicate Tail(b: Byte) {
    0x80 <= b <= 0xBF
  }

  predicate Octets2(c: Byte, c2: Byte) {
    0xC2 <= c <= 0xDF && Tail(c2)
  }

  // The first two octets of UTF8-3
  predicate Start3(c: Byte, c2: Byte) {
    || (c == 0xE0 && 0xA0 <= c2 <= 0xBF)
    || (0xE1 <= c <= 0xEC && Tail(c2))
    || (c == 0xED && 0x80 <= c2 <= 0x9F)
    || (0xEE <= c <= 0xEF && Tail(c2))
  }

  // The first two octets of UTF8-4
  predicate Start4(c: Byte, c2: Byte) {
    || (c == 0xF0 && 0x90 <= c2 <= 0xBF)
    || (0xF1 <= c <= 0xF3 && Tail(c2))
    || (c == 0xF4 && 0x80 <= c2 <= 0x8F)
  }

  // UTF8-char
  predicate WellFormed(bs: seq<Byte>) {
    match |bs|
    case 1 => bs[0] <= 0x7F
    case 2 => Octets2(bs[0], bs[1])
    case 3 => Start3(bs[0], bs[1]) && Tail(bs[2])
    case 4 => Start4(bs[0], bs[1]) && Tail(bs[2]) && Tail(bs[3])
    case _ => false
  }

  lemma EncodeIsWellFormed(v: Wide)
    requires Scalar(v)
    ensures WellFormed(Encode(v))
  {
  }

  // ----- and its inverse -----

  function Combine2(c: Byte, c2: Byte): Wide {
    ((c & 0x1F) as Wide << 6) | (c2 ^ 0x80) as Wide
  }

  function Combine3(c: Byte, c2: Byte, c3: Byte): Wide {
    ((c & 0x0F) as Wide << 12) | ((c2 ^ 0x80) as Wide << 6) | (c3 ^ 0x80) as Wide
  }

  function Combine4(c: Byte, c2: Byte, c3: Byte, c4: Byte): Wide {
    ((c & 0x07) as Wide << 18) | ((c2 ^ 0x80) as Wide << 12) | ((c3 ^ 0x80) as Wide << 6) | (c4 ^ 0x80) as Wide
  }

  // The facts about bits, free of sequences

  lemma Bits3(c: Byte, c2: Byte, c3: Byte)
    requires Start3(c, c2) && Tail(c3)
    ensures var v := Combine3(c, c2, c3);
            && 0x7FF < v <= 0xFFFF && Scalar(v)
            && 0xE0 | (v >> 12) as Byte == c && 0x80 | ((v >> 6) & 0x3F) as Byte == c2
              && 0x80 | (v & 0x3F) as Byte == c3
  {
  }

  lemma Bits4(c: Byte, c2: Byte, c3: Byte, c4: Byte)
    requires Start4(c, c2) && Tail(c3) && Tail(c4)
    ensures var v := Combine4(c, c2, c3, c4);
            && 0xFFFF < v <= 0x10FFFF
            && 0xF0 | (v >> 18) as Byte == c && 0x80 | ((v >> 12) & 0x3F) as Byte == c2
            && 0x80 | ((v >> 6) & 0x3F) as Byte == c3 && 0x80 | (v & 0x3F) as Byte == c4
  {
  }

  lemma Encoded2(c: Byte, c2: Byte)
    requires Octets2(c, c2)
    ensures 0x7F < Combine2(c, c2) <= 0x7FF
    ensures Scalar(Combine2(c, c2)) && Encode(Combine2(c, c2)) == [c, c2]
  {
  }

  lemma Encoded3(c: Byte, c2: Byte, c3: Byte)
    requires Start3(c, c2) && Tail(c3)
    ensures 0x7FF < Combine3(c, c2, c3) <= 0xFFFF
    ensures Scalar(Combine3(c, c2, c3)) && Encode(Combine3(c, c2, c3)) == [c, c2, c3]
  {
    Bits3(c, c2, c3);
  }

  lemma Encoded4(c: Byte, c2: Byte, c3: Byte, c4: Byte)
    requires Start4(c, c2) && Tail(c3) && Tail(c4)
    ensures 0xFFFF < Combine4(c, c2, c3, c4)
    ensures Scalar(Combine4(c, c2, c3, c4)) && Encode(Combine4(c, c2, c3, c4)) == [c, c2, c3, c4]
  {
    Bits4(c, c2, c3, c4);
  }

  // The grammar generates exactly the encodings of the scalar values.
  lemma WellFormedIsEncoded(bs: seq<Byte>) returns (v: Wide)
    requires WellFormed(bs)
    ensures Scalar(v) && Encode(v) == bs
  {
    if |bs| == 1 {
      v := bs[0] as Wide;
    } else if |bs| == 2 {
      v := Combine2(bs[0], bs[1]);
      Encoded2(bs[0], bs[1]);
    } else if |bs| == 3 {
      v := Combine3(bs[0], bs[1], bs[2]);
      Encoded3(bs[0], bs[1], bs[2]);
    } else {
      v := Combine4(bs[0], bs[1], bs[2], bs[3]);
      Encoded4(bs[0], bs[1], bs[2], bs[3]);
    }
  }

  // Combining the octets of a character gives it back.

  lemma Scatter3(v: Wide)
    requires 0x7FF < v <= 0xFFFF && Scalar(v)
    ensures Start3(0xE0 | (v >> 12) as Byte, 0x80 | ((v >> 6) & 0x3F) as Byte) && Tail(0x80 | (v & 0x3F) as Byte)
    ensures Combine3(0xE0 | (v >> 12) as Byte, 0x80 | ((v >> 6) & 0x3F) as Byte, 0x80 | (v & 0x3F) as Byte) == v
  {
  }

  lemma Scatter4(v: Wide)
    requires 0xFFFF < v <= 0x10FFFF
    ensures Start4(0xF0 | (v >> 18) as Byte, 0x80 | ((v >> 12) & 0x3F) as Byte)
    ensures Tail(0x80 | ((v >> 6) & 0x3F) as Byte) && Tail(0x80 | (v & 0x3F) as Byte)
    ensures Combine4(0xF0 | (v >> 18) as Byte, 0x80 | ((v >> 12) & 0x3F) as Byte,
                     0x80 | ((v >> 6) & 0x3F) as Byte, 0x80 | (v & 0x3F) as Byte) == v
  {
  }

  // The octets of a character of two, three and four octets

  lemma Octets2Of(v: Wide)
    requires 0x7F < v <= 0x7FF
    ensures var bs := Encode(v); Octets2(bs[0], bs[1]) && Combine2(bs[0], bs[1]) == v
  {
  }

  lemma Octets3Of(v: Wide)
    requires 0x7FF < v <= 0xFFFF && Scalar(v)
    ensures var bs := Encode(v); Start3(bs[0], bs[1]) && Tail(bs[2]) && Combine3(bs[0], bs[1], bs[2]) == v
  {
    Scatter3(v);
  }

  lemma Octets4Of(v: Wide)
    requires 0xFFFF < v <= 0x10FFFF
    ensures var bs := Encode(v);
            Start4(bs[0], bs[1]) && Tail(bs[2]) && Tail(bs[3]) && Combine4(bs[0], bs[1], bs[2], bs[3]) == v
  {
    Scatter4(v);
  }
}
