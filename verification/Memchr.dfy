/**
  The search of lib/memchr.c: bytes up to a word boundary, then words, then bytes.
*/
module Memchr {
  import opened Wrappers
  import opened Bytes
  import opened Words

  // The first place at or after s, before s + n, where memory holds c (lib/memchr.c:57-58)
  ghost predicate FirstOccurrence(memory: seq<Byte>, s: nat, n: nat, c: Byte, r: Option<nat>) {
    match r
    case None =>
      s + n <= |memory| && c !in memory[s..s + n]
    case Some(at) =>
      s <= at < |memory| && at < s + n && memory[at] == c && c !in memory[s..at]
  }

  // The search may read these bytes: all n of them are there, or c is, and the memory ends where a word ends.
  predicate Readable(memory: seq<Byte>, base: nat, s: nat, n: nat, c: Byte, w: nat)
    requires w > 0
  {
    && s <= |memory|
    && (s + n <= |memory| || (c in memory[s..] && (base + |memory|) % w == 0))
  }

  // *longword_ptr, its bytes from the least significant up
  function Load(memory: seq<Byte>, at: nat, w: nat, bigEndian: bool): (r: Word)
    requires at + w <= |memory|
    ensures |r| == w
  {
    seq(w, i requires 0 <= i < w => if bigEndian then memory[at + w - 1 - i] else memory[at + i])
  }

  lemma LoadKeepsBytes(memory: seq<Byte>, at: nat, w: nat, bigEndian: bool, c: Byte)
    requires at + w <= |memory|
    ensures c in Load(memory, at, w, bigEndian) <==> c in memory[at..at + w]
  {
    var word := Load(memory, at, w, bigEndian);
    if c in memory[at..at + w] {
      var i :| 0 <= i < w && memory[at..at + w][i] == c;
      assert word[if bigEndian then w - 1 - i else i] == c;
    }
  }

  // An aligned word that starts inside memory whose end is aligned lies inside it.
  lemma AlignedWordFits(at: nat, end: nat, w: nat)
    requires w > 0 && at % w == 0 && end % w == 0 && at < end
    ensures at + w <= end
  {
    var quotient := end / w - at / w;
    assert end - at == w * quotient by {
      assert end == w * (end / w) && at == w * (at / w);
    }
    assert quotient >= 1;
  }

  lemma AlignmentRecurs(at: nat, w: nat)
    requires w > 0 && at % w == 0
    ensures (at + w) % w == 0
  {
    var quotient := at / w + 1;
    assert at + w == w * quotient;
    MultipleLeavesNothing(quotient, w);
  }

  lemma MultipleLeavesNothing(quotient: nat, w: nat)
    requires w > 0
    ensures (w * quotient) % w == 0
  {
    var surplus := quotient - (w * quotient) / w;
    assert w * surplus == (w * quotient) % w;
    if surplus > 0 {
      ProductIsLarge(w, surplus);
    }
  }

  lemma ProductIsLarge(w: nat, surplus: nat)
    requires surplus > 0
    ensures w * surplus >= w
  {
  }

  // The test of one word (lib/memchr.c:139-142)
  lemma WordTestFindsByte(word: Word, c: Byte)
    ensures IsZero(ZeroTest(Bitwise(Xor, word, Repeated(c, |word|)), false)) <==> c !in word
  {
    ZeroTestFindsZero(Bitwise(Xor, word, Repeated(c, |word|)));
    XorFindsByte(word, c);
  }

  // c in every byte of a word of w bytes (lib/memchr.c:90-104)
  method Repeat(c: Byte, w: nat) returns (repeated: Word)
    requires w >= 4
    ensures repeated == Repeated(c, w)
  {
    repeated := Filled(c, 1, w);
    DoublingFills(c, 1, w);
    repeated := Bitwise(Or, repeated, ShlBytes(repeated, 1));
    DoublingFills(c, 2, w);
    repeated := Bitwise(Or, repeated, ShlBytes(repeated, 2));
    if 4 < w {
      DoublingFills(c, 4, w);
      repeated := Bitwise(Or, repeated, ShlBytes(repeated, 4));
      if 8 < w {
        var i := 64;
        while i < w * 8
          invariant i >= 64 && i % 8 == 0
          invariant repeated == Filled(c, i / 8, w)
          decreases w * 8 - i
        {
          DoublingFills(c, i / 8, w);
          repeated := Bitwise(Or, repeated, ShlBytes(repeated, i / 8));
          i := i * 2;
        }
        FilledIsRepeated(c, i / 8, w);
      }
    }
  }

  // One turn of the word loop: whether some byte of the word is c (lib/memchr.c:139-143)
  method TestWord(memory: seq<Byte>, at: nat, w: nat, bigEndian: bool, repeatedOne: Word, repeatedC: Word,
        ghost c: Byte)
    returns (found: bool)
    requires at + w <= |memory| && repeatedOne == Repeated(1, w) && repeatedC == Repeated(c, w)
    ensures found <==> c in memory[at..at + w]
  {
    var word := Bitwise(Xor, Load(memory, at, w, bigEndian), repeatedC);
    OnesShiftToHighBits(w);
    found := !IsZero(Bitwise(And, Bitwise(AndNot, Sub(word, repeatedOne, false), word), ShlSeven(repeatedOne)));
    LoadKeepsBytes(memory, at, w, bigEndian, c);
    WordTestFindsByte(Load(memory, at, w, bigEndian), c);
  }

  // The word loop: on exit fewer than w bytes are left, or c is among the next w (lib/memchr.c:137-147)
  method SkipWords(memory: seq<Byte>, base: nat, s: nat, n: nat, c: Byte, w: nat, bigEndian: bool)
    returns (at: nat, left: nat)
    requires w >= 4 && Readable(memory, base, s, n, c, w)
    requires n > 0 ==> (base + s) % w == 0
    ensures s <= at <= |memory| && at + left == s + n && c !in memory[s..at]
    ensures left < w || (at + w <= |memory| && c in memory[at..at + w])
  {
    var repeatedOne := Repeat(1, w);
    var repeatedC := Repeat(c, w);
    at, left := s, n;
    while left >= w
      invariant s <= at <= |memory| && at + left == s + n
      invariant left > 0 ==> (base + at) % w == 0
      invariant c !in memory[s..at]
    {
      NextWordFits(memory, base, s, n, c, w, at);
      var found := TestWord(memory, at, w, bigEndian, repeatedOne, repeatedC, c);
      if found {
        break;
      }
      assert memory[s..at + w] == memory[s..at] + memory[at..at + w];
      AlignmentRecurs(base + at, w);
      at, left := at + w, left - w;
    }
  }

  // As long as c has not been passed, the byte at hand is there; so is the word, if it is aligned and wanted.
  lemma NextWordFits(memory: seq<Byte>, base: nat, s: nat, n: nat, c: Byte, w: nat, at: nat)
    requires w > 0 && Readable(memory, base, s, n, c, w)
    requires s <= at <= |memory| && at < s + n && c !in memory[s..at]
    ensures at < |memory|
    ensures at + w <= s + n && (base + at) % w == 0 ==> at + w <= |memory|
  {
    if s + n > |memory| {
      assert at < |memory| by {
        assert memory[s..] == memory[s..at] + memory[at..];
      }
      if (base + at) % w == 0 {
        AlignedWordFits(base + at, base + |memory|, w);
      }
    }
  }

  // memchr. base is the address of the memory, w the size of a word.
  method Memchr(memory: seq<Byte>, base: nat, s: nat, c_in: int, n: nat, w: nat, bigEndian: bool)
    returns (r: Option<nat>)
    requires w >= 4 && Readable(memory, base, s, n, c_in % 256, w)
    ensures FirstOccurrence(memory, s, n, c_in % 256, r)
  {
    var c := c_in % 256;
    var at, left := s, n;
    while left > 0 && (base + at) % w != 0
      invariant s <= at <= |memory| && at + left == s + n
      invariant c !in memory[s..at]
      decreases left
    {
      NextWordFits(memory, base, s, n, c, w, at);
      if memory[at] == c {
        return Some(at);
      }
      at, left := at + 1, left - 1;
    }
    ghost var before := at;
    assert memory[s..] == memory[s..at] + memory[at..];
    at, left := SkipWords(memory, base, at, left, c, w, bigEndian);
    assert memory[s..at] == memory[s..before] + memory[before..at];
    while left > 0
      invariant s <= at <= |memory| && at + left == s + n
      invariant c !in memory[s..at]
      decreases left
    {
      NextWordFits(memory, base, s, n, c, w, at);
      if memory[at] == c {
        return Some(at);
      }
      at, left := at + 1, left - 1;
    }
    return None;
  }
}
