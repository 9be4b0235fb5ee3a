/**
  mbstate_t as the two variants of the decoder keep it: glibc's packed count and bits
  (lib/mbrtowc.c:110-292, lib/mbrtoc32.c:124-258) and a byte buffer (lib/mbrtowc-impl.h:22-263,
  lib/mbrtoc32.c:304-388). Both answer every call as Restart.Feed does, so they are one decoder.
*/
module MbState {
  import opened Wrappers
  import opened Utf8
  import opened Utf8Decode
  import opened Restart

  // What is returned: (size_t) -1 comes with EILSEQ or, for a corrupt state, with EINVAL.
  datatype Return =
    | Value(reply: Reply)
    | BadState

  // The n > 0 bytes at s; a null pointer stands for the empty string (lib/mbrtowc.c:115-120).
  function Input(s: Option<seq<Byte>>): seq<Byte> {
    if s.None? then [0] else s.value
  }

  // ----- glibc's representation -----

  // Lines 247-271: the count and the bits saved for an incomplete character
  function PackedCount(p: seq<Byte>): bv32
    requires 0 < |p| < 4
  {
    (if p[0] < 0xE0 then 2 << 8 else if p[0] < 0xF0 then 3 << 8 else 4 << 8) | (|p| as bv32)
  }

  function PackedBits(p: seq<Byte>): bv32
    requires 0 < |p| < 4
  {
    var c := p[0];
    if c < 0xE0 then (c & 0x1F) as bv32 << 6
    else if c < 0xF0 then ((c & 0x0F) as bv32 << 12) | (if |p| > 1 then (p[1] & 0x3F) as bv32 << 6 else 0)
    else
      ((c & 0x07) as bv32 << 18)
      | (if |p| > 1 then (p[1] & 0x3F) as bv32 << 12 else 0)
      | (if |p| > 2 then (p[2] & 0x3F) as bv32 << 6 else 0)
  }

  // Lines 181-195: byte k of the character of which t bytes are expected
  function UnpackedByte(wch: bv32, t: bv32, k: bv32): Byte
    requires 2 <= t <= 4 && k < t
  {
    if k == 0 then (((0x100 - (0x100 >> t)) | (wch >> ((t - 1) * 6))) & 0xFF) as Byte
    else (0x80 | ((wch >> ((t - 1 - k) * 6)) & 0x3F)) as Byte
  }

  function Unpacked(count: bv32, wch: bv32): seq<Byte>
    requires 0 < count & 7 < count >> 8 <= 4
  {
    var (nstate, t) := (count & 7, count >> 8);
    [UnpackedByte(wch, t, 0)]
    + (if nstate >= 2 then [UnpackedByte(wch, t, 1)] else [])
    + (if nstate >= 3 then [UnpackedByte(wch, t, 2)] else [])
  }

  ghost predicate Repacks(p: seq<Byte>) {
    && 0 < |p| < 4
    && var (count, wch) := (PackedCount(p), PackedBits(p));
       0 < count & 7 < count >> 8 <= 4 && count & 7 == |p| as bv32 && Unpacked(count, wch) == p
  }

  lemma Repack2(p: seq<Byte>)
    requires |p| == 1 && 0xC2 <= p[0] < 0xE0
    ensures Repacks(p)
  {
  }

  lemma Repack3(p: seq<Byte>)
    requires 1 <= |p| <= 2 && 0xE0 <= p[0] < 0xF0 && (|p| == 2 ==> Tail(p[1]))
    ensures Repacks(p)
  {
  }

  lemma Repack41(c: Byte)
    requires 0xF0 <= c <= 0xF4
    ensures Repacks([c])
  {
  }

  lemma Repack42(c: Byte, c2: Byte)
    requires 0xF0 <= c <= 0xF4 && Tail(c2)
    ensures Repacks([c, c2])
  {
  }

  lemma Repack43(c: Byte, c2: Byte, c3: Byte)
    requires 0xF0 <= c <= 0xF4 && Tail(c2) && Tail(c3)
    ensures Repacks([c, c2, c3])
  {
  }

  // What is packed is unpacked on the next call.
  lemma UnpackInvertsPack(p: seq<Byte>)
    requires IsStart(p)
    ensures Repacks(p)
  {
    if p[0] < 0xE0 {
      Repack2(p);
    } else if p[0] < 0xF0 {
      Repack3(p);
    } else if |p| == 1 {
      assert p == [p[0]];
      Repack41(p[0]);
    } else if |p| == 2 {
      assert p == [p[0], p[1]];
      Repack42(p[0], p[1]);
    } else {
      assert p == [p[0], p[1], p[2]];
      Repack43(p[0], p[1], p[2]);
    }
  }

  // The bytes a call decodes: the saved ones, and of the new ones no more than fit in buf[4] (lines 173-223)
  function Buffered(saved: seq<Byte>, s: seq<Byte>): seq<Byte> {
    if saved == [] || |saved| + |s| <= 4 then saved + s else (saved + s)[..4]
  }

  lemma BufferSuffices(saved: seq<Byte>, s: seq<Byte>, d: Decoder)
    requires Pending(saved) && s != []
    ensures |saved| < 4 && Buffered(saved, s) != []
    ensures d.decode(Buffered(saved, s)) == d.decode(saved + s)
    ensures d.decode(saved + s) == Incomplete ==> |saved + s| < 4 && Buffered(saved, s) == saved + s
  {
    if saved != [] {
      IncludedIsIncomplete(saved, d);
    }
    IncludedIsIncomplete(saved + s, d);
    if |saved + s| > 4 {
      IncludedNeedsFour(saved + s, d);
    }
  }

  // Lines 214-222: up to three more bytes, while there is room
  method Fill(saved: seq<Byte>, s: seq<Byte>) returns (buf: seq<Byte>)
    requires 1 <= |saved| <= 3 && s != []
    ensures buf == Buffered(saved, s)
  {
    buf := saved + [s[0]];
    if |s| >= 2 && |buf| < 4 {
      buf := buf + [s[1]];
      if |s| >= 3 && |buf| < 4 {
        buf := buf + [s[2]];
      }
    }
  }

  class PackedState {
    var count: bv32   // __count
    var wch: bv32     // __value.__wch
    const d: Decoder

    ghost function Saved(): seq<Byte>
      reads this
    {
      if 0 < count & 7 < count >> 8 <= 4 then Unpacked(count, wch) else []
    }

    // Every reachable state: initial, or one whose bytes are the beginning of a character
    ghost predicate Valid()
      reads this
    {
      count == 0 || (0 < count & 7 < count >> 8 <= 4 && IsStart(Saved()))
    }

    constructor (d: Decoder)
      ensures Valid() && Saved() == [] && this.d == d
    {
      count, wch := 0, 0;
      this.d := d;
    }

    // The counting loop's own state
    constructor Copy(other: PackedState)
      requires other.Valid()
      ensures Valid() && Saved() == other.Saved() && d == other.d
    {
      count, wch := other.count, other.wch;
      d := other.d;
    }

    // mbsinit
    predicate IsInitial()
      requires Valid()
      reads this
      ensures IsInitial() <==> Saved() == []
    {
      count == 0
    }

    // Lines 162-223: the bytes to decode; None stands for EINVAL.
    method Load(s: seq<Byte>) returns (p: Option<seq<Byte>>)
      requires Valid() && s != []
      ensures p == Some(Buffered(Saved(), s))
    {
      var nstate := count & 7;
      if nstate == 0 {
        assert Saved() == [];
        assert [] + s == s;
        return Some(s);
      }
      var t := count >> 8;
      if !(t > nstate && t <= 4) {
        return None;
      }
      var buf := [UnpackedByte(wch, t, 0)];
      if nstate >= 2 {
        buf := buf + [UnpackedByte(wch, t, 1)];
        if nstate >= 3 {
          buf := buf + [UnpackedByte(wch, t, 2)];
        }
      }
      assert buf == Saved();
      buf := Fill(buf, s);
      return Some(buf);
    }

    // Lines 247-271
    method Store(p: seq<Byte>)
      requires IsStart(p)
      modifies this
      ensures Valid() && Saved() == p && !IsInitial()
    {
      UnpackInvertsPack(p);
      count, wch := PackedCount(p), PackedBits(p);
    }

    // rpl_mbrtowc in a UTF-8 locale; wc is what is stored through pwc.
    method Mbrtowc(s: Option<seq<Byte>>) returns (ret: Return, wc: Option<Wide>)
      requires Valid()
      modifies this
      ensures Valid()
      ensures s.Some? ==>
                var r := Feed(old(Saved()), s.value, d);
                ret == Value(r.reply) && Saved() == r.saved && wc == r.wc
      ensures s.None? ==>
                && ret == Value(if old(Saved()) == [] then Consumed(0) else IllegalSequence)
                && Saved() == old(Saved()) && wc == None
    {
      var input := Input(s);
      NullPointer(Saved(), d);
      if input == [] {
        return Value(NeedMore), None;
      }
      var nstate := (count & 7) as nat;
      var p := Load(input);
      if p.None? {
        return BadState, None;
      }
      BufferSuffices(Saved(), input, d);
      var decoded := d.decode(p.value);
      match decoded {
        case Success(res, v) =>
          SuccessOutgrowsSaved(Saved(), input, d);
          assert nstate < if res > 0 then res else 1;  // abort () is not reached
          count := 0;
          return Value(Consumed(res - nstate)), if s.None? then None else Some(v);
        case Incomplete =>
          IncludedIsIncomplete(p.value, d);
          Store(p.value);
          return Value(NeedMore), None;
        case Invalid =>
          return Value(IllegalSequence), None;
      }
    }
  }

  // ----- the byte buffer -----

  class ByteState {
    const pstate: array<Byte>   // the count, and up to three bytes
    const d: Decoder

    ghost function Saved(): seq<Byte>
      reads this, pstate
    {
      if pstate.Length == 4 && pstate[0] <= 3 then pstate[1..1 + pstate[0] as nat] else []
    }

    ghost predicate Valid()
      reads this, pstate
    {
      pstate.Length == 4 && pstate[0] <= 3 && Pending(Saved())
    }

    constructor (d: Decoder)
      ensures Valid() && Saved() == [] && this.d == d && fresh(pstate)
    {
      var bytes := new Byte[4](_ => 0);
      pstate := bytes;
      this.d := d;
    }

    // mbsinit
    predicate IsInitial()
      requires Valid()
      reads this, pstate
      ensures IsInitial() <==> Saved() == []
    {
      pstate[0] == 0
    }

    // lib/mbrtowc-impl.h:40-72; None stands for EINVAL.
    method Load(s: seq<Byte>) returns (p: Option<seq<Byte>>)
      requires Valid() && s != []
      ensures p == Some(Buffered(Saved(), s))
    {
      var nstate := pstate[0];
      if nstate == 0 {
        assert Saved() + s == s;
        return Some(s);
      }
      if nstate > 3 {
        return None;
      }
      var buf := [pstate[1]];
      if nstate >= 2 {
        buf := buf + [pstate[2]];
      }
      if nstate >= 3 {
        buf := buf + [pstate[3]];
      }
      assert buf == Saved();
      buf := Fill(buf, s);
      return Some(buf);
    }

    // lib/mbrtowc-impl.h:242-256: appends the new bytes to the saved ones; m is how many there are now.
    method Store(s: seq<Byte>, m: nat)
      requires Valid() && s != [] && m == |Saved()| + |s| < 4 && IsStart(Saved() + s)
      modifies pstate
      ensures Valid() && Saved() == old(Saved() + s)
    {
      var k := pstate[0] as nat;
      ghost var nstate := k;
      k := k + 1;
      pstate[k] := s[0];
      if k < m {
        k := k + 1;
        pstate[k] := s[1];
        if k < m {
          k := k + 1;
          pstate[k] := s[2];
        }
      }
      assert k == m;  // abort () is not reached
      pstate[0] := m as Byte;
      assert pstate[1..1 + m] == old(pstate[1..1 + nstate]) + s;
    }

    method Mbrtowc(s: Option<seq<Byte>>) returns (ret: Return, wc: Option<Wide>)
      requires Valid()
      modifies pstate
      ensures Valid()
      ensures s.Some? ==>
                var r := Feed(old(Saved()), s.value, d);
                ret == Value(r.reply) && Saved() == r.saved && wc == r.wc
      ensures s.None? ==>
                && ret == Value(if old(Saved()) == [] then Consumed(0) else IllegalSequence)
                && Saved() == old(Saved()) && wc == None
    {
      var input := Input(s);
      NullPointer(Saved(), d);
      if input == [] {
        return Value(NeedMore), None;
      }
      var nstate := pstate[0] as nat;
      var p := Load(input);
      if p.None? {
        return BadState, None;
      }
      BufferSuffices(Saved(), input, d);
      var decoded := d.decode(p.value);
      match decoded {
        case Success(res, v) =>
          SuccessOutgrowsSaved(Saved(), input, d);
          assert nstate < if res > 0 then res else 1;  // abort () is not reached
          pstate[0] := 0;
          return Value(Consumed(res - nstate)), if s.None? then None else Some(v);
        case Incomplete =>
          IncludedIsIncomplete(p.value, d);
          Store(input, |p.value|);
          return Value(NeedMore), None;
        case Invalid =>
          return Value(IllegalSequence), None;
      }
    }
  }

  // Over any run of calls the two representations return the same values.
  method RunBoth(packed: PackedState, bytes: ByteState, calls: seq<Option<seq<Byte>>>)
    returns (fromPacked: seq<(Return, Option<Wide>)>, fromBytes: seq<(Return, Option<Wide>)>)
    requires packed.Valid() && bytes.Valid() && packed.d == bytes.d
    requires packed.Saved() == bytes.Saved()
    modifies packed, bytes.pstate
    ensures fromPacked == fromBytes && |fromPacked| == |calls|
    ensures forall r :: r in fromPacked ==> r.0 != BadState
    ensures packed.Valid() && bytes.Valid() && packed.Saved() == bytes.Saved()
  {
    fromPacked, fromBytes := [], [];
    for i := 0 to |calls|
      invariant fromPacked == fromBytes && |fromPacked| == i
      invariant forall r :: r in fromPacked ==> r.0 != BadState
      invariant packed.Valid() && bytes.Valid() && packed.Saved() == bytes.Saved()
    {
      var ret, wc := packed.Mbrtowc(calls[i]);
      fromPacked := fromPacked + [(ret, wc)];
      ret, wc := bytes.Mbrtowc(calls[i]);
      fromBytes := fromBytes + [(ret, wc)];
    }
  }
}
