/**
 The mbstate_t object and the <uchar.h> calls that update it in place, each proved against the
 function of the same name in `Uchar`.
 */
module Mbstates {
  import opened Options
  import opened Unicode
  import opened Uchar

  class Mbstate {
    var bytes: int  // __o[0]
    var have: int   // __o[1]
    var need: int   // __o[2]
    var unit: int   // __o[3]
    var mode: int   // __o[4]

    function Words(): State
      reads this
    {
      State(bytes, have, need, unit, mode)
    }

    constructor ()
      ensures Words() == INITIAL
    {
      bytes, have, need, unit, mode := 0, 0, 0, 0, 0;
    }

    method Reset()
      modifies this
      ensures Words() == INITIAL
    {
      bytes, have, need, unit, mode := 0, 0, 0, 0, 0;
    }

    // The loop of the decoder: packs tails until the announced length or the input is exhausted.
    method ReadTails(input: seq<Byte>, ghost p: seq<Byte>) returns (ok: bool, consumed: nat)
      requires p + input != [] && have == |p| < need == Utf8Need((p + input)[0])
      requires bytes == Packed(p) && TailsFrom1(p)
      modifies this`bytes, this`have
      ensures consumed <= |input| && have == |p| + consumed <= need
      ensures have <= |p + input| && bytes == Packed((p + input)[..have])
      ensures ok && have < need ==> consumed == |input| && Scan(p + input) == Partial
      ensures ok && have == need ==>
        Scan(p + input) == (if Utf8Value(bytes, need) < 0 then Bad else Complete(Utf8Value(bytes, need), need))
      ensures !ok ==> Scan(p + input) == Bad
    {
      ghost var t := p + input;
      consumed := 0;
      assert t[..have] == p;
      while have < need && consumed < |input|
        invariant consumed <= |input| && have == |p| + consumed <= need
        invariant bytes == Packed(t[..have]) && TailsFrom1(t[..have])
      {
        var byte := input[consumed];
        assert t[have] == byte;
        if have > 0 && byte / 0x40 != 2 {
          ScanStopsAt(t, have);
          return false, consumed;
        }
        PackAppend(t[..have], byte);
        assert t[..have] + [byte] == t[..have + 1];
        bytes := bytes + Shifted(byte, have);
        have := have + 1;
        consumed := consumed + 1;
      }
      ok := true;
      ScanAfter(t, have);
    }

    // The result is what the C function returns, `out` what it stores in its output parameter.
    method DecodeInPlace(s: Input) returns (result: int, out: Option<int>)
      requires Valid(Words())
      modifies this
      ensures var (next, o) := Decode(old(Words()), s); Words() == next && result == o.Code() && out == o.Written()
    {
      hide Decode;
      hide Scan;
      hide Valid;
      hide Utf8Value;
      hide Utf8Need;
      hide Packed;
      hide Pending;
      hide TailsFrom1;
      DecodeByMode(Words(), s);
      if s.Null? {
        Reset();
        return 0, None;
      }
      if mode != NO_UNIT {
        Reset();
        return -1, None;
      }
      var input := s.bytes;
      ghost var p := Pending(Words());
      PendingIsPacked(Words(), input);
      DecodeByScan(Words(), input);
      if have == 0 {
        if |input| == 0 {
          return -2, None;
        }
        var first := Utf8Need(input[0]);
        if first == 0 {
          return -1, None;
        }
        need := first;
      }
      var ok, consumed := ReadTails(input, p);
      if !ok {
        Reset();
        return -1, None;
      }
      if have < need {
        assert (p + input)[..have] == p + input;
        return -2, None;
      }
      var value := Utf8Value(bytes, need);
      Reset();
      if value < 0 {
        return -1, None;
      }
      result, out := if value == 0 then 0 else consumed, Some(value);
    }

    method Mbrtoc16InPlace(s: Input) returns (result: int, out: Option<int>)
      requires Valid(Words())
      modifies this
      ensures var (next, o) := Mbrtoc16(old(Words()), s); Words() == next && result == o.Code() && out == o.Written()
    {
      hide Decode;
      hide Utf8;
      hide Valid;
      hide Mbrtoc16;
      Mbrtoc16ByMode(Words(), s);
      if s.Null? {
        Reset();
        return 0, None;
      }
      if mode == LOW_PENDING {
        out := Some(unit);
        Reset();
        return -3, out;
      }
      Mbrtoc16ByOutcome(Words(), s);
      result, out := DecodeInPlace(s);
      if result == -1 || result == -2 {
        return;
      }
      if out.value > 0xFFFF {
        var scalar := out.value - 0x1_0000;
        out := Some(0xD800 + scalar / 0x400);
        unit := 0xDC00 + scalar % 0x400;
        mode := LOW_PENDING;
      }
    }

    // `s` is None for the null pointer; otherwise it holds at least MB_CUR_MAX bytes.
    method C16rtombInPlace(s: Option<array<Byte>>, u: Unit16) returns (r: int)
      requires Valid(Words())
      requires s.Some? ==> s.value.Length >= 4
      modifies this, if s.Some? then {s.value} else {}
      ensures s.None? ==> Words() == INITIAL && r == 1
      ensures s.Some? ==>
        && Words() == C16rtomb(old(Words()), u).0
        && match C16rtomb(old(Words()), u).1
           case None => r == -1 && s.value[..] == old(s.value[..])
           case Some(out) => r == |out| && s.value[..] == out + old(s.value[..])[r..]
    {
      if s.None? {
        Reset();
        return 1;
      }
      if mode == HIGH_SEEN {
        if u < 0xDC00 || u > 0xDFFF {
          Reset();
          return -1;
        }
        var scalar := 0x1_0000 + (unit - 0xD800) * 0x400 + (u - 0xDC00);
        Reset();
        r := Encode(s.value, scalar);
      } else if 0xD800 <= u <= 0xDBFF {
        unit := u;
        mode := HIGH_SEEN;
        r := 0;
      } else if 0xDC00 <= u <= 0xDFFF {
        r := -1;
      } else {
        r := Encode(s.value, u);
      }
    }

    method C32rtombInPlace(s: Option<array<Byte>>, value: nat) returns (r: int)
      requires Valid(Words())
      requires s.Some? ==> s.value.Length >= 4
      modifies this, if s.Some? then {s.value} else {}
      ensures s.None? ==> Words() == INITIAL && r == 1
      ensures s.Some? && old(have != 0 || mode != NO_UNIT) ==>
        Words() == INITIAL && r == -1 && s.value[..] == old(s.value[..])
      ensures s.Some? && old(have == 0 && mode == NO_UNIT) ==>
        && Words() == old(Words())
        && if IsScalar(value)
           then r == |Utf8(value)| && s.value[..] == Utf8(value) + old(s.value[..])[r..]
           else r == -1 && s.value[..] == old(s.value[..])
    {
      if s.None? {
        Reset();
        return 1;
      }
      if have != 0 || need != 0 || mode != 0 {
        Reset();
        return -1;
      }
      r := Encode(s.value, value);
    }
  }

  lemma DecodeByMode(st: State, s: Input)
    requires Valid(st)
    ensures 0 <= st.have <= 3
    ensures s.Null? ==> Decode(st, s) == (INITIAL, Cleared)
    ensures s.Bytes? && st.mode != NO_UNIT ==> Decode(st, s) == (INITIAL, Illegal)
  {
    hide Scan;
  }

  lemma DecodeByScan(st: State, bytes: seq<Byte>)
    requires Valid(st) && st.mode == NO_UNIT
    ensures st.have + |bytes| == |Pending(st) + bytes|
    ensures Decode(st, Bytes(bytes)) ==
      var t := Pending(st) + bytes;
      match Scan(t)
      case Partial => (Holding(t), Incomplete)
      case Bad => (INITIAL, Illegal)
      case Complete(value, length) => (INITIAL, Stored(value, length - st.have))
    ensures Pending(st) + bytes == [] ==> Scan(Pending(st) + bytes) == Partial
  {
    hide Valid;
  }

  lemma Mbrtoc16ByMode(st: State, s: Input)
    requires Valid(st)
    ensures s.Null? ==> Mbrtoc16(st, s) == (INITIAL, Cleared)
    ensures s.Bytes? && st.mode == LOW_PENDING ==> Mbrtoc16(st, s) == (INITIAL, Second(st.unit))
  {
    hide Scan;
    hide Valid;
  }

  // What follows the decoding: nothing but for a scalar that takes two units.
  lemma Mbrtoc16ByOutcome(st: State, s: Input)
    requires Valid(st) && s.Bytes? && st.mode != LOW_PENDING
    ensures var (next, o) := Decode(st, s);
      && (o.Stored? <==> o.Code() != -1 && o.Code() != -2)
      && Mbrtoc16(st, s) ==
         if o.Stored? && o.value > 0xFFFF then
           var scalar := o.value - 0x1_0000;
           (next.(unit := 0xDC00 + scalar % 0x400, mode := LOW_PENDING), Stored(0xD800 + scalar / 0x400, o.consumed))
         else (next, o)
  {
    hide Scan;
    hide Valid;
    hide Utf8;
  }

  // What a valid state says about the bytes it holds and about the text they begin.
  lemma PendingIsPacked(st: State, input: seq<Byte>)
    requires Valid(st) && st.mode == NO_UNIT
    ensures var p := Pending(st); st.bytes == Packed(p) && TailsFrom1(p) && st == Holding(p)
    ensures st.have > 0 ==> (Pending(st) + input)[0] == Pending(st)[0] && st.have < st.need == Utf8Need(Pending(st)[0])
    ensures st.have == 0 ==> st == INITIAL && Pending(st) + input == input
    ensures st.have == 0 && input != [] && Utf8Need(input[0]) == 0 ==> Scan(input) == Bad
  {
    var p := Pending(st);
    if p != [] {
      assert p[..|p|] == p;
    }
  }

  // A byte that is no tail inside the announced length ends the character.
  lemma ScanStopsAt(t: seq<Byte>, k: nat)
    requires 0 < k < |t| && k < Utf8Need(t[0]) && !IsTail(t[k])
    ensures Scan(t) == Bad
  {
    var need := Utf8Need(t[0]);
    assert t[..if need < |t| then need else |t|][k] == t[k];
  }

  // What is left to decide once all announced tails, or all bytes, have been read.
  lemma ScanAfter(t: seq<Byte>, k: nat)
    requires 0 < k <= |t| && TailsFrom1(t[..k])
    requires k <= Utf8Need(t[0])
    requires k == Utf8Need(t[0]) || k == |t|
    ensures Scan(t) ==
      if k < Utf8Need(t[0]) then Partial
      else if Utf8Value(Packed(t[..k]), k) < 0 then Bad
      else Complete(Utf8Value(Packed(t[..k]), k), k)
  {
    if k == Utf8Need(t[0]) {
      ValueCheckIsRangeCheck(t[..k]);
    }
  }

  // The lowest bits of a shifted value behind the marker bits of an octet.
  function Octet(marker: nat, shifted: nat, width: nat): (b: Byte)
    requires 0 < width && marker + width <= 0x100
  {
    marker + shifted % width
  }

  // The octets as the encoder computes them, each from its own shift and mask.
  function ShiftedOctets(v: nat): seq<Byte> {
    if v <= 0x7F then [v]
    else if v <= 0x7FF then [Octet(0xC0, v / 0x40, 0x20), Octet(0x80, v, 0x40)]
    else if v <= 0xFFFF then [Octet(0xE0, v / 0x1000, 0x10), Octet(0x80, v / 0x40, 0x40), Octet(0x80, v, 0x40)]
    else
      [Octet(0xF0, v / 0x4_0000, 0x08), Octet(0x80, v / 0x1000, 0x40), Octet(0x80, v / 0x40, 0x40), Octet(0x80, v, 0x40)]
  }

  lemma ShiftsSplit(v: nat)
    requires v <= 0x10_FFFF
    ensures v / 0x1000 == v / 0x40 / 0x40 && v / 0x4_0000 == v / 0x40 / 0x40 / 0x40
    ensures v <= 0x7FF ==> v / 0x40 % 0x20 == v / 0x40
    ensures v <= 0xFFFF ==> v / 0x1000 % 0x10 == v / 0x1000
    ensures v / 0x4_0000 % 0x08 == v / 0x4_0000
  {}

  lemma ShiftedOctetsAreUtf8(v: Scalar)
    ensures ShiftedOctets(v) == Utf8(v)
  {
    ShiftsSplit(v);
  }

  method Encode(s: array<Byte>, value: nat) returns (r: int)
    requires s.Length >= 4
    modifies s
    ensures IsScalar(value) ==> r == |Utf8(value)| && s[..] == Utf8(value) + old(s[..])[r..]
    ensures !IsScalar(value) ==> r == -1 && s[..] == old(s[..])
  {
    hide Utf8;
    hide Octet;
    if 0xD800 <= value <= 0xDFFF || value > 0x10_FFFF {
      return -1;
    }
    ShiftedOctetsAreUtf8(value);
    if value <= 0x7F {
      s[0] := value;
      return 1;
    }
    if value <= 0x7FF {
      s[0] := Octet(0xC0, value / 0x40, 0x20);
      s[1] := Octet(0x80, value, 0x40);
      return 2;
    }
    if value <= 0xFFFF {
      s[0] := Octet(0xE0, value / 0x1000, 0x10);
      s[1] := Octet(0x80, value / 0x40, 0x40);
      s[2] := Octet(0x80, value, 0x40);
      return 3;
    }
    s[0] := Octet(0xF0, value / 0x4_0000, 0x08);
    s[1] := Octet(0x80, value / 0x1000, 0x40);
    s[2] := Octet(0x80, value / 0x40, 0x40);
    s[3] := Octet(0x80, value, 0x40);
    return 4;
  }
}
