/**
 The text side of the diagnostic printer: its own one-shot UTF-8 decoder and the escaper that
 makes arbitrary bytes safe to print.
 */
module DiagText {
  import opened Unicode
  import opened Uchar

  // ---------------------------------------------------------------- the second decoder

  datatype Decoded = NotDecoded | Decoded(cp: int, length: nat)

  // `(b & 0xC0) == 0x80`
  predicate IsContinuation(b: Byte) {
    b / 0x40 == 2
  }

  function DecodeOne(s: seq<Byte>): Decoded {
    if s == [] then NotDecoded
    else if s[0] < 0x80 then Decoded(s[0], 1)
    else if 0xC2 <= s[0] <= 0xDF then
      if |s| < 2 || !IsContinuation(s[1]) then NotDecoded
      else Decoded(s[0] as int % 0x20 * 0x40 + s[1] as int % 0x40, 2)
    else if 0xE0 <= s[0] <= 0xEF then
      if |s| < 3 || !IsContinuation(s[1]) || !IsContinuation(s[2]) then NotDecoded
      else if s[0] == 0xE0 && s[1] < 0xA0 then NotDecoded
      else if s[0] == 0xED && s[1] >= 0xA0 then NotDecoded
      else Decoded(s[0] as int % 0x10 * 0x1000 + s[1] as int % 0x40 * 0x40 + s[2] as int % 0x40, 3)
    else if 0xF0 <= s[0] <= 0xF4 then
      if |s| < 4 || !IsContinuation(s[1]) || !IsContinuation(s[2]) || !IsContinuation(s[3]) then NotDecoded
      else if s[0] == 0xF0 && s[1] < 0x90 then NotDecoded
      else if s[0] == 0xF4 && s[1] >= 0x90 then NotDecoded
      else
        Decoded(s[0] as int % 0x08 * 0x4_0000 + s[1] as int % 0x40 * 0x1000 + s[2] as int % 0x40 * 0x40 + s[3] as int % 0x40, 4)
    else NotDecoded
  }

  // It finds a character exactly where the text starts with a well-formed one.
  lemma DecodeOneIsScan(s: seq<Byte>)
    ensures DecodeOne(s).Decoded? <==> Scan(s).Complete?
    ensures DecodeOne(s).Decoded? ==> Scan(s) == Complete(DecodeOne(s).cp, DecodeOne(s).length)
  {
    hide Utf8;
    if s != [] {
      var need := Utf8Need(s[0]);
      LowBits(s[0]);
      if need <= |s| {
        forall i | 1 <= i < need
          ensures IsContinuation(s[i]) <==> IsTail(s[i])
          ensures IsTail(s[i]) ==> s[i] as int % 0x40 == s[i] as int - 0x80
        {
          LowBits(s[i]);
        }
        assert TailsFrom1(s[..need]) <==> forall i :: 1 <= i < need ==> IsContinuation(s[i]);
      }
    }
  }

  // The decoder of <uchar.h> and this one accept the same bytes, with the same value and length.
  lemma DecodersAgree(s: seq<Byte>)
    ensures var (_, o) := Decode(Start(), Bytes(s));
      && (o.Stored? <==> DecodeOne(s).Decoded?)
      && (o.Stored? ==> o == Stored(DecodeOne(s).cp, DecodeOne(s).length))
  {
    DecodeOneIsScan(s);
    assert Pending(Start()) + s == s;
  }

  // ---------------------------------------------------------------- the escaper

  predicate IsBidiControl(cp: int) {
    || 0x202A <= cp <= 0x202E
    || 0x2066 <= cp <= 0x2069
    || cp == 0x200E || cp == 0x200F || cp == 0x061C
  }

  // Code points that never reach the terminal as themselves.
  predicate Hidden(cp: int) {
    cp <= 0x1F || 0x7F <= cp <= 0x9F || IsBidiControl(cp)
  }

  const BACKSLASH: Byte := 0x5C

  function HexDigit(d: int): (b: Byte)
    requires 0 <= d < 16
    ensures 0x30 <= b <= 0x46
  {
    if d < 10 then 0x30 + d else 0x41 + (d - 10)
  }

  // `%02X` and `%04X`
  function Hex2(v: int): (r: seq<Byte>)
    requires 0 <= v < 0x100
    ensures |r| == 2
  {
    [HexDigit(v / 0x10), HexDigit(v % 0x10)]
  }

  function Hex4(v: int): (r: seq<Byte>)
    requires 0 <= v < 0x1_0000
    ensures |r| == 4
  {
    Hex2(v / 0x100) + Hex2(v % 0x100)
  }

  datatype Piece = Piece(text: seq<Byte>, used: nat)

  // What one round of the escaper prints, and how many input bytes it stands for.
  function EscapeStep(s: seq<Byte>): (p: Piece)
    requires s != []
    ensures 0 < p.used <= |s| && p.text != []
  {
    DecodeOneIsScan(s);
    var c := s[0];
    if c == 0x0A then Piece([BACKSLASH, 0x6E], 1)
    else if c == 0x0D then Piece([BACKSLASH, 0x72], 1)
    else if c == 0x09 then Piece([BACKSLASH, 0x74], 1)
    else if c < 0x20 || c == 0x7F then Piece([BACKSLASH, 0x78] + Hex2(c), 1)
    else
      match DecodeOne(s)
      case NotDecoded => Piece([BACKSLASH, 0x78] + Hex2(c), 1)
      case Decoded(cp, length) =>
        if Hidden(cp) then Piece([BACKSLASH, 0x75] + Hex4(cp), length)
        else Piece(s[..length], length)
  }

  function Escaped(s: seq<Byte>): seq<Byte> {
    if s == [] then [] else EscapeStep(s).text + Escaped(s[EscapeStep(s).used..])
  }

  // One round of the printing loop. A hidden code point is below 0x10000, so the branch of the
  // source that would print eight digits is never taken.
  method EscapeRound(s: seq<Byte>, i: nat) returns (text: seq<Byte>, used: nat, width: nat)
    requires i < |s|
    ensures EscapeStep(s[i..]) == Piece(text, used)
    ensures width == |text|
  {
    var c := s[i];
    if c == 0x0A {
      return [BACKSLASH, 0x6E], 1, 2;
    }
    if c == 0x0D {
      return [BACKSLASH, 0x72], 1, 2;
    }
    if c == 0x09 {
      return [BACKSLASH, 0x74], 1, 2;
    }
    if c < 0x20 || c == 0x7F {
      return [BACKSLASH, 0x78] + Hex2(c), 1, 4;
    }
    DecodeOneIsScan(s[i..]);
    var decoded := DecodeOne(s[i..]);
    if decoded.Decoded? {
      if Hidden(decoded.cp) {
        return [BACKSLASH, 0x75] + Hex4(decoded.cp), decoded.length, 6;
      }
      return s[i..i + decoded.length], decoded.length, decoded.length;
    }
    return [BACKSLASH, 0x78] + Hex2(c), 1, 4;
  }

  method Escape(s: seq<Byte>) returns (out: seq<Byte>, written: nat)
    ensures out == Escaped(s)
    ensures written == |out|
  {
    hide EscapeStep;
    out, written := [], 0;
    var i := 0;
    while i < |s|
      invariant 0 <= i <= |s|
      invariant out + Escaped(s[i..]) == Escaped(s)
      invariant written == |out|
    {
      var text, used, width := EscapeRound(s, i);
      assert s[i..][used..] == s[i + used..];
      assert out + (text + Escaped(s[i + used..])) == out + text + Escaped(s[i + used..]);
      out := out + text;
      written := written + width;
      i := i + used;
    }
  }

  // ---------------------------------------------------------------- what the output is

  ghost predicate AllShown(vs: seq<Scalar>) {
    forall v <- vs :: !Hidden(v)
  }

  // Well-formed UTF-8 with nothing to hide.
  ghost predicate Clean(s: seq<Byte>) {
    exists vs: seq<Scalar> :: Utf8All(vs) == s && AllShown(vs)
  }

  predicate PrintableAscii(s: seq<Byte>) {
    forall i :: 0 <= i < |s| ==> 0x20 <= s[i] < 0x7F
  }

  lemma AsciiIsItself(b: Byte)
    requires 0x20 <= b < 0x7F
    ensures Utf8(b) == [b] && !Hidden(b)
  {}

  lemma {:induction false} PrintableAsciiIsClean(s: seq<Byte>) returns (vs: seq<Scalar>)
    requires PrintableAscii(s)
    ensures Utf8All(vs) == s && AllShown(vs)
  {
    hide Utf8;
    hide Hidden;
    vs := [];
    if s != [] {
      AsciiIsItself(s[0]);
      var rest := PrintableAsciiIsClean(s[1..]);
      vs := [s[0]] + rest;
      assert vs[1..] == rest;
    }
  }

  lemma StepIsPrintable(s: seq<Byte>)
    requires s != []
    ensures PrintableAscii(EscapeStep(s).text) ||
      (Scan(s).Complete? && EscapeStep(s).text == Utf8(Scan(s).value) && !Hidden(Scan(s).value))
  {
    hide Utf8;
    DecodeOneIsScan(s);
  }

  lemma StepIsClean(s: seq<Byte>) returns (vs: seq<Scalar>)
    requires s != []
    ensures Utf8All(vs) == EscapeStep(s).text && AllShown(vs)
  {
    hide Utf8;
    hide EscapeStep;
    StepIsPrintable(s);
    if PrintableAscii(EscapeStep(s).text) {
      vs := PrintableAsciiIsClean(EscapeStep(s).text);
    } else {
      vs := [Scan(s).value];
      assert Utf8All(vs) == Utf8(vs[0]) + [];
    }
  }

  lemma {:induction false} EscapedIsClean(s: seq<Byte>)
    ensures Clean(Escaped(s))
    decreases |s|
  {
    if s == [] {
      assert Utf8All([]) == Escaped(s) && AllShown([]);
    } else {
      var first := StepIsClean(s);
      EscapedIsClean(s[EscapeStep(s).used..]);
      var rest: seq<Scalar> :| Utf8All(rest) == Escaped(s[EscapeStep(s).used..]) && AllShown(rest);
      Utf8AllAppend(first, rest);
      assert AllShown(first + rest);
    }
  }

  lemma ShownStep(v: Scalar, rest: seq<Byte>)
    requires !Hidden(v)
    ensures EscapeStep(Utf8(v) + rest) == Piece(Utf8(v), |Utf8(v)|)
  {
    hide DecodeOne;
    var s := Utf8(v) + rest;
    ScanAccepts(v, rest, 0);
    DecodeOneIsScan(s);
    assert s[..|Utf8(v)|] == Utf8(v);
    assert s[0] == Utf8(v)[0];
  }

  lemma {:induction false} CleanIsKept(vs: seq<Scalar>)
    requires AllShown(vs)
    ensures Escaped(Utf8All(vs)) == Utf8All(vs)
  {
    if vs != [] {
      hide Utf8;
      hide EscapeStep;
      var s, rest := Utf8All(vs), Utf8All(vs[1..]);
      ShownStep(vs[0], rest);
      assert s[|Utf8(vs[0])|..] == rest;
      CleanIsKept(vs[1..]);
    }
  }

  // The escaper changes a text exactly when there is something in it to escape.
  lemma EscapedIffNeeded(s: seq<Byte>)
    ensures Escaped(s) == s <==> Clean(s)
  {
    EscapedIsClean(s);
    if Clean(s) {
      var vs: seq<Scalar> :| Utf8All(vs) == s && AllShown(vs);
      CleanIsKept(vs);
    }
  }

  lemma EscapingTwice(s: seq<Byte>)
    ensures Escaped(Escaped(s)) == Escaped(s)
  {
    EscapedIsClean(s);
    EscapedIffNeeded(Escaped(s));
  }

  lemma Hex2IsInjective(v: int, w: int)
    requires 0 <= v < 0x100 && 0 <= w < 0x100 && Hex2(v) == Hex2(w)
    ensures v == w
  {
    assert HexDigit(v / 0x10) == Hex2(v)[0] == Hex2(w)[0] && HexDigit(v % 0x10) == Hex2(v)[1] == Hex2(w)[1];
  }

  lemma Hex4IsInjective(v: int, w: int)
    requires 0 <= v < 0x1_0000 && 0 <= w < 0x1_0000 && Hex4(v) == Hex4(w)
    ensures v == w
  {
    assert Hex2(v / 0x100) == Hex4(v)[..2] == Hex4(w)[..2] == Hex2(w / 0x100);
    assert Hex2(v % 0x100) == Hex4(v)[2..] == Hex4(w)[2..] == Hex2(w % 0x100);
    Hex2IsInjective(v / 0x100, w / 0x100);
    Hex2IsInjective(v % 0x100, w % 0x100);
  }

  // The bytes a printed piece stands for, and how long a piece is that starts like this.
  lemma PieceForms(s: seq<Byte>)
    requires s != [] && s[0] != BACKSLASH
    ensures var p := EscapeStep(s);
      if p.text[0] != BACKSLASH then Scan(s).Complete? && p.text == Utf8(Scan(s).value) == s[..p.used]
      else
        && |p.text| > 1
        && match p.text[1]
           case 0x6E => |p.text| == 2 && s[..p.used] == [0x0A]
           case 0x72 => |p.text| == 2 && s[..p.used] == [0x0D]
           case 0x74 => |p.text| == 2 && s[..p.used] == [0x09]
           case 0x78 => |p.text| == 4 && s[..p.used] == [s[0]] && p.text[2..] == Hex2(s[0])
           case 0x75 =>
             && |p.text| == 6
             && Scan(s).Complete?
             && Scan(s).value < 0x1_0000
             && s[..p.used] == Utf8(Scan(s).value)
             && p.text[2..] == Hex4(Scan(s).value)
           case _ => false
  {
    hide Utf8;
    hide Hex2;
    DecodeOneIsScan(s);
    var p := EscapeStep(s);
    assert s[..1] == [s[0]] && ([BACKSLASH, 0x78] + Hex2(s[0]))[2..] == Hex2(s[0]);
    if Scan(s).Complete? && p.text == s[..p.used] {
      assert p.text[0] == s[0];
    }
  }

  lemma PiecesCancel(s: seq<Byte>, t: seq<Byte>, a: seq<Byte>, b: seq<Byte>)
    requires s != [] && t != [] && s[0] != BACKSLASH && t[0] != BACKSLASH
    requires EscapeStep(s).text + a == EscapeStep(t).text + b
    ensures s[..EscapeStep(s).used] == t[..EscapeStep(t).used] && a == b
  {
    hide Utf8;
    hide EscapeStep;
    hide Scan;
    hide Hex2;
    hide Hex4;
    var p, q := EscapeStep(s), EscapeStep(t);
    var whole := p.text + a;
    assert whole[0] == p.text[0] == q.text[0];
    PieceForms(s);
    PieceForms(t);
    if p.text[0] != BACKSLASH {
      PrefixCode(Scan(s).value, Scan(t).value, a, b);
    } else {
      assert whole[1] == p.text[1] == q.text[1];
      assert |p.text| == |q.text|;
      assert p.text == whole[..|p.text|] == q.text;
      assert a == whole[|p.text|..] == b;
      if p.text[1] == 0x78 {
        Hex2IsInjective(s[0], t[0]);
      } else if p.text[1] == 0x75 {
        Hex4IsInjective(Scan(s).value, Scan(t).value);
      }
    }
  }

  // ---------------------------------------------------------------- what the escapes say

  // The value of a hexadecimal digit, -1 for another character.
  function DigitValue(b: Byte): int {
    if 0x30 <= b <= 0x39 then b - 0x30 else if 0x41 <= b <= 0x46 then b - 0x41 + 10 else -1
  }

  predicate AreHexDigits(s: seq<Byte>) {
    forall i :: 0 <= i < |s| ==> DigitValue(s[i]) >= 0
  }

  // The number digits stand for, the most significant first.
  function HexNumber(s: seq<Byte>): int {
    if s == [] then 0 else 0x10 * HexNumber(s[..|s| - 1]) + DigitValue(s[|s| - 1])
  }

  lemma TwoDigits(a: Byte, b: Byte)
    ensures HexNumber([a, b]) == 0x10 * DigitValue(a) + DigitValue(b)
  {
    var one, two: seq<Byte> := [a], [a, b];
    assert one[..0] == [] && two[..1] == one;
    assert HexNumber(one) == 0x10 * HexNumber([]) + DigitValue(a);
  }

  // The digits of a byte or a code point are read back as that number.
  lemma Hex2ReadsBack(v: int)
    requires 0 <= v < 0x100
    ensures AreHexDigits(Hex2(v)) && HexNumber(Hex2(v)) == v
  {
    TwoDigits(HexDigit(v / 0x10), HexDigit(v % 0x10));
  }

  lemma Hex4ReadsBack(v: int)
    requires 0 <= v < 0x1_0000
    ensures AreHexDigits(Hex4(v)) && HexNumber(Hex4(v)) == v
  {
    var h, l := Hex2(v / 0x100), Hex2(v % 0x100);
    Hex2ReadsBack(v / 0x100);
    Hex2ReadsBack(v % 0x100);
    hide Hex2;
    DigitsJoin(h, l);
  }

  lemma DigitsJoin(h: seq<Byte>, l: seq<Byte>)
    requires AreHexDigits(h) && AreHexDigits(l) && |l| == 2
    ensures AreHexDigits(h + l) && HexNumber(h + l) == 0x100 * HexNumber(h) + HexNumber(l)
  {
    var s := h + l;
    assert forall i :: 0 <= i < |s| ==> s[i] == if i < |h| then h[i] else l[i - |h|];
    assert s[..|s| - 1] == h + [l[0]] && (h + [l[0]])[..|h|] == h;
    assert l == [l[0], l[1]];
    TwoDigits(l[0], l[1]);
  }

  // The characters with the property Bidi_Control of Unicode.
  const BIDI_CONTROLS := {
    0x061C, 0x200E, 0x200F, 0x202A, 0x202B, 0x202C, 0x202D, 0x202E, 0x2066, 0x2067, 0x2068, 0x2069}

  // Hidden are the controls of ASCII and Latin-1 and the controls of bidirectional text.
  lemma HiddenIff(cp: int)
    requires 0 <= cp
    ensures Hidden(cp) <==> cp < 0x20 || cp == 0x7F || 0x80 <= cp < 0xA0 || cp in BIDI_CONTROLS
  {}

  // What is printed for one hidden character, or one byte that belongs to no character.
  lemma EscapeSays(s: seq<Byte>)
    requires s != [] && EscapeStep(s).text != s[..EscapeStep(s).used]
    ensures
      var p := EscapeStep(s);
      && |p.text| >= 2 && p.text[0] == 0x5C
      && (p.text[1] == 0x6E ==> s[0] == 0x0A && p.used == 1 && |p.text| == 2)
      && (p.text[1] == 0x72 ==> s[0] == 0x0D && p.used == 1 && |p.text| == 2)
      && (p.text[1] == 0x74 ==> s[0] == 0x09 && p.used == 1 && |p.text| == 2)
      && (p.text[1] == 0x78 ==> |p.text| == 4 && p.used == 1 && HexNumber(p.text[2..]) == s[0])
      && (p.text[1] == 0x75 ==>
        |p.text| == 6 && Scan(s).Complete? && HexNumber(p.text[2..]) == Scan(s).value && p.used == Scan(s).length)
      && p.text[1] in {0x6E, 0x72, 0x74, 0x78, 0x75}
  {
    hide Utf8;
    hide HexNumber;
    hide Hex2;
    DecodeOneIsScan(s);
    var c: int := s[0];
    Hex2ReadsBack(c);
    assert ([BACKSLASH, 0x78] + Hex2(c))[2..] == Hex2(c);
    var d := DecodeOne(s);
    if d.Decoded? && Hidden(d.cp) {
      HiddenFits(d.cp);
      Hex4ReadsBack(d.cp);
      assert ([BACKSLASH, 0x75] + Hex4(d.cp))[2..] == Hex4(d.cp);
    }
  }

  lemma HiddenFits(cp: int)
    requires Hidden(cp) && cp >= 0
    ensures cp < 0x1_0000
  {}
}
