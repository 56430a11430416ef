/**
 The reference side of every Unicode theorem: scalar values, well-formed UTF-8 as the byte-range
 grammar of section 4 of RFC 3629, and UTF-16 as section 2 of RFC 2781.
 Nothing here follows the program; the encoders and decoders of `Uchar` and `DiagText` are
 proved against these definitions.
 */
module Unicode {
  type Byte = b: int | 0 <= b < 0x100
  type Unit16 = u: int | 0 <= u < 0x1_0000

  predicate IsScalar(v: int) {
    0 <= v < 0xD800 || 0xE000 <= v <= 0x10FFFF
  }

  type Scalar = v: int | 0 <= v < 0xD800 || 0xE000 <= v <= 0x10FFFF

  // UTF8-tail of the grammar.
  predicate IsTail(b: int) {
    0x80 <= b <= 0xBF
  }

  // UTF8-char of the grammar: UTF8-1 / UTF8-2 / UTF8-3 / UTF8-4.
  predicate IsUtf8Char(s: seq<Byte>) {
    match |s|
    case 1 => s[0] <= 0x7F
    case 2 => 0xC2 <= s[0] <= 0xDF && IsTail(s[1])
    case 3 =>
      && IsTail(s[2])
      && ( || (s[0] == 0xE0 && 0xA0 <= s[1] <= 0xBF)
           || (0xE1 <= s[0] <= 0xEC && IsTail(s[1]))
           || (s[0] == 0xED && 0x80 <= s[1] <= 0x9F)
           || (0xEE <= s[0] <= 0xEF && IsTail(s[1])))
    case 4 =>
      && IsTail(s[2])
      && IsTail(s[3])
      && ( || (s[0] == 0xF0 && 0x90 <= s[1] <= 0xBF)
           || (0xF1 <= s[0] <= 0xF3 && IsTail(s[1]))
           || (s[0] == 0xF4 && 0x80 <= s[1] <= 0x8F))
    case _ => false
  }

  // Six more bits from a tail octet.
  function Extend(high: int, tail: int): int {
    high * 0x40 + (tail - 0x80)
  }

  // The number whose bits the table of section 3 of RFC 3629 distributes over the octets.
  function CodePoint(s: seq<Byte>): int
    requires IsUtf8Char(s)
  {
    match |s|
    case 1 => s[0]
    case 2 => Extend(s[0] - 0xC0, s[1])
    case 3 => Extend(Extend(s[0] - 0xE0, s[1]), s[2])
    case _ => Extend(Extend(Extend(s[0] - 0xF0, s[1]), s[2]), s[3])
  }

  // A number split into its lowest six bits and the rest.
  function Low(v: int): (r: int)
    ensures 0 <= r < 0x40
  {
    v % 0x40
  }

  function High(v: int): (q: int)
    ensures v == 0x40 * q + Low(v)
  {
    v / 0x40
  }

  function Tail(v: int): (b: Byte)
    ensures IsTail(b)
  {
    0x80 + Low(v)
  }

  function Utf8(v: Scalar): (s: seq<Byte>)
    ensures IsUtf8Char(s) && CodePoint(s) == v
  {
    var v1 := High(v);
    var v2 := High(v1);
    if v <= 0x7F then [v]
    else if v <= 0x7FF then [0xC0 + v1, Tail(v)]
    else if v <= 0xFFFF then [0xE0 + v2, Tail(v1), Tail(v)]
    else [0xF0 + High(v2), Tail(v2), Tail(v1), Tail(v)]
  }

  // Every well-formed character is the encoding of exactly one scalar value.
  lemma Utf8IsOnto(s: seq<Byte>)
    requires IsUtf8Char(s)
    ensures IsScalar(CodePoint(s)) && Utf8(CodePoint(s)) == s
  {
    hide High;
    hide Low;
    var v := CodePoint(s);
    match |s| {
      case 1 =>
      case 2 => assert High(v) == s[0] as int - 0xC0;
      case 3 => assert High(v) == Extend(s[0] - 0xE0, s[1]) && High(High(v)) == s[0] as int - 0xE0;
      case _ =>
        assert High(v) == Extend(Extend(s[0] - 0xF0, s[1]), s[2]);
        assert High(High(v)) == Extend(s[0] - 0xF0, s[1]);
        assert High(High(High(v))) == s[0] as int - 0xF0;
    }
  }

  predicate IsHighSurrogate(u: int) { 0xD800 <= u <= 0xDBFF }

  predicate IsLowSurrogate(u: int) { 0xDC00 <= u <= 0xDFFF }

  // The scalar a surrogate pair stands for (section 2.2 of RFC 2781).
  function PairValue(high: int, low: int): (v: int)
    requires IsHighSurrogate(high) && IsLowSurrogate(low)
    ensures 0x1_0000 <= v <= 0x10_FFFF
  {
    0x1_0000 + (high - 0xD800) * 0x400 + (low - 0xDC00)
  }

  function Utf16(v: Scalar): (us: seq<Unit16>)
    ensures |us| == 1 ==> us[0] == v && !IsHighSurrogate(us[0]) && !IsLowSurrogate(us[0])
    ensures |us| == 1 || (|us| == 2 && IsHighSurrogate(us[0]) && IsLowSurrogate(us[1]) && PairValue(us[0], us[1]) == v)
  {
    if v <= 0xFFFF then [v]
    else [0xD800 + (v - 0x1_0000) / 0x400, 0xDC00 + (v - 0x1_0000) % 0x400]
  }

  function Utf8All(vs: seq<Scalar>): seq<Byte> {
    if vs == [] then [] else Utf8(vs[0]) + Utf8All(vs[1..])
  }

  function Utf16All(vs: seq<Scalar>): seq<Unit16> {
    if vs == [] then [] else Utf16(vs[0]) + Utf16All(vs[1..])
  }

  ghost predicate IsUtf8(s: seq<Byte>) {
    exists vs: seq<Scalar> :: Utf8All(vs) == s
  }

  // UTF-8 is a prefix code: a text starts with at most one well-formed character.
  lemma PrefixCode(v: Scalar, w: Scalar, s: seq<Byte>, t: seq<Byte>)
    requires Utf8(v) + s == Utf8(w) + t
    ensures v == w && s == t
  {
    hide Utf8;
    var a, b := Utf8(v), Utf8(w);
    var whole := a + s;
    assert whole[0] == a[0] && whole[0] == b[0];
    assert |a| == |b|;
    assert whole[..|a|] == a && whole[..|b|] == b;
    assert whole[|a|..] == s && whole[|b|..] == t;
  }

  lemma Utf8AllNonempty(vs: seq<Scalar>)
    ensures vs == [] <==> Utf8All(vs) == []
  {
    if vs != [] {
      assert IsUtf8Char(Utf8(vs[0]));
    }
  }

  lemma {:induction false} Utf8AllInjective(vs: seq<Scalar>, ws: seq<Scalar>)
    requires Utf8All(vs) == Utf8All(ws)
    ensures vs == ws
  {
    if vs != [] && ws != [] {
      PrefixCode(vs[0], ws[0], Utf8All(vs[1..]), Utf8All(ws[1..]));
      Utf8AllInjective(vs[1..], ws[1..]);
      assert vs == [vs[0]] + vs[1..] == ws;
    } else {
      Utf8AllNonempty(vs);
      Utf8AllNonempty(ws);
    }
  }

  lemma {:induction false} Utf8AllAppend(vs: seq<Scalar>, ws: seq<Scalar>)
    ensures Utf8All(vs + ws) == Utf8All(vs) + Utf8All(ws)
  {
    if vs == [] {
      assert vs + ws == ws;
    } else {
      assert (vs + ws)[1..] == vs[1..] + ws;
      Utf8AllAppend(vs[1..], ws);
    }
  }

  // UTF-8 can be cut in front of every character of one byte.
  lemma {:induction false} CutAtAscii(vs: seq<Scalar>, i: nat) returns (m: nat)
    requires i < |Utf8All(vs)| && Utf8All(vs)[i] < 0x80
    ensures m <= |vs| && Utf8All(vs[..m]) == Utf8All(vs)[..i] && Utf8All(vs[m..]) == Utf8All(vs)[i..]
    decreases vs
  {
    hide *;
    if i == 0 {
      m := 0;
      NothingCut(vs);
    } else {
      FirstAndRest(vs);
      var first, rest := Utf8(vs[0]), Utf8All(vs[1..]);
      NotInside(vs[0], rest, i);
      var k := CutAtAscii(vs[1..], i - |first|);
      m := k + 1;
      FirstAndRest(vs[..m]);
      assert vs[..m][1..] == vs[1..][..k] && vs[m..] == vs[1..][k..];
      assert (first + rest)[..i] == first + rest[..i - |first|];
      assert (first + rest)[i..] == rest[i - |first|..];
    }
  }

  lemma NothingCut(vs: seq<Scalar>)
    ensures Utf8All(vs[..0]) == Utf8All(vs)[..0] && Utf8All(vs[0..]) == Utf8All(vs)[0..]
  {
    assert vs[0..] == vs && Utf8All(vs)[0..] == Utf8All(vs);
  }

  lemma FirstAndRest(vs: seq<Scalar>)
    ensures Utf8All(vs) != [] ==> vs != []
    ensures vs != [] ==> Utf8All(vs) == Utf8(vs[0]) + Utf8All(vs[1..])
  {}

  lemma NotInside(v: Scalar, rest: seq<Byte>, i: nat)
    requires 0 < i < |Utf8(v) + rest| && (Utf8(v) + rest)[i] < 0x80
    ensures i >= |Utf8(v)| && (Utf8(v) + rest)[i] == rest[i - |Utf8(v)|]
  {}

  lemma PartsAreUtf8(s: seq<Byte>, i: nat)
    requires IsUtf8(s) && i < |s| && s[i] < 0x80
    ensures IsUtf8(s[..i]) && IsUtf8(s[i..])
  {
    hide Utf8All;
    var vs: seq<Scalar> :| Utf8All(vs) == s;
    var m := CutAtAscii(vs, i);
  }

  function Concat<T>(parts: seq<seq<T>>): seq<T> {
    if parts == [] then [] else parts[0] + Concat(parts[1..])
  }
}
