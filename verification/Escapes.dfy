/**
 What the escaper's output says about its input. The backslash itself is not escaped, so a text that
 already holds an escape is printed like the text that the escape stands for.
 */
module Escapes {
  import opened DiagText
  import opened Uchar
  import opened Unicode

  // ---------------------------------------------------------------- escapes

  // Bytes that are printed in hexadecimal when they stand alone.
  predicate IsHexed(v: int) {
    (0 <= v < 0x20 && v !in {0x09, 0x0A, 0x0D}) || 0x7F <= v < 0x100
  }

  predicate IsNumbered(v: int) {
    0x80 <= v < 0x1_0000 && Hidden(v)
  }

  // What the escaper itself writes instead of other bytes.
  ghost predicate IsEscape(x: seq<Byte>) {
    || x == [BACKSLASH, 0x6E] || x == [BACKSLASH, 0x72] || x == [BACKSLASH, 0x74]
    || (exists v :: IsHexed(v) && x == [BACKSLASH, 0x78] + Hex2(v))
    || (exists v :: IsNumbered(v) && x == [BACKSLASH, 0x75] + Hex4(v))
  }

  ghost predicate StartsEscape(s: seq<Byte>) {
    exists x :: IsEscape(x) && x <= s
  }

  // No backslash in the text starts an escape.
  ghost predicate IsHarmless(s: seq<Byte>) {
    forall i :: 0 <= i < |s| ==> !StartsEscape(s[i..])
  }

  // An escape is a backslash and printable characters that are none.
  lemma EscapeIsAscii(x: seq<Byte>)
    requires IsEscape(x)
    ensures |x| >= 2 && x[0] == BACKSLASH && PrintableAscii(x) && BACKSLASH !in x[1..]
  {}

  // A piece that is not what was read is an escape.
  lemma PieceIsEscape(s: seq<Byte>)
    requires s != [] && EscapeStep(s).text != s[..EscapeStep(s).used]
    ensures IsEscape(EscapeStep(s).text)
  {
    hide Utf8;
    hide Hex2;
    hide Hex4;
    DecodeOneIsScan(s);
    var c: int := s[0];
    if DecodeOne(s).Decoded? && c >= 0x80 {
      CodePointOfLead(s);
    }
  }

  lemma CodePointOfLead(s: seq<Byte>)
    requires s != [] && s[0] >= 0x80 && DecodeOne(s).Decoded?
    ensures DecodeOne(s).cp >= 0x80
  {
    hide Utf8;
    DecodeOneIsScan(s);
    assert Utf8(DecodeOne(s).cp)[0] == s[0];
    SmallIsOneByte(DecodeOne(s).cp);
  }

  lemma SmallIsOneByte(v: Scalar)
    ensures v < 0x80 ==> Utf8(v) == [v]
  {}

  // ---------------------------------------------------------------- what an escape stands for

  // Every escape is written for some bytes, fewer than its own, in front of any clean text.
  lemma EscapeIsWritten(x: seq<Byte>, rest: seq<Byte>) returns (b: seq<Byte>)
    requires IsEscape(x) && Clean(rest)
    ensures 0 < |b| < |x| && Escaped(b + rest) == x + Escaped(rest)
  {
    hide Utf8;
    if x[1] == 0x6E {
      b := [0x0A];
    } else if x[1] == 0x72 {
      b := [0x0D];
    } else if x[1] == 0x74 {
      b := [0x09];
    } else if x[1] == 0x78 {
      var v :| IsHexed(v) && x == [BACKSLASH, 0x78] + Hex2(v);
      b := [v];
      if v >= 0x80 {
        LoneByte(v, rest);
      }
    } else {
      var v :| IsNumbered(v) && x == [BACKSLASH, 0x75] + Hex4(v);
      b := Utf8(v);
      HiddenStep(v, rest);
    }
    assert (b + rest)[|b|..] == rest && (b + rest)[0] == b[0];
  }

  // In front of a character boundary a single byte of a longer character is not decoded.
  lemma LoneByte(b: Byte, rest: seq<Byte>)
    requires b >= 0x80 && Clean(rest)
    ensures DecodeOne([b] + rest) == NotDecoded
  {
    hide Hidden;
    var vs: seq<Scalar> :| Utf8All(vs) == rest && AllShown(vs);
    if vs != [] {
      assert rest[0] == Utf8(vs[0])[0];
    }
  }

  lemma HiddenStep(v: Scalar, rest: seq<Byte>)
    requires IsNumbered(v)
    ensures EscapeStep(Utf8(v) + rest) == Piece([BACKSLASH, 0x75] + Hex4(v), |Utf8(v)|) && 2 <= |Utf8(v)| <= 3
  {
    hide DecodeOne;
    hide Hex4;
    var s := Utf8(v) + rest;
    ScanAccepts(v, rest, 0);
    DecodeOneIsScan(s);
    assert s[0] == Utf8(v)[0];
  }

  // ---------------------------------------------------------------- clean texts

  lemma {:induction false} CleanInFront(vs: seq<Scalar>, y: seq<Byte>)
    requires AllShown(vs)
    ensures Escaped(Utf8All(vs) + y) == Utf8All(vs) + Escaped(y)
  {
    hide Utf8;
    hide Hidden;
    hide Escaped;
    if vs == [] {
      assert Utf8All(vs) + y == y && Utf8All(vs) + Escaped(y) == Escaped(y);
    } else {
      CleanInFront(vs[1..], y);
      ShownInFront(vs[0], Utf8All(vs[1..]) + y);
      var v, more := Utf8(vs[0]), Utf8All(vs[1..]);
      assert v + more + y == v + (more + y) && v + more + Escaped(y) == v + (more + Escaped(y));
    }
  }

  lemma ShownInFront(v: Scalar, y: seq<Byte>)
    requires !Hidden(v)
    ensures Escaped(Utf8(v) + y) == Utf8(v) + Escaped(y)
  {
    hide Utf8;
    hide Hidden;
    hide EscapeStep;
    ShownStep(v, y);
    assert (Utf8(v) + y)[|Utf8(v)|..] == y;
  }

  // A clean text can be cut behind characters of one byte.
  lemma {:induction false} CleanBehind(vs: seq<Scalar>, x: seq<Byte>)
    requires AllShown(vs) && PrintableAscii(x) && x <= Utf8All(vs)
    ensures Clean(Utf8All(vs)[|x|..])
    decreases |x|
  {
    hide Hidden;
    if x == [] {
      assert Utf8All(vs)[0..] == Utf8All(vs);
    } else {
      assert Utf8All(vs)[0] == Utf8(vs[0])[0] == x[0];
      assert |Utf8(vs[0])| == 1;
      hide Utf8;
      var rest := Utf8All(vs[1..]);
      assert Utf8All(vs)[1..] == rest && x[1..] <= rest;
      CleanBehind(vs[1..], x[1..]);
      assert Utf8All(vs)[|x|..] == rest[|x[1..]|..];
    }
  }

  // ---------------------------------------------------------------- texts that are written uniquely

  // A clean text in front of an escape, the escape, and the clean text behind it.
  lemma CutAtEscape(s: seq<Byte>, i: nat) returns (front: seq<Scalar>, x: seq<Byte>, rest: seq<Byte>)
    requires Clean(s) && i < |s| && StartsEscape(s[i..])
    ensures AllShown(front) && IsEscape(x) && Clean(rest) && s == Utf8All(front) + (x + rest)
  {
    hide IsEscape;
    hide Hidden;
    hide Utf8;
    hide Utf8All;
    var vs: seq<Scalar> :| Utf8All(vs) == s && AllShown(vs);
    x :| IsEscape(x) && x <= s[i..];
    EscapeIsAscii(x);
    assert s[i] == x[0];
    var m := CutAtAscii(vs, i);
    front := vs[..m];
    CleanBehind(vs[m..], x);
    rest := s[i..][|x|..];
    assert s == s[..i] + s[i..] && s[i..] == x + rest;
  }

  // A clean text with an escape in it is also written for a shorter text.
  lemma EscapeIsShared(s: seq<Byte>, i: nat) returns (t: seq<Byte>)
    requires Clean(s) && i < |s| && StartsEscape(s[i..])
    ensures Escaped(t) == Escaped(s) && |t| < |s|
  {
    hide *;
    var front, x, rest := CutAtEscape(s, i);
    var b := EscapeIsWritten(x, rest);
    t := Utf8All(front) + (b + rest);
    CleanInFront(front, b + rest);
    EscapedIffNeeded(rest);
    EscapedIffNeeded(s);
  }

  // Where something is escaped, an escape stands in the output.
  lemma {:induction false} EscapedHasEscape(s: seq<Byte>) returns (i: nat)
    requires Escaped(s) != s
    ensures i < |Escaped(s)| && StartsEscape(Escaped(s)[i..])
    decreases |s|
  {
    hide EscapeStep;
    hide IsEscape;
    var p, rest := EscapeStep(s), s[EscapeStep(s).used..];
    if p.text != s[..p.used] {
      PieceIsEscape(s);
      EscapeIsAscii(p.text);
      i := 0;
      assert Escaped(s)[0..] == Escaped(s) && p.text <= Escaped(s);
    } else {
      assert s == s[..p.used] + rest;
      var j := EscapedHasEscape(rest);
      i := |p.text| + j;
      assert Escaped(s)[i..] == Escaped(rest)[j..];
    }
  }

  // The escaped form of a text is that of no other exactly when the text is clean and no backslash
  // in it starts an escape.
  lemma WrittenUniquelyIff(s: seq<Byte>)
    ensures (forall t :: Escaped(t) == Escaped(s) ==> t == s) <==> Clean(s) && IsHarmless(s)
  {
    hide Escaped;
    hide IsEscape;
    hide Clean;
    EscapedIffNeeded(s);
    if Clean(s) {
      if i :| 0 <= i < |s| && StartsEscape(s[i..]) {
        var t := EscapeIsShared(s, i);
      } else {
        forall t | Escaped(t) == Escaped(s) ensures t == s {
          if Escaped(t) != t {
            var i := EscapedHasEscape(t);
          }
        }
      }
    } else {
      EscapingTwice(s);
    }
  }

  // A line feed holds no backslash, and still is written like the escape that stands for it.
  lemma EscapingIsLossy()
    ensures Escaped([0x0A]) == Escaped([BACKSLASH, 0x6E]) && IsHarmless([0x0A])
  {
    var two: seq<Byte> := [BACKSLASH, 0x6E];
    var vs := PrintableAsciiIsClean(two);
    CleanIsKept(vs);
    assert Escaped([0x0A]) == two + [];
    forall i, x | 0 <= i < 1 && IsEscape(x) ensures !(x <= [0x0A][i..]) {
      EscapeIsAscii(x);
    }
  }

  // ---------------------------------------------------------------- texts without escapes

  // Characters of one byte in the output stood in the input.
  lemma {:induction false} AsciiThrough(s: seq<Byte>, w: seq<Byte>)
    requires PrintableAscii(w) && BACKSLASH !in w && w <= Escaped(s)
    ensures w <= s && Escaped(s)[|w|..] == Escaped(s[|w|..])
    decreases |w|
  {
    hide EscapeStep;
    if w == [] {
      assert s[0..] == s && Escaped(s)[0..] == Escaped(s);
    } else {
      var p, rest := EscapeStep(s), s[EscapeStep(s).used..];
      assert p.text[0] == Escaped(s)[0] == w[0];
      AsciiPiece(s);
      assert s[1..] == rest && Escaped(s)[1..] == Escaped(rest) && w[1..] <= Escaped(rest);
      AsciiThrough(rest, w[1..]);
      assert s == [s[0]] + rest && w == [w[0]] + w[1..];
      assert s[|w|..] == rest[|w| - 1..] && Escaped(s)[|w|..] == Escaped(rest)[|w| - 1..];
    }
  }

  lemma AsciiPiece(s: seq<Byte>)
    requires s != [] && 0x20 <= EscapeStep(s).text[0] < 0x7F && EscapeStep(s).text[0] != BACKSLASH
    ensures EscapeStep(s) == Piece([s[0]], 1)
  {
    hide EscapeStep;
    hide Utf8;
    if s[0] == BACKSLASH {
      BackslashStep(s);
    } else {
      PieceForms(s);
      AsciiLead(Scan(s).value);
    }
  }

  lemma BackslashStep(s: seq<Byte>)
    requires s != [] && s[0] == BACKSLASH
    ensures EscapeStep(s) == Piece([BACKSLASH], 1)
  {
    assert s[..1] == [BACKSLASH];
  }

  lemma AsciiLead(v: Scalar)
    requires Utf8(v)[0] < 0x80
    ensures |Utf8(v)| == 1
  {}

  lemma HarmlessTail(s: seq<Byte>, k: nat)
    requires IsHarmless(s) && k <= |s|
    ensures IsHarmless(s[k..])
  {
    hide StartsEscape;
    forall i | 0 <= i < |s[k..]| ensures !StartsEscape(s[k..][i..]) {
      assert s[k..][i..] == s[k + i..];
    }
  }

  // A backslash that stood in the input cannot be taken for one that the escaper wrote.
  lemma EscapeIsRead(s: seq<Byte>, t: seq<Byte>)
    requires s != [] && t != [] && s[0] == BACKSLASH && t[0] != BACKSLASH && Escaped(s) == Escaped(t)
    ensures StartsEscape(s)
  {
    hide EscapeStep;
    hide IsEscape;
    hide Utf8;
    BackslashStep(s);
    PieceForms(t);
    var x, e := EscapeStep(t).text, Escaped(s[1..]);
    assert Escaped(s) == [BACKSLASH] + e;
    assert x[0] == Escaped(t)[0] == BACKSLASH;
    assert t[..EscapeStep(t).used][0] == t[0];
    PieceIsEscape(t);
    EscapeIsAscii(x);
    assert x <= [BACKSLASH] + e;
    assert x[1..] <= e;
    AsciiThrough(s[1..], x[1..]);
    assert s == [BACKSLASH] + s[1..] && x == [BACKSLASH] + x[1..];
  }

  // Texts in which no backslash starts an escape are told apart by their escaped forms, byte for byte.
  lemma {:induction false} EscapingIsInjective(s: seq<Byte>, t: seq<Byte>)
    requires IsHarmless(s) && IsHarmless(t) && Escaped(s) == Escaped(t)
    ensures s == t
    decreases |s|
  {
    hide EscapeStep;
    hide StartsEscape;
    if s != [] && t != [] {
      assert s[0..] == s && t[0..] == t;
      if s[0] == BACKSLASH && t[0] == BACKSLASH {
        BackslashStep(s);
        BackslashStep(t);
        assert Escaped(s)[1..] == Escaped(s[1..]) && Escaped(t)[1..] == Escaped(t[1..]);
        HarmlessTail(s, 1);
        HarmlessTail(t, 1);
        EscapingIsInjective(s[1..], t[1..]);
        assert s == [BACKSLASH] + s[1..] && t == [BACKSLASH] + t[1..];
      } else if s[0] == BACKSLASH {
        EscapeIsRead(s, t);
      } else if t[0] == BACKSLASH {
        EscapeIsRead(t, s);
      } else {
        var i, j := EscapeStep(s).used, EscapeStep(t).used;
        PiecesCancel(s, t, Escaped(s[i..]), Escaped(t[j..]));
        HarmlessTail(s, i);
        HarmlessTail(t, j);
        EscapingIsInjective(s[i..], t[j..]);
        assert s == s[..i] + s[i..] && t == t[..j] + t[j..];
      }
    }
  }

  // A text without a backslash is one of them.
  lemma PlainIsHarmless(s: seq<Byte>)
    requires BACKSLASH !in s
    ensures IsHarmless(s)
  {
    hide IsEscape;
    forall i, x | 0 <= i < |s| && IsEscape(x) ensures !(x <= s[i..]) {
      EscapeIsAscii(x);
      assert s[i..][0] in s;
    }
  }
}
