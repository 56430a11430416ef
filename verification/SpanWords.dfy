/**
 Identifier spans against the normalized text: a span is a run of identifier bytes there, and where
 it is not a whole word two adjacent splices cut it.
 */
module SpanWords {
  import opened Phases
  import opened LogicalLines
  import opened Conditionals
  import opened IdentifierSpans
  import opened OffsetMap

  // ---------------------------------------------------------------- identifier bytes are elements

  lemma IdentElement(s: string, i: nat, tri: bool)
    requires s != "" && IdentAt(s, i) && i < Width(s, tri)
    ensures i == 0 && Width(s, tri) == 1 && SpliceSize(s, 0, tri) == 0
  {
    if SpliceSize(s, 0, tri) > 0 {
      NoIdentInSplice(s, 0, i, tri);
    }
  }

  lemma {:induction false} IdentIsBetween(s: string, i: nat, tri: bool)
    requires IdentAt(s, i)
    ensures Between(s, i, tri) && Between(s, i + 1, tri)
    decreases |s|
  {
    hide Width;
    hide IsIdentifierByte;
    if i < Width(s, tri) {
      IdentElement(s, i, tri);
    } else {
      IdentIsBetween(s[Width(s, tri)..], i - Width(s, tri), tri);
    }
  }

  lemma SpliceInFirstElement(s: string, x: nat, tri: bool)
    requires s != "" && x < Width(s, tri) && SpliceSize(s, x, tri) > 0
    ensures x == 0 && Width(s, tri) == SpliceSize(s, 0, tri)
  {
    hide SpliceSize;
    hide PhaseOneWidth;
    SpliceShift(s, x, tri);
    if SpliceSize(s, 0, tri) > 0 {
      if x > 0 {
        SplicesDisjoint(s, 0, x, tri);
      }
    } else if PhaseOneWidth(s, 0, tri) == 3 {
      InsideTrigraph(s, tri);
    }
    assert s[0..] == s;
  }

  // Every splice is an element, and no place between elements is inside one.
  lemma {:induction false} SpliceIsElement(s: string, x: nat, p: nat, tri: bool)
    requires SpliceSize(s, x, tri) > 0 && Between(s, p, tri)
    ensures Between(s, x, tri) && !(x < p < x + SpliceSize(s, x, tri))
    decreases |s|
  {
    hide SpliceSize;
    hide PhaseOneWidth;
    hide Width;
    var w := Width(s, tri);
    if x < w {
      SpliceInFirstElement(s, x, tri);
    } else {
      SpliceShift(s, x, tri);
      SpliceShift(s[w..], x - w, tri);
      DropDrop(s, w, x);
      SpliceIsElement(s[w..], x - w, if p < w then 0 else p - w, tri);
    }
  }

  // The element in front of a place between elements.
  lemma {:induction false} ElementBefore(s: string, c: nat, tri: bool) returns (p: nat)
    requires Between(s, c, tri) && 0 < c <= |s|
    ensures p < c && Between(s, p, tri) && Width(s[p..], tri) == c - p
    decreases |s|
  {
    hide Width;
    var w := Width(s, tri);
    if c == w {
      p := 0;
      assert s[0..] == s;
    } else {
      assert s[w..] != "";
      var q := ElementBefore(s[w..], c - w, tri);
      p := w + q;
      DropDrop(s, w, p);
    }
  }

  // ---------------------------------------------------------------- the neighbours of a span

  predicate StartsWithIdent(text: string) {
    text != "" && IsIdentifierByte(text[0])
  }

  predicate EndsWithIdent(text: string) {
    text != "" && IsIdentifierByte(text[|text| - 1])
  }

  // The place in front of all splices that end at `c`.
  function SkipSplicesBack(s: string, c: nat, tri: bool): (r: nat)
    ensures r <= c
  {
    if SpliceBefore(s, c, tri) > 0 then SkipSplicesBack(s, c - SpliceBefore(s, c, tri), tri) else c
  }

  // A character that phases 1 and 2 leave belongs to an identifier only if it is one in the source.
  lemma ElementText(s: string, tri: bool)
    requires s != ""
    ensures SpliceSize(s, 0, tri) == 0 ==> (IsIdentifierByte(Text(s, tri)[0]) <==> IdentAt(s, Width(s, tri) - 1))
    ensures SpliceSize(s, 0, tri) == 0 ==> (IsIdentifierByte(Text(s, tri)[0]) <==> IdentAt(s, 0))
    ensures SpliceSize(s, 0, tri) > 0 ==> Text(s, tri) == ""
  {}

  lemma {:induction false} IdentBehind(s: string, c: nat, tri: bool)
    requires c <= |s|
    ensures StartsWithIdent(Normalize(s[c..], tri)) <==> IdentAt(s, SkipSplices(s, c, |s|, tri))
    decreases |s| - c
  {
    hide Normalize;
    hide SpliceSize;
    hide PhaseOneWidth;
    hide IsIdentifierByte;
    NormalizeStep("", tri);
    assert s[|s|..] == "";
    if c < |s| {
      BehindElement(s, c, tri);
      var w := SpliceSize(s, c, tri);
      if w > 0 {
        IdentBehind(s, c + w, tri);
      }
    }
  }

  // What the text from `c` on starts with, read off its first element.
  lemma BehindElement(s: string, c: nat, tri: bool)
    requires c < |s|
    ensures
      var w := SpliceSize(s, c, tri);
      if w > 0 then Normalize(s[c..], tri) == Normalize(s[c + w..], tri)
      else StartsWithIdent(Normalize(s[c..], tri)) <==> IdentAt(s, c)
  {
    hide Normalize;
    hide SpliceSize;
    hide PhaseOneWidth;
    hide IsIdentifierByte;
    NormalizeStep(s[c..], tri);
    SpliceShift(s, c, tri);
    ElementText(s[c..], tri);
    var w := SpliceSize(s, c, tri);
    if w > 0 {
      DropDrop(s, c, c + w);
    }
  }

  lemma {:induction false} IdentInFront(s: string, c: nat, tri: bool)
    requires Between(s, c, tri) && c <= |s|
    ensures EndsWithIdent(Normalize(s[..c], tri)) <==> IdentAt(s, SkipSplicesBack(s, c, tri) - 1)
    decreases c
  {
    hide Normalize;
    hide SpliceSize;
    hide PhaseOneWidth;
    hide SpliceBefore;
    hide IsIdentifierByte;
    hide Between;
    NormalizeStep("", tri);
    assert s[..0] == "";
    NoSpliceBeforeZero(s, tri);
    if c > 0 {
      var p := ElementBefore(s, c, tri);
      PrefixGrows(s, p, c, tri);
      SpliceShift(s, p, tri);
      ElementText(s[p..], tri);
      if SpliceSize(s, p, tri) > 0 {
        SpliceBeforeIsComplete(s, p, tri);
        IdentInFront(s, p, tri);
      } else {
        var w := SpliceBefore(s, c, tri);
        if w > 0 {
          SpliceIsElement(s, c - w, p, tri);
          SpliceIsOneElement(s, c - w, p, c, tri);
        }
      }
    }
  }

  lemma NoSpliceBeforeZero(s: string, tri: bool)
    ensures SpliceBefore(s, 0, tri) == 0
  {}

  // A splice that ends where an element ends is that element.
  lemma {:induction false} SpliceIsOneElement(s: string, x: nat, p: nat, c: nat, tri: bool)
    requires SpliceSize(s, x, tri) == c - x > 0
    requires p < c <= |s| && Between(s, p, tri) && Width(s[p..], tri) == c - p
    ensures x == p
  {
    hide SpliceSize;
    hide PhaseOneWidth;
    SpliceIsElement(s, x, p, tri);
    SpliceShift(s, p, tri);
    if p < x {
      if SpliceSize(s, p, tri) > 0 {
        SplicesDisjoint(s, p, x, tri);
      } else {
        InsideTrigraph(s[p..], tri);
        SpliceShift(s, x, tri);
        DropDrop(s, p, x);
      }
    }
  }

  lemma PrefixGrows(s: string, p: nat, c: nat, tri: bool)
    requires p < c <= |s| && Between(s, p, tri) && Width(s[p..], tri) == c - p
    ensures Normalize(s[..c], tri) == Normalize(s[..p], tri) + Text(s[p..], tri)
  {
    hide Normalize;
    hide Width;
    hide Text;
    BetweenInPrefix(s, p, c, tri);
    CutBetween(s[..c], p, tri);
    assert s[..c][..p] == s[..p] && s[..c][p..] == s[p..][..c - p];
    ElementOfPrefix(s[p..], c - p, tri);
    NormalizeStep(s[p..][..c - p], tri);
    NormalizeStep("", tri);
    assert s[p..][..c - p][c - p..] == "";
  }

  lemma {:induction false} BetweenInPrefix(s: string, p: nat, c: nat, tri: bool)
    requires Between(s, p, tri) && p <= c <= |s|
    ensures Between(s[..c], p, tri)
    decreases |s|
  {
    hide Width;
    if p > 0 {
      var w := Width(s, tri);
      ElementOfPrefix(s, c, tri);
      BetweenInPrefix(s[w..], p - w, c - w, tri);
      assert s[..c][w..] == s[w..][..c - w];
    }
  }

  // ---------------------------------------------------------------- spans are words

  predicate AllIdent(text: string) {
    forall i :: 0 <= i < |text| ==> IsIdentifierByte(text[i])
  }

  lemma {:induction false} SpanTextIsIdent(s: string, c: nat, end: nat, tri: bool)
    requires c <= end <= |s| && Reading(s, c, end, tri)
    ensures AllIdent(Normalize(s[c..end], tri))
    decreases end - c
  {
    hide Normalize;
    hide SpliceSize;
    hide Reading;
    hide IsIdentifierByte;
    if c == end {
      assert s[c..end] == "";
      NormalizeStep("", tri);
    } else {
      ReadingStep(s, c, end, tri);
      var w := SpliceSize(s[..end], c, tri);
      SpanTextIsIdent(s, if w > 0 then c + w else c + 1, end, tri);
    }
  }

  lemma CutTwice(s: string, a: nat, e: nat, tri: bool)
    requires a <= e <= |s| && Between(s, a, tri) && Between(s, e, tri)
    ensures Normalize(s, tri) == Normalize(s[..a], tri) + Normalize(s[a..e], tri) + Normalize(s[e..], tri)
  {
    hide Normalize;
    hide Between;
    BetweenInPrefix(s, a, e, tri);
    CutBetween(s, e, tri);
    CutBetween(s[..e], a, tri);
    assert s[..e][..a] == s[..a] && s[..e][a..] == s[a..e];
  }

  // The normalized text, cut around a span, and what the span borders on there.
  lemma CutAroundSpan(s: string, i: nat, tri: bool)
    requires IdentAt(s, i)
    ensures var span := SpanOf(s, i, tri);
      var before, word, behind :=
        Normalize(s[..span.start], tri), Normalize(s[span.start..span.end], tri), Normalize(s[span.end..], tri);
      && Normalize(s, tri) == before + word + behind
      && word != ""
      && AllIdent(word)
      && (EndsWithIdent(before) <==> IdentAt(s, SkipSplicesBack(s, span.start, tri) - 1))
      && (StartsWithIdent(behind) <==> IdentAt(s, SkipSplices(s, span.end, |s|, tri)))
  {
    hide Normalize;
    hide SpliceSize;
    hide SpliceBefore;
    hide IsIdentifierByte;
    hide Between;
    hide AllIdent;
    hide SkipSplices;
    hide SkipSplicesBack;
    hide Next;
    hide Prev;
    var a, e := First(s, i, tri), Last(s, i, tri) + 1;
    LastOfFirst(s, i, tri);
    IdentIsBetween(s, a, tri);
    IdentIsBetween(s, e - 1, tri);
    CutTwice(s, a, e, tri);
    StartReading(s, a, e, tri);
    SpanTextIsIdent(s, a, e, tri);
    IdentInFront(s, a, tri);
    IdentBehind(s, e, tri);
  }

  lemma OneSplice(s: string, c: nat, tri: bool)
    ensures var w := SpliceSize(s, c, tri);
      SpliceSize(s, c + w, tri) == 0 ==> SkipSplices(s, c, |s|, tri) == c + w
    ensures var w := SpliceBefore(s, c, tri);
      SpliceBefore(s, c - w, tri) == 0 ==> SkipSplicesBack(s, c, tri) == c - w
  {
    hide SpliceBefore;
    var w := SpliceSize(s, c, tri);
    assert SkipSplices(s, c, |s|, tri) == if w > 0 then SkipSplices(s, c + w, |s|, tri) else c;
    var v := SpliceBefore(s, c, tri);
    assert SkipSplicesBack(s, c, tri) == if v > 0 then SkipSplicesBack(s, c - v, tri) else c;
  }

  lemma SpanEnds(s: string, a: nat, e: nat, tri: bool)
    requires 0 < e <= |s| && a < |s| && Next(s, e - 1, tri) == |s| && Prev(s, a, tri) < 0
    ensures !IdentAt(s, e) && !IdentAt(s, e + SpliceSize(s, e, tri))
    ensures !IdentAt(s, a - 1) && !IdentAt(s, a - SpliceBefore(s, a, tri) - 1)
  {
    hide SpliceSize;
    hide SpliceBefore;
    hide IsIdentifierByte;
  }

  // When a span is not a whole word, two adjacent splices are to blame.
  lemma CutByTwoSplices(s: string, i: nat, tri: bool)
    requires IdentAt(s, i)
    ensures var end := SpanOf(s, i, tri).end;
      IdentAt(s, SkipSplices(s, end, |s|, tri)) ==>
        SpliceSize(s, end, tri) > 0 && SpliceSize(s, end + SpliceSize(s, end, tri), tri) > 0
    ensures var start := SpanOf(s, i, tri).start;
      IdentAt(s, SkipSplicesBack(s, start, tri) - 1) ==>
        SpliceBefore(s, start, tri) > 0 && SpliceBefore(s, start - SpliceBefore(s, start, tri), tri) > 0
  {
    hide SpliceSize;
    hide SpliceBefore;
    hide IsIdentifierByte;
    hide SkipSplices;
    hide SkipSplicesBack;
    hide Next;
    hide Prev;
    var a: nat, e: nat := First(s, i, tri), Last(s, i, tri) + 1;
    SpanEnds(s, a, e, tri);
    OneSplice(s, a, tri);
    OneSplice(s, e, tri);
  }

  // It does happen: one identifier over two adjacent splices is found as two.
  lemma TwoSplicesCutAName()
    ensures var s := "a\\\n\\\nb";
      Normalize(s, false) == "ab" && IdentAt(s, 0) && SpanOf(s, 0, false) == Span(0, 1)
  {
    var s := "a\\\n\\\nb";
    assert RemoveSplices("b") == "b" by { assert "b"[1..] == ""; }
    assert RemoveSplices("\\\nb") == "b" by { assert "\\\nb"[2..] == "b"; }
    assert RemoveSplices("\\\n\\\nb") == "b" by { assert "\\\n\\\nb"[2..] == "\\\nb"; }
    assert s[1..] == "\\\n\\\nb";
    assert SpliceSize(s, 1, false) == 2;
    assert Next(s, 0, false) == |s|;
  }
}
