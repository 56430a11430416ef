/**
 When the identifier found in the source is the whole word of the normalized text.
 */
module WordRuns {
  import opened Conditionals
  import opened IdentifierSpans
  import opened LogicalLines
  import opened OffsetMap
  import opened Phases
  import opened SpanWords

  // ---------------------------------------------------------------- words of a text

  // The run of identifier bytes around `k`.
  function RunStart(n: string, k: nat): (l: nat)
    requires k <= |n|
    ensures l <= k
  {
    if k > 0 && IsIdentifierByte(n[k - 1]) then RunStart(n, k - 1) else k
  }

  function RunEnd(n: string, k: nat): (r: nat)
    requires k <= |n|
    ensures k <= r <= |n|
    decreases |n| - k
  {
    if k < |n| && IsIdentifierByte(n[k]) then RunEnd(n, k + 1) else k
  }

  predicate IdentFrom(n: string, l: nat, r: nat) {
    l <= r <= |n| && forall i :: l <= i < r ==> IsIdentifierByte(n[i])
  }

  // Bytes of an identifier, in one row, and no further one on either side.
  predicate IsWord(n: string, l: nat, r: nat) {
    && IdentFrom(n, l, r)
    && (l > 0 ==> !IsIdentifierByte(n[l - 1]))
    && (r < |n| ==> !IsIdentifierByte(n[r]))
  }

  lemma {:induction false} RunStartIsFar(n: string, k: nat, l: nat)
    requires IdentFrom(n, l, k)
    ensures RunStart(n, k) <= l && IdentFrom(n, RunStart(n, k), k)
    ensures RunStart(n, k) > 0 ==> !IsIdentifierByte(n[RunStart(n, k) - 1])
    decreases k
  {
    hide IsIdentifierByte;
    if k > 0 && IsIdentifierByte(n[k - 1]) {
      RunStartIsFar(n, k - 1, if l < k then l else k - 1);
    }
  }

  lemma {:induction false} RunEndIsFar(n: string, k: nat, r: nat)
    requires IdentFrom(n, k, r)
    ensures r <= RunEnd(n, k) && IdentFrom(n, k, RunEnd(n, k))
    ensures RunEnd(n, k) < |n| ==> !IsIdentifierByte(n[RunEnd(n, k)])
    decreases |n| - k
  {
    hide IsIdentifierByte;
    if k < |n| && IsIdentifierByte(n[k]) {
      RunEndIsFar(n, k + 1, if k < r then r else k + 1);
    }
  }

  // The run is the one word around the byte.
  lemma WordIsRun(n: string, k: nat, l: nat, r: nat)
    requires l <= k < r <= |n|
    ensures IsWord(n, l, r) <==> IsIdentifierByte(n[k]) && l == RunStart(n, k) && r == RunEnd(n, k)
  {
    hide IsIdentifierByte;
    hide RunStart;
    hide RunEnd;
    if IsWord(n, l, r) {
      RunStartIsFar(n, k, l);
      RunEndIsFar(n, k, r);
    }
    if IsIdentifierByte(n[k]) {
      RunStartIsFar(n, k, k);
      RunEndIsFar(n, k, k + 1);
    }
  }

  // ---------------------------------------------------------------- splices in the source

  // The splices in a row at `c`.
  function SpliceCount(s: string, c: nat, tri: bool): (n: nat)
    decreases |s| - c
  {
    if SpliceSize(s, c, tri) > 0 then 1 + SpliceCount(s, c + SpliceSize(s, c, tri), tri) else 0
  }

  lemma {:induction false} CountFromFront(s: string, c: nat, tri: bool)
    requires c <= |s|
    ensures SpliceCount(s, SkipSplicesBack(s, c, tri), tri) >= SpliceCount(s, c, tri)
    ensures
      var w := SpliceBefore(s, c, tri);
      w > 0 ==> SpliceCount(s, c - w, tri) == 1 + SpliceCount(s, c, tri)
  {
    hide SpliceSize;
    hide SpliceBefore;
    var w := SpliceBefore(s, c, tri);
    if w > 0 {
      CountFromFront(s, c - w, tri);
    }
  }

  // ---------------------------------------------------------------- positions

  // How many bytes of the normalized text the source has in front of `p`.
  function Position(s: string, p: nat, tri: bool): nat
    requires p <= |s|
  {
    |Normalize(s[..p], tri)|
  }

  // An identifier byte is its own character in the normalized text.
  lemma IdentPosition(s: string, p: nat, tri: bool)
    requires IdentAt(s, p)
    ensures Position(s, p + 1, tri) == Position(s, p, tri) + 1 <= |Normalize(s, tri)|
    ensures Normalize(s, tri)[Position(s, p, tri)] == s[p]
  {
    hide Normalize;
    hide SpliceSize;
    hide Between;
    hide IsIdentifierByte;
    IdentIsBetween(s, p, tri);
    PlainByte(s[p..], tri);
    PrefixGrows(s, p, p + 1, tri);
    CutBetween(s, p + 1, tri);
  }

  lemma PositionsGrow(s: string, p: nat, q: nat, tri: bool)
    requires p <= q <= |s| && Between(s, p, tri) && Between(s, q, tri)
    ensures Position(s, p, tri) <= Position(s, q, tri)
  {
    hide Normalize;
    hide Between;
    CutTwice(s, p, q, tri);
    BetweenInPrefix(s, p, q, tri);
    CutBetween(s[..q], p, tri);
    assert s[..q][..p] == s[..p];
  }

  lemma IdentPositionsGrow(s: string, p: nat, q: nat, tri: bool)
    requires p < q && IdentAt(s, p) && IdentAt(s, q)
    ensures Position(s, p, tri) < Position(s, q, tri)
  {
    hide Position;
    hide Between;
    IdentPosition(s, p, tri);
    IdentIsBetween(s, p, tri);
    IdentIsBetween(s, q, tri);
    PositionsGrow(s, p + 1, q, tri);
  }

  // ---------------------------------------------------------------- inside a span

  // Every identifier byte between two bytes of a span is one of its bytes.
  lemma {:induction false} InSpan(s: string, c: nat, p: nat, tri: bool)
    requires IdentAt(s, c) && IdentAt(s, p) && c <= p <= Last(s, c, tri)
    ensures Last(s, p, tri) == Last(s, c, tri)
    decreases |s| - c
  {
    hide SpliceSize;
    hide IsIdentifierByte;
    if c < p {
      var next := Next(s, c, tri);
      if p < next {
        NoIdentInSplice(s, c + 1, p, tri);
      }
      InSpan(s, next, p, tri);
    }
  }

  // In front of every byte of a span but the first there is at most one splice.
  lemma InSpanOneSplice(s: string, p: nat, tri: bool)
    requires IdentAt(s, p) && Next(s, p, tri) < |s|
    ensures SpliceCount(s, p + 1, tri) <= 1
  {
    hide SpliceSize;
    hide IsIdentifierByte;
    var next := Next(s, p, tri);
    if SpliceSize(s, next, tri) > 0 {
      NoIdentInSplice(s, next, next, tri);
    }
  }

  // ---------------------------------------------------------------- whole words

  // Two neighbouring bytes of a word are never separated by two splices or more.
  predicate IsJoined(s: string, l: nat, r: nat, tri: bool) {
    forall p | 0 <= p < |s| && IdentAt(s, p) && l <= Position(s, p, tri) && Position(s, p, tri) + 1 < r :: SpliceCount(s, p + 1, tri) <= 1
  }

  // The span found in the source stands for a part of the word around its byte.
  lemma SpanIsInWord(s: string, i: nat, tri: bool)
    requires IdentAt(s, i)
    ensures
      var n, k, span := Normalize(s, tri), Position(s, i, tri), SpanOf(s, i, tri);
      var l, r := Position(s, span.start, tri), Position(s, span.end, tri);
      && k < |n| && n[k] == s[i]
      && RunStart(n, k) <= l <= k < r <= RunEnd(n, k) <= |n|
      && Normalize(s[span.start..span.end], tri) == n[l..r]
      && Normalize(s[..span.start], tri) == n[..l] && Normalize(s[span.end..], tri) == n[r..]
      && (EndsWithIdent(n[..l]) <==> RunStart(n, k) < l)
      && (StartsWithIdent(n[r..]) <==> r < RunEnd(n, k))
  {
    hide *;
    IdentIsIdent(s, i);
    var n, k, span := Normalize(s, tri), Position(s, i, tri), SpanOf(s, i, tri);
    IdentPosition(s, i, tri);
    CutAroundSpan(s, i, tri);
    SpanAround(s, i, tri);
    PartOfRun(Normalize(s[..span.start], tri), Normalize(s[span.start..span.end], tri), Normalize(s[span.end..], tri), n, k);
  }

  lemma PartOfRun(before: string, word: string, behind: string, n: string, k: nat)
    requires n == before + word + behind && AllIdent(word) && |before| <= k < |before + word|
    ensures
      var l, r := |before|, |before + word|;
      && RunStart(n, k) <= l <= k < r <= RunEnd(n, k) <= |n|
      && n[..l] == before && n[l..r] == word && n[r..] == behind
      && (EndsWithIdent(before) <==> RunStart(n, k) < l)
      && (StartsWithIdent(behind) <==> r < RunEnd(n, k))
  {
    hide IsIdentifierByte;
    hide RunStart;
    hide RunEnd;
    var l, r := |before|, |before + word|;
    assert forall j :: l <= j < r ==> n[j] == word[j - l];
    assert before != "" ==> n[l - 1] == before[l - 1];
    assert behind != "" ==> n[r] == behind[0];
    RunStartIsFar(n, k, l);
    RunEndIsFar(n, k, r);
  }

  lemma SpanAround(s: string, i: nat, tri: bool)
    requires IdentAt(s, i)
    ensures
      var span := SpanOf(s, i, tri);
      && Position(s, span.start, tri) <= Position(s, i, tri) < Position(s, span.end, tri)
      && Position(s, span.start, tri) == |Normalize(s[..span.start], tri)|
      && Position(s, span.end, tri) == |Normalize(s[..span.start], tri) + Normalize(s[span.start..span.end], tri)|
  {
    hide Normalize;
    hide Between;
    hide IsIdentifierByte;
    hide First;
    hide Last;
    var a, e := First(s, i, tri), Last(s, i, tri) + 1;
    IdentIsBetween(s, a, tri);
    IdentIsBetween(s, i, tri);
    IdentIsBetween(s, e - 1, tri);
    IdentPosition(s, i, tri);
    PositionsGrow(s, a, i, tri);
    PositionsGrow(s, i + 1, e, tri);
    BetweenInPrefix(s, a, e, tri);
    CutBetween(s[..e], a, tri);
    assert s[..e][..a] == s[..a] && s[..e][a..] == s[a..e];
  }

  // The span found for a byte is the whole word around it exactly when no two neighbouring bytes of
  // the word are separated by two splices or more.
  lemma SpanIsWordIff(s: string, i: nat, tri: bool)
    requires IdentAt(s, i)
    ensures
      var n, k, span := Normalize(s, tri), Position(s, i, tri), SpanOf(s, i, tri);
      && k < |n| && n[k] == s[i]
      && var l, r := RunStart(n, k), RunEnd(n, k);
      && l <= k < r && IsWord(n, l, r)
      && (Position(s, span.start, tri) == l && Position(s, span.end, tri) == r <==> IsJoined(s, l, r, tri))
  {
    hide *;
    IdentIsIdent(s, i);
    SpanIsInWord(s, i, tri);
    var n, k, span := Normalize(s, tri), Position(s, i, tri), SpanOf(s, i, tri);
    var l, r := RunStart(n, k), RunEnd(n, k);
    WordIsRun(n, k, l, r);
    if Position(s, span.start, tri) == l && Position(s, span.end, tri) == r {
      WordIsJoined(s, i, tri);
    } else {
      CutWordIsNotJoined(s, i, tri);
    }
  }

  lemma IdentIsIdent(s: string, i: nat)
    requires IdentAt(s, i)
    ensures i < |s| && IsIdentifierByte(s[i])
  {}

  lemma CutWordIsNotJoined(s: string, i: nat, tri: bool)
    requires IdentAt(s, i)
    ensures
      var n, k, span := Normalize(s, tri), Position(s, i, tri), SpanOf(s, i, tri);
      var l, r := Position(s, span.start, tri), Position(s, span.end, tri);
      k < |n| && (!(l == RunStart(n, k) && r == RunEnd(n, k)) ==> !IsJoined(s, RunStart(n, k), RunEnd(n, k), tri))
  {
    hide *;
    SpanIsInWord(s, i, tri);
    var n, k, span := Normalize(s, tri), Position(s, i, tri), SpanOf(s, i, tri);
    var l, r := Position(s, span.start, tri), Position(s, span.end, tri);
    if EndsWithIdent(n[..l]) {
      CutInFront(s, i, tri);
      var p := SkipSplicesBack(s, span.start, tri) - 1;
      assert RunStart(n, k) <= Position(s, p, tri) && Position(s, p, tri) + 1 < RunEnd(n, k);
      NotJoinedAt(s, p, RunStart(n, k), RunEnd(n, k), tri);
    } else if StartsWithIdent(n[r..]) {
      CutBehind(s, i, tri);
      var p := span.end - 1;
      assert RunStart(n, k) <= Position(s, p, tri) && Position(s, p, tri) + 1 < RunEnd(n, k);
      NotJoinedAt(s, p, RunStart(n, k), RunEnd(n, k), tri);
    }
  }

  lemma NotJoinedAt(s: string, p: nat, l: nat, r: nat, tri: bool)
    requires IdentAt(s, p) && SpliceCount(s, p + 1, tri) >= 2
    requires l <= Position(s, p, tri) && Position(s, p, tri) + 1 < r
    ensures !IsJoined(s, l, r, tri)
  {}

  // In a span that is a whole word every neighbour is reached over one splice at most.
  lemma WordIsJoined(s: string, i: nat, tri: bool)
    requires IdentAt(s, i)
    ensures var span := SpanOf(s, i, tri); IsJoined(s, Position(s, span.start, tri), Position(s, span.end, tri), tri)
  {
    hide Position;
    hide IsIdentifierByte;
    hide First;
    hide Last;
    hide Next;
    hide SpliceCount;
    var a, b := First(s, i, tri), Last(s, i, tri);
    LastOfFirst(s, i, tri);
    var l, r := Position(s, a, tri), Position(s, b + 1, tri);
    IdentPosition(s, b, tri);
    forall p: nat | IdentAt(s, p) && l <= Position(s, p, tri) && Position(s, p, tri) + 1 < r
      ensures SpliceCount(s, p + 1, tri) <= 1
    {
      if p < a {
        IdentPositionsGrow(s, p, a, tri);
      } else if b < p {
        IdentPositionsGrow(s, b, p, tri);
      } else {
        InSpan(s, a, p, tri);
        LastIsLast(s, p, tri);
        InSpanOneSplice(s, p, tri);
      }
    }
  }

  // A byte that is not the last of its span has a next one.
  lemma LastIsLast(s: string, p: nat, tri: bool)
    requires IdentAt(s, p)
    ensures Next(s, p, tri) == |s| ==> Last(s, p, tri) == p
  {}

  // Splices leave nothing in the normalized text.
  lemma {:induction false} PositionOverSplices(s: string, c: nat, tri: bool)
    requires c <= |s| && Between(s, c, tri)
    ensures Position(s, SkipSplicesBack(s, c, tri), tri) == Position(s, c, tri)
    decreases c
  {
    hide Normalize;
    hide SpliceSize;
    hide SpliceBefore;
    hide Between;
    var w := SpliceBefore(s, c, tri);
    if w > 0 {
      SpliceIsElement(s, c - w, c, tri);
      SpliceShift(s, c - w, tri);
      PrefixGrows(s, c - w, c, tri);
      PositionOverSplices(s, c - w, tri);
    }
  }

  // A word that goes on in front of its span, or behind it, goes on over two splices.
  lemma CutInFront(s: string, i: nat, tri: bool)
    requires IdentAt(s, i) && EndsWithIdent(Normalize(s[..SpanOf(s, i, tri).start], tri))
    ensures
      var p := SkipSplicesBack(s, SpanOf(s, i, tri).start, tri) - 1;
      && p >= 0 && IdentAt(s, p) && SpliceCount(s, p + 1, tri) >= 2
      && Position(s, p, tri) + 1 == Position(s, SpanOf(s, i, tri).start, tri)
  {
    hide Normalize;
    hide Position;
    hide SpliceBefore;
    hide SpliceSize;
    hide SpliceCount;
    hide IsIdentifierByte;
    hide First;
    hide Last;
    hide SkipSplicesBack;
    hide SkipSplices;
    hide Between;
    var a := First(s, i, tri);
    CutAroundSpan(s, i, tri);
    CutByTwoSplices(s, i, tri);
    TwoInFront(s, a, tri);
    IdentIsBetween(s, a, tri);
    PositionOverSplices(s, a, tri);
    IdentPosition(s, SkipSplicesBack(s, a, tri) - 1, tri);
  }

  lemma TwoInFront(s: string, a: nat, tri: bool)
    requires a <= |s| && SpliceBefore(s, a, tri) > 0 && SpliceBefore(s, a - SpliceBefore(s, a, tri), tri) > 0
    ensures SpliceCount(s, SkipSplicesBack(s, a, tri), tri) >= 2
  {
    hide SpliceBefore;
    hide SpliceSize;
    hide SpliceCount;
    var c := a - SpliceBefore(s, a, tri);
    var d := c - SpliceBefore(s, c, tri);
    CountFromFront(s, a, tri);
    CountFromFront(s, c, tri);
    CountFromFront(s, d, tri);
    assert SkipSplicesBack(s, a, tri) == SkipSplicesBack(s, c, tri) == SkipSplicesBack(s, d, tri);
  }

  lemma CutBehind(s: string, i: nat, tri: bool)
    requires IdentAt(s, i) && StartsWithIdent(Normalize(s[SpanOf(s, i, tri).end..], tri))
    ensures
      var p := SpanOf(s, i, tri).end - 1;
      && IdentAt(s, p) && SpliceCount(s, p + 1, tri) >= 2
      && Position(s, p, tri) + 1 == Position(s, SpanOf(s, i, tri).end, tri)
  {
    hide Normalize;
    hide Position;
    hide SpliceSize;
    hide IsIdentifierByte;
    hide First;
    hide Last;
    CutAroundSpan(s, i, tri);
    CutByTwoSplices(s, i, tri);
    IdentPosition(s, SpanOf(s, i, tri).end - 1, tri);
  }
}
