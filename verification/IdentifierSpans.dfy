/**
 The identifier under a cursor, when the identifier may be interrupted by line splices.
 */
module IdentifierSpans {
  import opened Phases
  import opened LogicalLines
  import opened Conditionals

  // ---------------------------------------------------------------- neighbours in a span

  predicate IdentAt(s: string, i: int) {
    0 <= i < |s| && IsIdentifierByte(s[i])
  }

  // The identifier byte that follows the one at `i`, directly or behind one splice; |s| for none.
  function Next(s: string, i: nat, tri: bool): (j: nat)
    requires i < |s|
    ensures i < j <= |s| && (j < |s| ==> IdentAt(s, j))
  {
    if IdentAt(s, i + 1) then i + 1
    else
      var w := SpliceSize(s, i + 1, tri);
      if w > 0 && IdentAt(s, i + 1 + w) then i + 1 + w else |s|
  }

  // The identifier byte in front of the one at `i`, directly or before one splice; -1 for none.
  function Prev(s: string, i: nat, tri: bool): (j: int)
    requires i < |s|
    ensures -1 <= j < i && (j >= 0 ==> IdentAt(s, j))
  {
    if IdentAt(s, i - 1) then i - 1
    else
      var w := SpliceBefore(s, i, tri);
      if w > 0 && IdentAt(s, i - w - 1) then i - w - 1 else -1
  }

  // Identifier bytes occur in no splice.
  lemma NoIdentInSplice(s: string, x: nat, p: nat, tri: bool)
    requires x <= p < x + SpliceSize(s, x, tri)
    ensures p < |s| && !IdentAt(s, p)
  {
    InsideSplice(s, x, p, tri);
  }

  lemma NextPrev(s: string, i: nat, j: nat, tri: bool)
    requires IdentAt(s, i) && IdentAt(s, j)
    ensures Next(s, i, tri) == j <==> Prev(s, j, tri) == i
  {
    hide SpliceSize;
    hide SpliceBefore;
    hide IsIdentifierByte;
    if Next(s, i, tri) == j && j != i + 1 {
      var w := SpliceSize(s, i + 1, tri);
      SpliceBeforeIsComplete(s, i + 1, tri);
      NoIdentInSplice(s, i + 1, j - 1, tri);
    }
    if Prev(s, j, tri) == i && j != i + 1 {
      NoIdentInSplice(s, i + 1, i + 1, tri);
    }
  }

  // ---------------------------------------------------------------- the ends of a span

  function First(s: string, i: nat, tri: bool): (a: nat)
    requires IdentAt(s, i)
    ensures a <= i && IdentAt(s, a) && Prev(s, a, tri) < 0
  {
    if Prev(s, i, tri) < 0 then i else First(s, Prev(s, i, tri), tri)
  }

  function Last(s: string, i: nat, tri: bool): (b: nat)
    requires IdentAt(s, i)
    ensures i <= b && IdentAt(s, b) && Next(s, b, tri) == |s|
    decreases |s| - i
  {
    if Next(s, i, tri) == |s| then i else Last(s, Next(s, i, tri), tri)
  }

  lemma {:induction false} LastOfFirst(s: string, i: nat, tri: bool)
    requires IdentAt(s, i)
    ensures Last(s, First(s, i, tri), tri) == Last(s, i, tri)
  {
    hide Next;
    hide Prev;
    var p := Prev(s, i, tri);
    if p >= 0 {
      NextPrev(s, p, i, tri);
      LastOfFirst(s, p, tri);
    }
  }

  datatype Span = Span(start: nat, end: nat)

  // The span of the identifier byte at `i`.
  function SpanOf(s: string, i: nat, tri: bool): (span: Span)
    requires IdentAt(s, i)
    ensures span.start <= i < span.end <= |s|
  {
    Span(First(s, i, tri), Last(s, i, tri) + 1)
  }

  // ---------------------------------------------------------------- the byte a cursor selects

  // A splice around the cursor with identifier bytes on both sides.
  predicate Bridges(s: string, cursor: nat, x: nat, tri: bool) {
    var w := SpliceSize(s, x, tri);
    w > 0 && x <= cursor <= x + w && IdentAt(s, x - 1) && IdentAt(s, x + w)
  }

  // The first such splice from `x` on, as the position of the byte in front of it; -1 for none.
  function BridgeFrom(s: string, cursor: nat, x: nat, tri: bool): int
    decreases cursor - x
  {
    if x > cursor || x >= |s| then -1
    else if Bridges(s, cursor, x, tri) then x - 1
    else BridgeFrom(s, cursor, x + 1, tri)
  }

  function Selected(s: string, cursor: nat, tri: bool): (i: int)
    ensures i >= 0 ==> IdentAt(s, i)
  {
    if IdentAt(s, cursor) then cursor
    else if IdentAt(s, cursor - 1) then cursor - 1
    else
      var i := BridgeFrom(s, cursor, if cursor > 5 then cursor - 5 else 0, tri);
      BridgeIsIdent(s, cursor, if cursor > 5 then cursor - 5 else 0, tri);
      i
  }

  lemma {:induction false} BridgeIsIdent(s: string, cursor: nat, x: nat, tri: bool)
    ensures BridgeFrom(s, cursor, x, tri) >= 0 ==> IdentAt(s, BridgeFrom(s, cursor, x, tri))
    decreases cursor - x
  {
    if x <= cursor && x < |s| && !Bridges(s, cursor, x, tri) {
      BridgeIsIdent(s, cursor, x + 1, tri);
    }
  }

  // Only one splice can bridge a cursor that stands strictly inside it.
  lemma {:induction false} BridgeFinds(s: string, cursor: nat, x: nat, target: nat, tri: bool)
    requires x <= target < cursor < target + SpliceSize(s, target, tri)
    requires Bridges(s, cursor, target, tri)
    ensures BridgeFrom(s, cursor, x, tri) == target - 1
    decreases target - x
  {
    hide SpliceSize;
    if x < target {
      if SpliceSize(s, x, tri) > 0 {
        SplicesDisjoint(s, x, target, tri);
      }
      BridgeFinds(s, cursor, x + 1, target, tri);
    }
  }

  // The cursor is at a byte of the span of `i` from `i` on, in a splice of it, or behind its last byte.
  predicate Touches(s: string, i: nat, cursor: nat, tri: bool) {
    IdentAt(s, i) && i <= cursor <= Last(s, i, tri) + 1
  }

  // A byte is selected exactly where the cursor touches an identifier, and it is one of it.
  lemma SelectedIff(s: string, cursor: nat, tri: bool)
    ensures Selected(s, cursor, tri) >= 0 <==> exists i: nat :: Touches(s, i, cursor, tri)
    ensures Selected(s, cursor, tri) >= 0 ==>
      cursor <= |s| && Selected(s, cursor, tri) <= cursor <= Last(s, Selected(s, cursor, tri), tri) + 1
    ensures forall i: nat | Touches(s, i, cursor, tri) ::
      Selected(s, cursor, tri) >= 0 && SpanOf(s, Selected(s, cursor, tri), tri) == SpanOf(s, i, tri)
  {
    hide Selected;
    hide First;
    forall i: nat | Touches(s, i, cursor, tri)
      ensures Selected(s, cursor, tri) >= 0 && SpanOf(s, Selected(s, cursor, tri), tri) == SpanOf(s, i, tri)
    {
      CursorInSpan(s, i, cursor, tri);
    }
    SelectedTouches(s, cursor, tri);
  }

  lemma SelectedTouches(s: string, cursor: nat, tri: bool)
    ensures Selected(s, cursor, tri) >= 0 ==> Touches(s, Selected(s, cursor, tri), cursor, tri) && cursor <= |s|
  {
    hide SpliceSize;
    hide IsIdentifierByte;
    hide Last;
    if Selected(s, cursor, tri) >= 0 && !IdentAt(s, cursor) && !IdentAt(s, cursor - 1) {
      BridgeTouches(s, cursor, if cursor > 5 then cursor - 5 else 0, tri);
    }
  }

  lemma {:induction false} BridgeTouches(s: string, cursor: nat, x: nat, tri: bool)
    requires BridgeFrom(s, cursor, x, tri) >= 0
    ensures Touches(s, BridgeFrom(s, cursor, x, tri), cursor, tri) && cursor <= |s|
    decreases cursor - x
  {
    hide SpliceSize;
    hide IsIdentifierByte;
    if Bridges(s, cursor, x, tri) {
      NoIdentInSplice(s, x, x, tri);
      assert Next(s, x - 1, tri) == x + SpliceSize(s, x, tri);
    } else {
      BridgeTouches(s, cursor, x + 1, tri);
    }
  }

  // ---------------------------------------------------------------- the span at a cursor

  datatype Found = NotFound | Found(span: Span, logicalLength: nat)

  method SpanAt(s: string, cursor: nat, tri: bool) returns (r: Found)
    ensures cursor <= |s| && Selected(s, cursor, tri) >= 0 ==>
      var span := SpanOf(s, Selected(s, cursor, tri), tri);
      r == Found(span, |Normalize(s[span.start..span.end], tri)|)
    ensures cursor > |s| || Selected(s, cursor, tri) < 0 ==> r == NotFound
    ensures r.Found? <==> exists i: nat :: Touches(s, i, cursor, tri)
    ensures r.Found? ==> r.span.start <= cursor <= r.span.end
    ensures forall i: nat | Touches(s, i, cursor, tri) ::
      var span := SpanOf(s, i, tri);
      r == Found(span, |Normalize(s[span.start..span.end], tri)|)
  {
    hide SpliceSize;
    hide SpliceBefore;
    hide IsIdentifierByte;
    SelectedIff(s, cursor, tri);
    hide Touches;
    if cursor > |s| {
      return NotFound;
    }
    var selected := SelectAt(s, cursor, tri);
    if selected < 0 {
      return NotFound;
    }
    var start := ScanStart(s, selected, tri);
    var end := ScanEnd(s, selected, tri);
    LastOfFirst(s, selected, tri);
    var logicalLength := CountBytes(s, start, end, tri);
    r := Found(Span(start, end), logicalLength);
  }

  method SelectAt(s: string, cursor: nat, tri: bool) returns (selected: int)
    requires cursor <= |s|
    ensures selected == Selected(s, cursor, tri)
  {
    hide SpliceSize;
    if cursor < |s| && IsIdentifierByte(s[cursor]) {
      return cursor;
    }
    if cursor > 0 && IsIdentifierByte(s[cursor - 1]) {
      return cursor - 1;
    }
    var candidate: nat := if cursor > 5 then cursor - 5 else 0;
    while candidate <= cursor && candidate < |s|
      invariant BridgeFrom(s, cursor, candidate, tri) == Selected(s, cursor, tri)
    {
      var w := SpliceSize(s, candidate, tri);
      if && w > 0 && candidate > 0
         && candidate + w < |s|
         && candidate <= cursor <= candidate + w
         && IsIdentifierByte(s[candidate - 1])
         && IsIdentifierByte(s[candidate + w])
      {
        return candidate - 1;
      }
      candidate := candidate + 1;
    }
    selected := -1;
  }

  // Scanning towards the start, `start` is a byte of the span or the first byte of a splice in it.
  predicate TowardsStart(s: string, start: nat, first: nat, tri: bool) {
    || (IdentAt(s, start) && First(s, start, tri) == first)
    || (IdentAt(s, start - 1) && First(s, start - 1, tri) == first)
  }

  lemma StartsTowardsStart(s: string, selected: nat, tri: bool)
    requires IdentAt(s, selected)
    ensures TowardsStart(s, selected, First(s, selected, tri), tri)
  {}

  // One more byte, or one splice, towards the start.
  lemma StepsTowardsStart(s: string, start: nat, first: nat, tri: bool)
    requires TowardsStart(s, start, first, tri)
    ensures IdentAt(s, start - 1) ==> TowardsStart(s, start - 1, first, tri)
    ensures
      var w := SpliceBefore(s, start, tri);
      !IdentAt(s, start - 1) ==>
        if w > 0 && IdentAt(s, start - w - 1) then TowardsStart(s, start - w, first, tri) else start == first
  {
    hide SpliceBefore;
    hide IsIdentifierByte;
  }

  method ScanStart(s: string, selected: nat, tri: bool) returns (start: nat)
    requires IdentAt(s, selected)
    ensures start == First(s, selected, tri)
  {
    hide SpliceSize;
    hide SpliceBefore;
    hide IsIdentifierByte;
    hide TowardsStart;
    ghost var first := First(s, selected, tri);
    start := selected;
    StartsTowardsStart(s, selected, tri);
    while true
      invariant start < |s| && TowardsStart(s, start, first, tri)
      decreases start
    {
      while start > 0 && IsIdentifierByte(s[start - 1])
        invariant start < |s| && TowardsStart(s, start, first, tri)
      {
        StepsTowardsStart(s, start, first, tri);
        start := start - 1;
      }
      StepsTowardsStart(s, start, first, tri);
      var found, spliceStart := LineSpliceBefore(s, start, tri);
      if !found || spliceStart == 0 || !IsIdentifierByte(s[spliceStart - 1]) {
        return;
      }
      start := spliceStart;
    }
  }

  // Scanning towards the end, the byte before `end` is one of the span, or `end` is behind a
  // splice in it.
  predicate TowardsEnd(s: string, end: nat, last: nat, tri: bool) {
    || (IdentAt(s, end - 1) && Last(s, end - 1, tri) == last)
    || (IdentAt(s, end) && Last(s, end, tri) == last)
  }

  lemma StartsTowardsEnd(s: string, selected: nat, tri: bool)
    requires IdentAt(s, selected)
    ensures TowardsEnd(s, selected + 1, Last(s, selected, tri), tri)
  {}

  // One more byte, or one splice, towards the end.
  lemma StepsTowardsEnd(s: string, end: nat, last: nat, tri: bool)
    requires 0 < end <= |s| && TowardsEnd(s, end, last, tri)
    ensures IdentAt(s, end) ==> TowardsEnd(s, end + 1, last, tri)
    ensures
      var w := SpliceSize(s, end, tri);
      !IdentAt(s, end) ==>
        if w > 0 && IdentAt(s, end + w) then TowardsEnd(s, end + w, last, tri) else end == last + 1
  {
    hide SpliceSize;
    hide IsIdentifierByte;
  }

  method ScanEnd(s: string, selected: nat, tri: bool) returns (end: nat)
    requires IdentAt(s, selected)
    ensures end == Last(s, selected, tri) + 1
  {
    hide SpliceSize;
    hide IsIdentifierByte;
    hide TowardsEnd;
    ghost var last := Last(s, selected, tri);
    end := selected + 1;
    StartsTowardsEnd(s, selected, tri);
    while true
      invariant 0 < end <= |s| && TowardsEnd(s, end, last, tri)
      decreases |s| - end
    {
      while end < |s| && IsIdentifierByte(s[end])
        invariant 0 < end <= |s| && TowardsEnd(s, end, last, tri)
      {
        StepsTowardsEnd(s, end, last, tri);
        end := end + 1;
      }
      StepsTowardsEnd(s, end, last, tri);
      var w := SpliceSize(s, end, tri);
      if w == 0 || end + w >= |s| || !IsIdentifierByte(s[end + w]) {
        return;
      }
      end := end + w;
    }
  }

  // ---------------------------------------------------------------- the text of a span

  // Reading a span that ends at `end`, `c` is at one of its bytes, at a splice between two, or at
  // the end.
  predicate Reading(s: string, c: nat, end: nat, tri: bool) {
    || c == end
    || (IdentAt(s, c) && Last(s, c, tri) + 1 == end)
    || (IdentAt(s, c - 1) && Last(s, c - 1, tri) + 1 == end && !IdentAt(s, c) && Next(s, c - 1, tri) < |s|)
  }

  lemma PlainByte(s: string, tri: bool)
    requires s != "" && IsIdentifierByte(s[0])
    ensures SpliceSize(s, 0, tri) == 0 && Width(s, tri) == 1 && Text(s, tri) == [s[0]]
  {}

  // One round of reading: a splice leaves nothing, a byte leaves itself.
  lemma ReadingStep(s: string, c: nat, end: nat, tri: bool)
    requires c < end <= |s| && Reading(s, c, end, tri)
    ensures var w := SpliceSize(s[..end], c, tri);
      if w > 0 then
        && c + w < end
        && Reading(s, c + w, end, tri)
        && Normalize(s[c..end], tri) == Normalize(s[c + w..end], tri)
      else
        && IdentAt(s, c)
        && Reading(s, c + 1, end, tri)
        && Normalize(s[c..end], tri) == [s[c]] + Normalize(s[c + 1..end], tri)
  {
    hide Normalize;
    hide SpliceSize;
    hide IsIdentifierByte;
    NormalizeStep(s[c..end], tri);
    SpliceShift(s[..end], c, tri);
    assert s[..end][c..] == s[c..end];
    if IdentAt(s, c) {
      PlainByte(s[c..end], tri);
      assert s[c..end][1..] == s[c + 1..end];
      assert c + 1 < end ==> Next(s, c, tri) < |s|;
    } else {
      var w := SpliceSize(s, c, tri);
      SpliceInPrefix(s, c, end, tri);
      assert s[c..end][w..] == s[c + w..end];
    }
  }

  lemma SpliceInPrefix(s: string, c: nat, end: nat, tri: bool)
    requires c + SpliceSize(s, c, tri) <= end <= |s|
    ensures SpliceSize(s[..end], c, tri) == SpliceSize(s, c, tri)
  {}

  // The count of the source; its early return for a foreign byte is not reached in a span.
  method CountBytes(s: string, start: nat, end: nat, tri: bool) returns (count: nat)
    requires IdentAt(s, start) && Last(s, start, tri) + 1 == end
    ensures count == |Normalize(s[start..end], tri)| > 0
  {
    hide SpliceSize;
    hide Normalize;
    hide Reading;
    count := 0;
    var current := start;
    StartReading(s, start, end, tri);
    while current < end
      invariant start <= current <= end <= |s| && Reading(s, current, end, tri)
      invariant count + |Normalize(s[current..end], tri)| == |Normalize(s[start..end], tri)|
    {
      ReadingStep(s, current, end, tri);
      var w := SpliceSize(s[..end], current, tri);
      if w > 0 {
        current := current + w;
        continue;
      }
      count := count + 1;
      current := current + 1;
    }
    assert s[end..end] == "";
    NormalizeStep("", tri);
  }

  lemma StartReading(s: string, start: nat, end: nat, tri: bool)
    requires IdentAt(s, start) && Last(s, start, tri) + 1 == end
    ensures start < end <= |s| && Reading(s, start, end, tri) && Normalize(s[start..end], tri) != ""
  {
    hide Normalize;
    hide SpliceSize;
    NormalizeStep(s[start..end], tri);
    PlainByte(s[start..end], tri);
  }

  // A text that agrees with a name so far, and its next character.
  lemma OneMoreMatches(text: string, name: string, offset: nat, c: char, rest: string)
    requires offset < |name| && text == name[..offset] + ([c] + rest)
    ensures if c == name[offset] then text == name[..offset + 1] + rest else text != name
  {
    assert text[offset] == c;
  }

  method SpanMatches(s: string, span: Span, logicalLength: nat, name: string, tri: bool) returns (matches: bool)
    requires IdentAt(s, span.start) && Last(s, span.start, tri) + 1 == span.end
    requires logicalLength == |Normalize(s[span.start..span.end], tri)|
    ensures matches <==> Normalize(s[span.start..span.end], tri) == name
  {
    hide SpliceSize;
    hide Normalize;
    hide Reading;
    if logicalLength != |name| {
      return false;
    }
    var current, offset: nat := span.start, 0;
    StartReading(s, span.start, span.end, tri);
    while current < span.end
      invariant span.start <= current <= span.end <= |s| && Reading(s, current, span.end, tri)
      invariant offset + |Normalize(s[current..span.end], tri)| == |name|
      invariant Normalize(s[span.start..span.end], tri) == name[..offset] + Normalize(s[current..span.end], tri)
    {
      ReadingStep(s, current, span.end, tri);
      var w := SpliceSize(s[..span.end], current, tri);
      if w > 0 {
        current := current + w;
        continue;
      }
      OneMoreMatches(Normalize(s[span.start..span.end], tri), name, offset, s[current], Normalize(s[current + 1..span.end], tri));
      if s[current] != name[offset] {
        return false;
      }
      current := current + 1;
      offset := offset + 1;
    }
    assert s[span.end..span.end] == "";
    NormalizeStep("", tri);
    matches := offset == |name|;
  }

  // ---------------------------------------------------------------- one span, every cursor

  // Every cursor from the first byte of a span to behind its last selects a byte of that span.
  lemma {:induction false} CursorInSpan(s: string, i: nat, cursor: nat, tri: bool)
    requires IdentAt(s, i) && i <= cursor <= Last(s, i, tri) + 1
    ensures Selected(s, cursor, tri) >= 0
    ensures SpanOf(s, Selected(s, cursor, tri), tri) == SpanOf(s, i, tri)
    decreases |s| - i
  {
    hide SpliceSize;
    hide SpliceBefore;
    hide IsIdentifierByte;
    var j := Next(s, i, tri);
    if j < |s| {
      NextPrev(s, i, j, tri);
      assert SpanOf(s, j, tri) == SpanOf(s, i, tri);
      if j <= cursor {
        CursorInSpan(s, j, cursor, tri);
      } else if i + 1 < cursor {
        CursorInSplice(s, i, cursor, tri);
      } else if i < cursor {
        assert cursor == i + 1 && !IdentAt(s, cursor);
      }
    }
  }

  lemma CursorInSplice(s: string, i: nat, cursor: nat, tri: bool)
    requires IdentAt(s, i) && i + 1 < cursor < Next(s, i, tri) < |s|
    ensures Selected(s, cursor, tri) == i
  {
    hide SpliceSize;
    hide IsIdentifierByte;
    var x, w := i + 1, SpliceSize(s, i + 1, tri);
    NoIdentInSplice(s, x, cursor, tri);
    NoIdentInSplice(s, x, cursor - 1, tri);
    assert Bridges(s, cursor, x, tri);
    BridgeFinds(s, cursor, if cursor > 5 then cursor - 5 else 0, x, tri);
  }

  // The span found at a cursor is the span found at every cursor inside it and at its end.
  lemma SameSpanEverywhere(s: string, c: nat, d: nat, tri: bool)
    requires Selected(s, c, tri) >= 0
    requires var span := SpanOf(s, Selected(s, c, tri), tri); span.start <= d <= span.end
    ensures Selected(s, d, tri) >= 0
    ensures SpanOf(s, Selected(s, d, tri), tri) == SpanOf(s, Selected(s, c, tri), tri)
  {
    hide Selected;
    hide First;
    hide Last;
    var i := Selected(s, c, tri);
    var a := First(s, i, tri);
    LastOfFirst(s, i, tri);
    CursorInSpan(s, a, d, tri);
    FirstOfFirst(s, a, tri);
  }

  lemma FirstOfFirst(s: string, a: nat, tri: bool)
    requires IdentAt(s, a) && Prev(s, a, tri) < 0
    ensures First(s, a, tri) == a
  {}

  // ---------------------------------------------------------------- the bytes of identifiers

  const LOWER_CASE := "abcdefghijklmnopqrstuvwxyz"

  const UPPER_CASE := "ABCDEFGHIJKLMNOPQRSTUVWXYZ"

  const DIGITS := "0123456789"

  lemma {:induction false} InRange(s: string, c: char)
    requires s != "" && forall i :: 0 <= i < |s| ==> s[i] as int == s[0] as int + i
    ensures c in s <==> s[0] as int <= c as int < s[0] as int + |s|
  {
    if s[0] as int <= c as int < s[0] as int + |s| {
      assert s[c as int - s[0] as int] == c;
    }
  }

  // The nondigits and digits of section 6.4.2.1 of C11, and every byte of a character beyond ASCII.
  lemma IdentifierBytesAre(c: char)
    ensures IsIdentifierByte(c) <==> c in LOWER_CASE || c in UPPER_CASE || c in DIGITS || c == '_' || c as int >= 0x80
  {
    InRange(LOWER_CASE, c);
    InRange(UPPER_CASE, c);
    InRange(DIGITS, c);
  }
}
