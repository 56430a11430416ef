/**
 Logical lines: what phase 2 of translation joins. The language service finds the start of a
 line by scanning backwards and its end by scanning forwards.
 */
module LogicalLines {
  import opened Phases

  // ---------------------------------------------------------------- splices

  // No byte belongs to two splices.
  lemma SplicesDisjoint(s: string, x: nat, y: nat, tri: bool)
    requires x < y && SpliceSize(s, x, tri) > 0 && SpliceSize(s, y, tri) > 0
    ensures x + SpliceSize(s, x, tri) <= y
  {}

  // A splice holds one line feed, at its end, and no byte of an identifier.
  lemma InsideSplice(s: string, x: nat, p: nat, tri: bool)
    requires x <= p < x + SpliceSize(s, x, tri)
    ensures p < |s| && s[p] in {'\\', '?', '/', '\r', '\n'}
    ensures s[p] == '\n' <==> p + 1 == x + SpliceSize(s, x, tri)
  {}

  // The size of the splice that ends in front of `end`, 0 if there is none.
  function SpliceBefore(s: string, end: nat, tri: bool): (w: nat)
    ensures w == 0 || (2 <= w <= 5 && w <= end && (w > 3 ==> tri) && SpliceSize(s, end - w, tri) == w)
  {
    if 2 <= end && SpliceSize(s, end - 2, tri) == 2 then 2
    else if 3 <= end && SpliceSize(s, end - 3, tri) == 3 then 3
    else if 4 <= end && SpliceSize(s, end - 4, tri) == 4 then 4
    else if 5 <= end && SpliceSize(s, end - 5, tri) == 5 then 5
    else 0
  }

  // Looking for a splice from behind finds it whenever there is one in front.
  lemma SpliceBeforeIsComplete(s: string, x: nat, tri: bool)
    requires SpliceSize(s, x, tri) > 0
    ensures SpliceBefore(s, x + SpliceSize(s, x, tri), tri) == SpliceSize(s, x, tri)
  {
    var end := x + SpliceSize(s, x, tri);
    var w := SpliceBefore(s, end, tri);
    assert w > 0;
    if end - w < x {
      SplicesDisjoint(s, end - w, x, tri);
    } else if x < end - w {
      SplicesDisjoint(s, x, end - w, tri);
    }
  }

  method LineSpliceBefore(s: string, end: nat, tri: bool) returns (found: bool, start: nat)
    ensures found <==> SpliceBefore(s, end, tri) > 0
    ensures found ==> start == end - SpliceBefore(s, end, tri)
  {
    hide SpliceSize;
    start := 0;
    var maxWidth := if tri then 5 else 3;
    var width := 2;
    while width <= maxWidth && width <= end
      invariant 2 <= width <= maxWidth + 1
      invariant SpliceBefore(s, end, tri) == 0 || SpliceBefore(s, end, tri) >= width
    {
      var candidate := end - width;
      if SpliceSize(s, candidate, tri) == width {
        SpliceBeforeIsComplete(s, candidate, tri);
        return true, candidate;
      }
      width := width + 1;
    }
    found := false;
  }

  // ---------------------------------------------------------------- where lines start

  // A line starts at the beginning and behind every line feed that is not spliced away.
  predicate IsLogicalStart(s: string, p: nat, tri: bool) {
    p == 0 || (p <= |s| && s[p - 1] == '\n' && SpliceBefore(s, p, tri) == 0)
  }

  predicate NoStartWithin(s: string, start: nat, c: nat, tri: bool) {
    forall q :: start < q <= c ==> !IsLogicalStart(s, q, tri)
  }

  lemma SpliceHoldsNoStart(s: string, c: nat, tri: bool)
    ensures NoStartWithin(s, c, c + SpliceSize(s, c, tri), tri)
  {
    hide SpliceSize;
    hide SpliceBefore;
    forall q | c < q <= c + SpliceSize(s, c, tri) ensures !IsLogicalStart(s, q, tri) {
      InsideSplice(s, c, q - 1, tri);
      SpliceBeforeIsComplete(s, c, tri);
    }
  }

  // The line that holds offset `c` starts at `start`.
  predicate StartOf(s: string, start: nat, c: nat, tri: bool) {
    && start <= c
    && IsLogicalStart(s, start, tri)
    && NoStartWithin(s, start, c, tri)
  }

  // The line that starts at `start` ends in front of `end`.
  predicate EndOf(s: string, start: nat, end: nat, tri: bool) {
    && start <= end <= |s|
    && (start < |s| ==> start < end)
    && (end == |s| || IsLogicalStart(s, end, tri))
    && forall q :: start < q < end ==> !IsLogicalStart(s, q, tri)
  }

  method LogicalLineStart(s: string, cursor: nat, tri: bool) returns (start: nat)
    requires cursor <= |s|
    ensures StartOf(s, start, cursor, tri)
  {
    hide SpliceSize;
    hide SpliceBefore;
    start := cursor;
    while start > 0 && s[start - 1] != '\n'
      invariant start <= cursor
      invariant NoStartWithin(s, start, cursor, tri)
    {
      start := start - 1;
    }
    while true
      invariant start <= cursor && (start == 0 || s[start - 1] == '\n')
      invariant NoStartWithin(s, start, cursor, tri)
      decreases start
    {
      var found, spliceStart := LineSpliceBefore(s, start, tri);
      if !found {
        return;
      }
      var lineStart := start;
      start := spliceStart;
      SpliceHoldsNoStart(s, spliceStart, tri);
      while start > 0 && s[start - 1] != '\n'
        invariant start <= spliceStart
        invariant NoStartWithin(s, start, cursor, tri)
      {
        start := start - 1;
      }
    }
  }

  // Scanning forward, `c` is not inside a splice.
  predicate NoneAcross(s: string, c: nat, tri: bool) {
    forall x: nat :: x < c && SpliceSize(s, x, tri) > 0 ==> x + SpliceSize(s, x, tri) <= c
  }

  lemma NoneAcrossStart(s: string, start: nat, tri: bool)
    requires IsLogicalStart(s, start, tri)
    ensures NoneAcross(s, start, tri)
  {
    hide SpliceSize;
    forall x: nat | x < start && SpliceSize(s, x, tri) > 0 ensures x + SpliceSize(s, x, tri) <= start {
      var end := x + SpliceSize(s, x, tri);
      if start < end {
        InsideSplice(s, x, start - 1, tri);
      } else if start == end {
        SpliceBeforeIsComplete(s, x, tri);
      }
    }
  }

  lemma AdvanceOverSplice(s: string, start: nat, c: nat, tri: bool)
    requires SpliceSize(s, c, tri) > 0 && NoneAcross(s, c, tri) && NoStartWithin(s, start, c, tri)
    ensures NoneAcross(s, c + SpliceSize(s, c, tri), tri)
    ensures NoStartWithin(s, start, c + SpliceSize(s, c, tri), tri)
  {
    hide SpliceSize;
    var end := c + SpliceSize(s, c, tri);
    forall x: nat | x < end && SpliceSize(s, x, tri) > 0 ensures x + SpliceSize(s, x, tri) <= end {
      if c < x {
        SplicesDisjoint(s, c, x, tri);
      }
    }
    SpliceHoldsNoStart(s, c, tri);
  }

  lemma AdvanceOverByte(s: string, start: nat, c: nat, tri: bool)
    requires c < |s| && SpliceSize(s, c, tri) == 0 && NoneAcross(s, c, tri) && NoStartWithin(s, start, c, tri)
    ensures NoneAcross(s, c + 1, tri)
    ensures s[c] != '\n' ==> NoStartWithin(s, start, c + 1, tri)
    ensures s[c] == '\n' ==> IsLogicalStart(s, c + 1, tri)
  {
    hide SpliceSize;
    assert SpliceBefore(s, c + 1, tri) == 0;
  }

  method LogicalLineEnd(s: string, start: nat, tri: bool) returns (end: nat)
    requires start <= |s| && IsLogicalStart(s, start, tri)
    ensures EndOf(s, start, end, tri)
  {
    hide SpliceSize;
    hide NoneAcross;
    hide IsLogicalStart;
    var cursor := start;
    NoneAcrossStart(s, start, tri);
    while cursor < |s|
      invariant start <= cursor <= |s|
      invariant NoneAcross(s, cursor, tri) && NoStartWithin(s, start, cursor, tri)
    {
      var spliceSize := SpliceSize(s, cursor, tri);
      if spliceSize > 0 {
        AdvanceOverSplice(s, start, cursor, tri);
        cursor := cursor + spliceSize;
        continue;
      }
      AdvanceOverByte(s, start, cursor, tri);
      if s[cursor] == '\n' {
        return cursor + 1;
      }
      cursor := cursor + 1;
    }
    end := |s|;
  }

  // The two scans cut every source into the same lines: between a start and the end the forward
  // scan finds for it, the backward scan leads every offset to that start and to no other.
  lemma ScansAgree(s: string, start: nat, end: nat, c: nat, other: nat, tri: bool)
    requires EndOf(s, start, end, tri) && IsLogicalStart(s, start, tri)
    requires c < |s| && StartOf(s, other, c, tri)
    ensures start <= c < end <==> other == start
  {}

  // The next line starts where this one ends, and its last byte leads back to its start.
  lemma LinesAreAdjacent(s: string, start: nat, end: nat, tri: bool)
    requires IsLogicalStart(s, start, tri) && start < |s| && EndOf(s, start, end, tri)
    ensures StartOf(s, start, end - 1, tri)
    ensures end < |s| ==> StartOf(s, end, end, tri) && s[end - 1] == '\n'
  {}

  // ---------------------------------------------------------------- lines of the normalized text

  // Length of the first logical line, by the forward scan.
  function FirstLine(s: string, tri: bool): (n: nat)
    ensures n <= |s| && (s != "" ==> n > 0)
    decreases |s|
  {
    if s == "" then 0
    else if SpliceSize(s, 0, tri) > 0 then SpliceSize(s, 0, tri) + FirstLine(s[SpliceSize(s, 0, tri)..], tri)
    else if s[0] == '\n' then 1
    else 1 + FirstLine(s[1..], tri)
  }

  // Behind the first byte of a trigraph there is neither a splice nor a line feed.
  lemma InsideTrigraph(s: string, tri: bool)
    requires SpliceSize(s, 0, tri) == 0 && PhaseOneWidth(s, 0, tri) == 3
    ensures SpliceSize(s[1..], 0, tri) == 0 && SpliceSize(s[2..], 0, tri) == 0
    ensures s[0] != '\n' && s[1] != '\n' && s[2] != '\n' && Text(s, tri) != "\n"
  {}

  // Inside a trigraph the scan moves byte by byte.
  lemma FirstLineStep(s: string, tri: bool)
    requires s != ""
    ensures var w := Width(s, tri);
      FirstLine(s, tri) == if Text(s, tri) == "\n" then w else w + FirstLine(s[w..], tri)
  {
    hide SpliceSize;
    hide PhaseOneWidth;
    if SpliceSize(s, 0, tri) == 0 && PhaseOneWidth(s, 0, tri) == 3 {
      InsideTrigraph(s, tri);
      assert s[1..][1..] == s[2..] && s[2..][1..] == s[3..];
      assert FirstLine(s[1..], tri) == 1 + FirstLine(s[2..], tri);
      assert FirstLine(s[2..], tri) == 1 + FirstLine(s[3..], tri);
    }
  }

  // A line feed ends the text, and there is no other, or there is none.
  predicate IsOneLine(text: string) {
    forall i :: 0 <= i < |text| - 1 ==> text[i] != '\n'
  }

  predicate EndsLine(text: string) {
    text != "" && text[|text| - 1] == '\n'
  }

  lemma LineGrows(text: string, rest: string)
    requires IsOneLine(rest) && text != "\n" && |text| <= 1
    ensures IsOneLine(text + rest) && (EndsLine(rest) ==> EndsLine(text + rest))
  {}

  // The first logical line normalizes to the first line of the normalized source: up to and
  // including its first line feed, or all of it.
  lemma {:induction false} FirstLineNormalizes(s: string, tri: bool)
    ensures var n := FirstLine(s, tri);
      && Normalize(s, tri) == Normalize(s[..n], tri) + Normalize(s[n..], tri)
      && IsOneLine(Normalize(s[..n], tri))
      && (n < |s| ==> EndsLine(Normalize(s[..n], tri)))
    decreases |s|
  {
    hide SpliceSize;
    hide PhaseOneWidth;
    hide Normalize;
    hide Text;
    hide Width;
    hide FirstLine;
    NormalizeStep("", tri);
    var n := FirstLine(s, tri);
    if s == "" {
      assert s[..n] == "" && s[n..] == "";
    } else {
      var w := Width(s, tri);
      FirstLineStep(s, tri);
      ElementOfPrefix(s, n, tri);
      NormalizeStep(s, tri);
      NormalizeStep(s[..n], tri);
      if Text(s, tri) == "\n" {
        assert s[..n][w..] == "";
      } else {
        FirstLineNormalizes(s[w..], tri);
        assert s[..n][w..] == s[w..][..n - w] && s[w..][n - w..] == s[n..];
        LineGrows(Text(s, tri), Normalize(s[w..][..n - w], tri));
      }
    }
  }

  function LogicalLines(s: string, tri: bool): seq<string>
    decreases |s|
  {
    if s == "" then [] else [s[..FirstLine(s, tri)]] + LogicalLines(s[FirstLine(s, tri)..], tri)
  }

  function NormalizedLines(lines: seq<string>, tri: bool): seq<string> {
    if lines == [] then [] else [Normalize(lines[0], tri)] + NormalizedLines(lines[1..], tri)
  }

  function Joined(lines: seq<string>): string {
    if lines == [] then "" else lines[0] + Joined(lines[1..])
  }

  // The logical lines of a source are the lines of its normalized text, one by one.
  lemma {:induction false} LinesOfNormalizedText(s: string, tri: bool)
    ensures var lines := NormalizedLines(LogicalLines(s, tri), tri);
      && Joined(lines) == Normalize(s, tri)
      && (forall i :: 0 <= i < |lines| ==> IsOneLine(lines[i]))
      && (forall i :: 0 <= i < |lines| - 1 ==> EndsLine(lines[i]))
    decreases |s|
  {
    hide Normalize;
    hide IsOneLine;
    hide EndsLine;
    NormalizeStep(s, tri);
    if s != "" {
      var n := FirstLine(s, tri);
      FirstLineNormalizes(s, tri);
      LinesOfNormalizedText(s[n..], tri);
      var lines := NormalizedLines(LogicalLines(s, tri), tri);
      var first, rest := s[..n], LogicalLines(s[n..], tri);
      assert LogicalLines(s, tri)[0] == first && LogicalLines(s, tri)[1..] == rest;
      assert lines == [Normalize(first, tri)] + NormalizedLines(rest, tri);
      assert lines[1..] == NormalizedLines(rest, tri);
    }
  }

  // The forward scan from a line start and `FirstLine` of the rest are the same line.
  lemma FirstLineIsEndOf(s: string, start: nat, tri: bool)
    requires start <= |s| && IsLogicalStart(s, start, tri)
    ensures EndOf(s, start, start + FirstLine(s[start..], tri), tri)
  {
    hide SpliceSize;
    hide NoneAcross;
    hide IsLogicalStart;
    hide EndOf;
    hide FirstLine;
    NoneAcrossStart(s, start, tri);
    ScanFrom(s, start, start, tri);
  }

  lemma LineEndsAt(s: string, start: nat, c: nat, end: nat, tri: bool)
    requires start <= c <= |s| && NoStartWithin(s, start, c, tri)
    requires end == c == |s| || (end == c + 1 <= |s| && IsLogicalStart(s, end, tri))
    ensures EndOf(s, start, end, tri)
  {}

  lemma {:induction false} ScanFrom(s: string, start: nat, c: nat, tri: bool)
    requires start <= c <= |s| && NoneAcross(s, c, tri) && NoStartWithin(s, start, c, tri)
    ensures EndOf(s, start, c + FirstLine(s[c..], tri), tri)
    decreases |s| - c
  {
    hide SpliceSize;
    hide NoneAcross;
    hide NoStartWithin;
    hide IsLogicalStart;
    hide EndOf;
    if c == |s| {
      LineEndsAt(s, start, c, c, tri);
    } else {
      SpliceShift(s, c, tri);
      var w := SpliceSize(s, c, tri);
      if w > 0 {
        AdvanceOverSplice(s, start, c, tri);
        assert s[c..][w..] == s[c + w..];
        ScanFrom(s, start, c + w, tri);
      } else {
        AdvanceOverByte(s, start, c, tri);
        if s[c] == '\n' {
          LineEndsAt(s, start, c, c + 1, tri);
        } else {
          assert s[c..][1..] == s[c + 1..];
          ScanFrom(s, start, c + 1, tri);
        }
      }
    }
  }
}
