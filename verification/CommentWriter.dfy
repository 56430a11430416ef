/** The two passes that measure and write a normalized documentation comment. */
module CommentWriter {
  import opened CommentText

  // An entry of the documentation index, as far as its comment goes.
  datatype Comment = Comment(source: string, style: Style, start: nat, end: nat)

  predicate IsPlaced(c: Comment) {
    c.start <= c.end <= |c.source|
  }

  // documentation_content_bounds: without the ends of a block comment.
  function Bounds(c: Comment): (b: (nat, nat))
    requires IsPlaced(c)
    ensures b.0 <= b.1 <= |c.source|
  {
    if c.style == LineStyle then (c.start, c.end)
    else if c.end >= c.start + 5 then (c.start + 3, c.end - 2)
    else (c.end, c.end)
  }

  function Body(c: Comment): string
    requires IsPlaced(c)
  {
    c.source[Bounds(c).0..Bounds(c).1]
  }

  method SkipBlanksAt(source: string, from: nat, end: nat) returns (at: nat)
    requires from <= end <= |source|
    ensures from <= at <= end && source[at..end] == SkipBlanks(source[from..end])
  {
    at := from;
    while at < end && IsBlank(source[at])
      invariant from <= at <= end && SkipBlanks(source[at..end]) == SkipBlanks(source[from..end])
    {
      assert source[at..end][1..] == source[at + 1..end];
      at := at + 1;
    }
  }

  method TrimAt(source: string, from: nat, end: nat) returns (at: nat)
    requires from <= end <= |source|
    ensures from <= at <= end && source[from..at] == TrimRight(source[from..end])
  {
    hide TrimRight;
    at := end;
    TrimStep(source, from, end);
    while at > from && IsBlank(source[at - 1])
      invariant from <= at <= end && TrimRight(source[from..at]) == TrimRight(source[from..end])
    {
      TrimStep(source, from, at);
      at := at - 1;
    }
    TrimStep(source, from, at);
  }

  lemma TrimStep(source: string, from: nat, at: nat)
    requires from <= at <= |source|
    ensures TrimRight(source[from..at]) ==
      if at > from && IsBlank(source[at - 1]) then TrimRight(source[from..at - 1]) else source[from..at]
  {
    if at > from {
      assert source[from..at][..at - from - 1] == source[from..at - 1];
    }
  }

  method SkipOneAt(source: string, from: nat, end: nat) returns (at: nat)
    requires from <= end <= |source|
    ensures from <= at <= end && source[at..end] == SkipOne(source[from..end])
  {
    at := if from < end && IsBlank(source[from]) then from + 1 else from;
  }

  method UnmarkAt(source: string, style: Style, from: nat, end: nat) returns (start: nat)
    requires from <= end <= |source|
    ensures from <= start <= end && source[start..end] == Unmarked(style, source[from..end])
  {
    hide SkipBlanks;
    start := from;
    var probe := SkipBlanksAt(source, from, end);
    ghost var marked := source[probe..end];
    MarksAt(marked);
    if style == LineStyle {
      start := probe;
      if start + 2 < end && source[start] == '/' && source[start + 1] == '/' && source[start + 2] == '/' {
        assert marked[3..] == source[start + 3..end];
        start := start + 3;
      }
      start := SkipOneAt(source, start, end);
    } else if probe < end && source[probe] == '*' {
      assert marked[1..] == source[probe + 1..end];
      start := SkipOneAt(source, probe + 1, end);
    }
  }

  // line_content
  method LineContent(c: Comment, lineStart: nat, lineEnd: nat) returns (start: nat, end: nat)
    requires lineStart <= lineEnd <= |c.source|
    ensures lineStart <= start <= end <= lineEnd
    ensures c.source[start..end] == Content(c.style, c.source[lineStart..lineEnd])
  {
    hide Unmarked;
    hide TrimRight;
    end := lineEnd;
    if end > lineStart && c.source[end - 1] == '\r' {
      end := end - 1;
    }
    assert c.source[lineStart..end] == DropReturn(c.source[lineStart..lineEnd]);
    start := UnmarkAt(c.source, c.style, lineStart, end);
    end := TrimAt(c.source, start, end);
  }

  lemma MarksAt(s: string)
    ensures "*" <= s <==> s != "" && s[0] == '*'
    ensures "///" <= s <==> |s| >= 3 && s[0] == '/' && s[1] == '/' && s[2] == '/'
  {
    if s != "" && s[0] == '*' {
      assert s[..1] == "*";
    }
    if |s| >= 3 && s[0] == '/' && s[1] == '/' && s[2] == '/' {
      assert s[..3] == "///";
    }
    if "///" <= s {
      assert s[0] == "///"[0] && s[1] == "///"[1] && s[2] == "///"[2];
    }
  }

  method LineEndAt(source: string, from: nat, end: nat) returns (at: nat)
    requires from <= end <= |source|
    ensures at == from + LineLength(source[from..end]) && at <= end
  {
    at := from;
    while at < end && source[at] != '\n'
      invariant from <= at <= end && at + LineLength(source[at..end]) == from + LineLength(source[from..end])
    {
      assert source[at..end][1..] == source[at + 1..end];
      at := at + 1;
    }
  }

  lemma IndentStep(source: string, from: nat, end: nat)
    requires from <= end <= |source|
    ensures Indent(source[from..end]) ==
      if from < end && IsBlank(source[from]) then 1 + Indent(source[from + 1..end]) else 0
  {
    if from < end {
      assert source[from..end][1..] == source[from + 1..end];
    }
  }

  method IndentAt(source: string, from: nat, end: nat) returns (indent: nat)
    requires from <= end <= |source|
    ensures indent == Indent(source[from..end])
  {
    hide Indent;
    indent := 0;
    IndentStep(source, from, end);
    while from + indent < end && IsBlank(source[from + indent])
      invariant from + indent <= end && indent + Indent(source[from + indent..end]) == Indent(source[from..end])
    {
      IndentStep(source, from + indent, end);
      indent := indent + 1;
    }
    IndentStep(source, from + indent, end);
  }

  // The first pass.
  method SummarizeLines(c: Comment) returns (s: Summary)
    requires IsPlaced(c)
    ensures s == Summarize(Contents(c.style, Body(c)), 0, NOTHING)
  {
    hide Content;
    hide Contents;
    hide LineLength;
    hide Indent;
    hide Summarize;
    ghost var goal := Summarize(Contents(c.style, Body(c)), 0, NOTHING);
    var contentEnd := Bounds(c).1;
    var cursor, n: nat := Bounds(c).0, 0;
    s := NOTHING;
    while cursor <= contentEnd
      invariant cursor <= contentEnd
      invariant Summarize(Contents(c.style, c.source[cursor..contentEnd]), n, s) == goal
      decreases contentEnd - cursor
    {
      var lineEnd := LineEndAt(c.source, cursor, contentEnd);
      var start: nat, end: nat := LineContent(c, cursor, lineEnd);
      var indent := IndentAt(c.source, start, end);
      ContentsStep(c.style, c.source, cursor, lineEnd, contentEnd);
      ghost var cs := Contents(c.style, c.source[cursor..contentEnd]);
      assert cs[0] == c.source[start..end];
      SummarizeStep(cs, n, s);
      if start + indent < end {
        s := Summary(if s.first < 0 then n else s.first, n, if s.common < 0 || indent < s.common then indent else s.common);
      }
      if lineEnd >= contentEnd {
        SummarizeNothing(n + 1, s);
        break;
      }
      cursor := lineEnd + 1;
      n := n + 1;
    }
  }

  lemma SummarizeStep(cs: seq<string>, n: nat, s: Summary)
    requires cs != []
    ensures Summarize(cs, n, s) == Summarize(cs[1..], n + 1, Note(s, n, cs[0]))
  {}

  lemma SummarizeNothing(n: nat, s: Summary)
    ensures Summarize([], n, s) == s
  {}

  // One line of a comment, and the rest.
  lemma ContentsStep(style: Style, source: string, cursor: nat, lineEnd: nat, end: nat)
    requires cursor <= end <= |source| && lineEnd == cursor + LineLength(source[cursor..end])
    ensures lineEnd <= end
    ensures
      var cs := Contents(style, source[cursor..end]);
      cs[0] == Content(style, source[cursor..lineEnd]) &&
      cs[1..] == if lineEnd < end then Contents(style, source[lineEnd + 1..end]) else []
  {
    hide Content;
    hide LineLength;
    var text, n := source[cursor..end], lineEnd - cursor;
    assert text[..n] == source[cursor..lineEnd];
    if lineEnd < end {
      assert text[n + 1..] == source[lineEnd + 1..end];
    }
  }

  // ---------------------------------------------------------------- the buffer

  // What the buffer holds of a text: as much as fits in front of a terminator.
  ghost predicate HoldsPrefix(output: array?<char>, size: nat, text: string)
    reads output
  {
    output != null ==> size <= output.Length && forall i :: 0 <= i < |text| && i + 1 < size ==> output[i] == text[i]
  }

  method PutLine(output: array?<char>, size: nat, written: nat, newline: bool, line: string,
      ghost text: string) returns (after: nat)
    requires written == |text| && HoldsPrefix(output, size, text)
    modifies output
    ensures after == |text| + (if newline then 1 else 0) + |line|
    ensures HoldsPrefix(output, size, text + ((if newline then "\n" else "") + line))
  {
    after := written;
    if newline {
      if output != null && after + 1 < size {
        output[after] := '\n';
      }
      after := after + 1;
    }
    if output != null && after < size {
      var available := size - after - 1;
      var copy := if |line| < available then |line| else available;
      forall i | 0 <= i < copy {
        output[after + i] := line[i];
      }
    }
    after := after + |line|;
  }

  // One line of the second pass.
  method EmitLineAt(c: Comment, s: Summary, n: nat, cursor: nat, lineEnd: nat, output: array?<char>, size: nat,
      written: nat, ghost text: string)
    returns (after: nat)
    requires cursor <= lineEnd <= |c.source| && s.common >= 0 && written == |text| && HoldsPrefix(output, size, text)
    modifies output
    ensures
      var piece := (if n > s.first then "\n" else "") + Outdent(Content(c.style, c.source[cursor..lineEnd]), s.common);
      after == |text| + |piece| && HoldsPrefix(output, size, text + piece)
  {
    hide Content;
    hide Outdent;
    hide HoldsPrefix;
    var start: nat, end: nat := LineContent(c, cursor, lineEnd);
    var indent := OutdentAt(c.source, start, end, s.common);
    after := PutLine(output, size, written, n > s.first, c.source[start + indent..end], text);
  }

  // The second pass, from the first line on.
  method WriteLines(c: Comment, s: Summary, output: array?<char>, size: nat) returns (needed: nat, written: nat)
    requires IsPlaced(c) && s.first >= 0 && s.common >= 0 && (output != null ==> size <= output.Length)
    modifies output
    ensures
      var text := Emit(Contents(c.style, Body(c)), 0, s);
      needed == |text| && written == |text| && HoldsPrefix(output, size, text)
  {
    hide Content;
    hide Contents;
    hide LineLength;
    hide Outdent;
    hide Emit;
    hide HoldsPrefix;
    ghost var goal := Emit(Contents(c.style, Body(c)), 0, s);
    ghost var text := "";
    HoldsNothing(output, size);
    var contentEnd := Bounds(c).1;
    var cursor, n: nat := Bounds(c).0, 0;
    needed, written := 0, 0;
    assert "" + goal == goal;
    while cursor <= contentEnd
      invariant cursor <= contentEnd && needed == written == |text|
      invariant HoldsPrefix(output, size, text)
      invariant text + Emit(Contents(c.style, c.source[cursor..contentEnd]), n, s) == goal
      decreases contentEnd - cursor
    {
      var lineEnd := LineEndAt(c.source, cursor, contentEnd);
      ContentsStep(c.style, c.source, cursor, lineEnd, contentEnd);
      EmitStep(text, Contents(c.style, c.source[cursor..contentEnd]), n, s);
      if s.first <= n <= s.last {
        var after := EmitLineAt(c, s, n, cursor, lineEnd, output, size, written, text);
        needed, written := needed + (after - written), after;
        text := text + ((if n > s.first then "\n" else "") + Outdent(Content(c.style, c.source[cursor..lineEnd]), s.common));
      }
      if lineEnd >= contentEnd || n >= s.last {
        EmitNothing(text, n + 1, s);
        break;
      }
      cursor := lineEnd + 1;
      n := n + 1;
    }
  }

  lemma HoldsNothing(output: array?<char>, size: nat)
    requires output != null ==> size <= output.Length
    ensures HoldsPrefix(output, size, "")
  {}

  lemma EmitStep(text: string, cs: seq<string>, n: nat, s: Summary)
    requires cs != [] && s.first >= 0 && s.common >= 0
    ensures
      var piece := if s.first <= n <= s.last then (if n > s.first then "\n" else "") + Outdent(cs[0], s.common) else "";
      text + Emit(cs, n, s) == text + piece + (if n >= s.last then "" else Emit(cs[1..], n + 1, s)) &&
      (piece == "" ==> text + piece == text)
  {
    hide Outdent;
    var piece := if s.first <= n <= s.last then (if n > s.first then "\n" else "") + Outdent(cs[0], s.common) else "";
    var more := if n >= s.last then "" else Emit(cs[1..], n + 1, s);
    assert text + (piece + more) == text + piece + more;
  }

  lemma EmitNothing(text: string, n: nat, s: Summary)
    requires s.first >= 0 && s.common >= 0
    ensures text + Emit([], n, s) == text && text + "" == text
  {}

  // Up to `most` blanks at the front of a line.
  method OutdentAt(source: string, from: nat, end: nat, most: nat) returns (indent: nat)
    requires from <= end <= |source|
    ensures from + indent <= end && source[from + indent..end] == Outdent(source[from..end], most)
  {
    hide Outdent;
    hide Indent;
    indent := 0;
    while indent < most && from + indent < end && IsBlank(source[from + indent])
      invariant from + indent <= end && indent <= most
      invariant indent + Indent(source[from + indent..end]) == Indent(source[from..end])
    {
      IndentStep(source, from + indent, end);
      indent := indent + 1;
    }
    OutdentedBy(source, from, end, most, indent);
  }

  // The blanks that were counted are those that are taken off.
  lemma OutdentedBy(source: string, from: nat, end: nat, most: nat, indent: nat)
    requires from + indent <= end <= |source| && indent <= most
    requires indent + Indent(source[from + indent..end]) == Indent(source[from..end])
    requires indent == most || from + indent == end || !IsBlank(source[from + indent])
    ensures source[from + indent..end] == Outdent(source[from..end], most)
  {
    hide Outdent;
    hide Indent;
    IndentStep(source, from + indent, end);
    OutdentIs(source[from..end], most);
    assert source[from..end][indent..] == source[from + indent..end];
  }

  // normalized_documentation: the length of the normalized text, whatever the buffer; the buffer
  // holds as much of the text as fits, terminated.
  method Normalize(c: Comment, output: array?<char>, size: nat) returns (needed: nat)
    requires IsPlaced(c) && (output != null ==> size <= output.Length)
    modifies output
    ensures
      var text := Normalized(c.style, Body(c));
      needed == |text| &&
      (output != null && size > 0 ==>
        var end := if needed < size then needed else size - 1;
        output[..end] == text[..end] && output[end] == '\0')
  {
    hide Emit;
    hide Summarize;
    hide Contents;
    var s := SummarizeLines(c);
    if s.first < 0 {
      if output != null && size > 0 {
        output[0] := '\0';
      }
      return 0;
    }
    ContentsAreTrimmed(c.style, Body(c));
    SummaryIsRight(Contents(c.style, Body(c)));
    var written: nat;
    needed, written := WriteLines(c, s, output, size);
    if output != null && size > 0 {
      var end := if written < size then written else size - 1;
      output[end] := '\0';
    }
  }

  // ag_language_documentation_normalize: whether the whole text is in the buffer.
  method NormalizeInto(c: Comment, output: array?<char>, size: nat) returns (ok: bool)
    requires IsPlaced(c) && (output != null ==> size <= output.Length)
    modifies output
    ensures
      var text := Normalized(c.style, Body(c));
      ok == (output != null && size > |text|) && (ok ==> output[..|text|] == text && output[|text|] == '\0')
  {
    var needed := Normalize(c, output, size);
    ok := output != null && size > needed;
  }

  // ---------------------------------------------------------------- whole comments

  // A comment as it stands in the source, its marks included.
  function Commented(style: Style, pads: seq<string>, lines: seq<string>, last: string): string
    requires |pads| == |lines|
  {
    if style == LineStyle then Decorated(style, pads, lines, last)
    else "/**" + (Decorated(style, pads, lines, last) + "*/")
  }

  predicate IsWhite(s: string) {
    forall i :: 0 <= i < |s| ==> s[i] == ' ' || s[i] == '\t'
  }

  // Text as an author means it: the outer lines are not empty, no line ends in white space or breaks,
  // and some line is not indented.
  predicate AreMeant(lines: seq<string>) {
    && lines != [] && lines[0] != "" && lines[|lines| - 1] != ""
    && (forall i :: 0 <= i < |lines| ==> '\n' !in lines[i])
    && (forall i :: 0 <= i < |lines| && lines[i] != "" ==> lines[i][|lines[i]| - 1] !in {' ', '\t', '\r'})
    && exists i :: 0 <= i < |lines| && lines[i] != "" && lines[i][0] !in {' ', '\t'}
  }

  lemma MeantIsTidy(lines: seq<string>)
    ensures AreMeant(lines) ==> IsTidy(lines)
  {}

  // Whatever stands around the comment, and however it is decorated and indented, what is written for
  // it is what was meant.
  lemma CommentReadsBack(c: Comment, pads: seq<string>, lines: seq<string>, last: string)
    requires IsPlaced(c) && |pads| == |lines| && AreMeant(lines) && IsWhite(last)
    requires forall i :: 0 <= i < |pads| ==> IsWhite(pads[i])
    requires c.source[c.start..c.end] == Commented(c.style, pads, lines, last)
    ensures Normalized(c.style, Body(c)) == Join(lines)
  {
    hide Decorated;
    hide Normalized;
    hide Join;
    MeantIsTidy(lines);
    hide IsTidy;
    hide AreMeant;
    NormalizedReadsBack(c.style, pads, lines, last);
    if c.style == BlockStyle {
      var body := Decorated(c.style, pads, lines, last);
      assert |"/**" + (body + "*/")| == c.end - c.start;
      assert Body(c) == c.source[c.start..c.end][3..3 + |body|];
      assert ("/**" + (body + "*/"))[3..3 + |body|] == body;
    }
  }
}
