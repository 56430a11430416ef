/**
 Conditional directives and the search for the directive that opened the current group.

 The search walks the logical lines backwards with a nesting counter. What it must find is defined
 forwards: read the lines from the top, keep a stack of the open directives, look at its top.
 */
module Conditionals {
  import opened Options
  import opened Phases
  import opened LogicalLines

  predicate IsIdentifierByte(c: char) {
    c == '_' || c as int >= 0x80 || 'a' <= c <= 'z' || 'A' <= c <= 'Z' || '0' <= c <= '9'
  }

  // ---------------------------------------------------------------- what a line is

  datatype LineKind = Other | Open | Branch | Endif

  // From inside a comment to the first byte of its terminator, or to where none fits any more.
  function CommentTail(s: string, cursor: nat, end: nat): (r: nat)
    requires end <= |s|
    ensures r >= cursor
    decreases end - cursor
  {
    if cursor + 1 < end && !(s[cursor] == '*' && s[cursor + 1] == '/') then CommentTail(s, cursor + 1, end)
    else cursor
  }

  function SkipSpacing(s: string, cursor: nat, end: nat, tri: bool): (r: nat)
    requires end <= |s|
    ensures r >= cursor || r == end
    decreases end - cursor
  {
    if cursor >= end then cursor
    else if SpliceSize(s, cursor, tri) > 0 then SkipSpacing(s, cursor + SpliceSize(s, cursor, tri), end, tri)
    else if s[cursor] in {' ', '\t', '\r'} then SkipSpacing(s, cursor + 1, end, tri)
    else if cursor + 1 < end && s[cursor] == '/' && s[cursor + 1] == '*' then
      var tail := CommentTail(s, cursor + 2, end);
      if tail + 1 >= end then end else SkipSpacing(s, tail + 2, end, tri)
    else cursor
  }

  method SkipDirectiveSpacing(s: string, start: nat, end: nat, tri: bool) returns (cursor: nat)
    requires end <= |s|
    ensures cursor == SkipSpacing(s, start, end, tri)
  {
    hide SpliceSize;
    cursor := start;
    while cursor < end
      invariant SkipSpacing(s, start, end, tri) == SkipSpacing(s, cursor, end, tri)
      decreases end - cursor
    {
      var spliceSize := SpliceSize(s, cursor, tri);
      if spliceSize > 0 {
        cursor := cursor + spliceSize;
        continue;
      }
      if s[cursor] == ' ' || s[cursor] == '\t' || s[cursor] == '\r' {
        cursor := cursor + 1;
        continue;
      }
      if cursor + 1 < end && s[cursor] == '/' && s[cursor + 1] == '*' {
        ghost var tail := CommentTail(s, cursor + 2, end);
        cursor := cursor + 2;
        while cursor + 1 < end && !(s[cursor] == '*' && s[cursor + 1] == '/')
          invariant CommentTail(s, cursor, end) == tail
          decreases end - cursor
        {
          cursor := cursor + 1;
        }
        if cursor + 1 >= end {
          return end;
        }
        cursor := cursor + 2;
        continue;
      }
      break;
    }
  }

  // Where the word ends that starts at `cursor`, splices skipped; None if it is another one.
  function MatchWord(s: string, cursor: nat, end: nat, word: string, tri: bool): Option<nat>
    requires end <= |s|
    decreases |word|, |s| - cursor
  {
    if word == "" then Some(cursor)
    else if SpliceSize(s, cursor, tri) > 0 then MatchWord(s, cursor + SpliceSize(s, cursor, tri), end, word, tri)
    else if cursor >= end || s[cursor] != word[0] then None
    else MatchWord(s, cursor + 1, end, word[1..], tri)
  }

  method MatchDirectiveWord(s: string, start: nat, end: nat, word: string, tri: bool) returns (after: Option<nat>)
    requires end <= |s|
    ensures after == MatchWord(s, start, end, word, tri)
  {
    hide SpliceSize;
    var cursor: nat, offset: nat := start, 0;
    assert word[0..] == word;
    while offset < |word|
      invariant offset <= |word|
      invariant MatchWord(s, start, end, word, tri) == MatchWord(s, cursor, end, word[offset..], tri)
      decreases |word| - offset, |s| - cursor
    {
      var spliceSize := SpliceSize(s, cursor, tri);
      if spliceSize > 0 {
        cursor := cursor + spliceSize;
        continue;
      }
      if cursor >= end || s[cursor] != word[offset] {
        return None;
      }
      assert word[offset..][1..] == word[offset + 1..];
      cursor := cursor + 1;
      offset := offset + 1;
    }
    after := Some(cursor);
  }

  function SkipSplices(s: string, cursor: nat, end: nat, tri: bool): nat
    decreases end - cursor
  {
    if cursor < end && SpliceSize(s, cursor, tri) > 0 then
      SkipSplices(s, cursor + SpliceSize(s, cursor, tri), end, tri)
    else cursor
  }

  predicate WordIs(s: string, start: nat, end: nat, word: string, tri: bool)
    requires end <= |s|
  {
    var after := MatchWord(s, start, end, word, tri);
    && after.Some?
    && var behind := SkipSplices(s, after.value, end, tri);
       behind >= end || !IsIdentifierByte(s[behind])
  }

  function KindOf(s: string, start: nat, end: nat, tri: bool): LineKind
    requires end <= |s|
  {
    var hash := SkipSpacing(s, start, end, tri);
    if hash >= end || s[hash] != '#' then Other
    else
      var word := SkipSpacing(s, hash + 1, end, tri);
      if WordIs(s, word, end, "if", tri) then Open
      else if WordIs(s, word, end, "ifdef", tri) then Open
      else if WordIs(s, word, end, "ifndef", tri) then Open
      else if WordIs(s, word, end, "elif", tri) then Branch
      else if WordIs(s, word, end, "else", tri) then Branch
      else if WordIs(s, word, end, "endif", tri) then Endif
      else Other
  }

  // ---------------------------------------------------------------- forwards: the stack

  // The end of the line that starts at `start`.
  function LineEnd(s: string, start: nat, tri: bool): (end: nat)
    requires start <= |s|
    ensures end <= |s| && (start < |s| ==> start < end)
  {
    start + FirstLine(s[start..], tri)
  }

  // One line: an opening directive is pushed, #endif pops; an #endif too many is ignored.
  function Push(stack: seq<nat>, kind: LineKind, start: nat): seq<nat> {
    match kind
    case Open => stack + [start]
    case Endif => if stack == [] then [] else stack[..|stack| - 1]
    case _ => stack
  }

  // The directives open at `upto`, when those open at the line start `from` are `stack`.
  function OpenDirectives(s: string, from: nat, upto: nat, stack: seq<nat>, tri: bool): seq<nat>
    requires from <= |s|
    decreases |s| - from
  {
    if from >= upto || from == |s| then stack
    else
      var end := LineEnd(s, from, tri);
      OpenDirectives(s, end, upto, Push(stack, KindOf(s, from, end, tri), from), tri)
  }

  // The `depth`-th directive from the top.
  function FromTop(stack: seq<nat>, depth: nat): Option<nat> {
    if depth < |stack| then Some(stack[|stack| - 1 - depth]) else None
  }

  // ---------------------------------------------------------------- backwards: the counter

  // Reading one more line is one more step of the stack.
  lemma {:induction false} OpenAfterLine(s: string, from: nat, start: nat, stack: seq<nat>, tri: bool)
    requires from <= start < |s|
    requires IsLogicalStart(s, from, tri) && IsLogicalStart(s, start, tri)
    ensures var end := LineEnd(s, start, tri);
      OpenDirectives(s, from, end, stack, tri) ==
        Push(OpenDirectives(s, from, start, stack, tri), KindOf(s, start, end, tri), start)
    decreases |s| - from
  {
    hide KindOf;
    hide Push;
    hide LineEnd;
    hide IsLogicalStart;
    var end := LineEnd(s, start, tri);
    var next := LineEnd(s, from, tri);
    LineEndIsEndOf(s, from, tri);
    LineEndIsEndOf(s, start, tri);
    if from < start {
      StartsAreSkipped(s, from, next, start, tri);
      OpenAfterLine(s, next, start, Push(stack, KindOf(s, from, next, tri), from), tri);
    }
  }

  lemma LineEndIsEndOf(s: string, start: nat, tri: bool)
    requires start <= |s| && IsLogicalStart(s, start, tri)
    ensures EndOf(s, start, LineEnd(s, start, tri), tri)
  {
    FirstLineIsEndOf(s, start, tri);
  }

  lemma StartsAreSkipped(s: string, from: nat, next: nat, start: nat, tri: bool)
    requires from < start < |s| && IsLogicalStart(s, start, tri) && EndOf(s, from, next, tri)
    ensures next <= start && IsLogicalStart(s, next, tri)
  {}

  // The line in front of a line start, as the backward walk finds it.
  lemma PreviousLine(s: string, scan: nat, physicalStart: nat, start: nat, tri: bool)
    requires 0 < scan <= |s| && IsLogicalStart(s, scan, tri)
    requires physicalStart < scan
    requires forall i :: physicalStart <= i < scan - 1 ==> s[i] != '\n'
    requires StartOf(s, start, physicalStart, tri)
    ensures start < scan && LineEnd(s, start, tri) == scan
  {
    hide SpliceBefore;
    LineEndIsEndOf(s, start, tri);
    var end := LineEnd(s, start, tri);
    assert end == |s| || IsLogicalStart(s, end, tri);
    assert end > physicalStart;
  }

  lemma CounterStep(stack: seq<nat>, kind: LineKind, start: nat, nested: nat)
    ensures kind.Endif? ==> FromTop(Push(stack, kind, start), nested) == FromTop(stack, nested + 1)
    ensures kind.Open? && nested == 0 ==> FromTop(Push(stack, kind, start), nested) == Some(start)
    ensures kind.Open? && nested > 0 ==> FromTop(Push(stack, kind, start), nested) == FromTop(stack, nested - 1)
    ensures !kind.Endif? && !kind.Open? ==> Push(stack, kind, start) == stack
  {}

  // The backward search returns the top of the stack the forward reading builds up.
  method MatchingConditionalOpener(s: string, current: nat, tri: bool) returns (opener: Option<nat>)
    requires current <= |s| && IsLogicalStart(s, current, tri)
    ensures opener == FromTop(OpenDirectives(s, 0, current, [], tri), 0)
  {
    hide OpenDirectives;
    hide KindOf;
    hide Push;
    hide FromTop;
    hide IsLogicalStart;
    hide LineEnd;
    var scan: nat, nested: nat := current, 0;
    while scan > 0
      invariant scan <= |s| && IsLogicalStart(s, scan, tri)
      invariant FromTop(OpenDirectives(s, 0, scan, [], tri), nested) == FromTop(OpenDirectives(s, 0, current, [], tri), 0)
    {
      var physicalEnd := scan;
      if s[physicalEnd - 1] == '\n' {
        physicalEnd := physicalEnd - 1;
      }
      var physicalStart := physicalEnd;
      while physicalStart > 0 && s[physicalStart - 1] != '\n'
        invariant physicalStart <= physicalEnd
        invariant forall i :: physicalStart <= i < physicalEnd ==> s[i] != '\n'
      {
        physicalStart := physicalStart - 1;
      }
      StartFollowsLineFeed(s, scan, tri);
      var lineStart := LogicalLineStart(s, physicalStart, tri);
      PreviousLine(s, scan, physicalStart, lineStart, tri);
      StartIsStart(s, lineStart, physicalStart, tri);
      var lineEnd := LogicalLineEnd(s, lineStart, tri);
      EndIsUnique(s, lineStart, lineEnd, tri);
      var kind := KindOf(s, lineStart, lineEnd, tri);
      OpenFromTop(s, lineStart, tri);
      CounterStep(OpenDirectives(s, 0, lineStart, [], tri), kind, lineStart, nested);
      if kind == Endif {
        nested := nested + 1;
      } else if kind == Open {
        if nested == 0 {
          return Some(lineStart);
        }
        nested := nested - 1;
      }
      scan := lineStart;
    }
    NothingOpenAtTop(s, nested, tri);
    opener := None;
  }

  lemma StartFollowsLineFeed(s: string, scan: nat, tri: bool)
    requires 0 < scan <= |s| && IsLogicalStart(s, scan, tri)
    ensures s[scan - 1] == '\n'
  {}

  lemma StartIsStart(s: string, start: nat, c: nat, tri: bool)
    requires StartOf(s, start, c, tri)
    ensures IsLogicalStart(s, start, tri)
  {}

  lemma EndIsUnique(s: string, start: nat, end: nat, tri: bool)
    requires start < |s| && IsLogicalStart(s, start, tri) && EndOf(s, start, end, tri)
    ensures end == LineEnd(s, start, tri)
  {
    hide SpliceBefore;
    LineEndIsEndOf(s, start, tri);
  }

  lemma OpenFromTop(s: string, start: nat, tri: bool)
    requires start < |s| && IsLogicalStart(s, start, tri)
    ensures var end := LineEnd(s, start, tri);
      OpenDirectives(s, 0, end, [], tri) ==
        Push(OpenDirectives(s, 0, start, [], tri), KindOf(s, start, end, tri), start)
  {
    OpenAfterLine(s, 0, start, [], tri);
  }

  lemma NothingOpenAtTop(s: string, nested: nat, tri: bool)
    ensures FromTop(OpenDirectives(s, 0, 0, [], tri), nested) == None
  {}
}
