/**
 Documentation comments as plain text: the marks of the comment and the indentation all lines share
 are taken off, and blank lines at both ends are dropped.

 The text is computed twice by the same code, once to measure it and once to write it.
 */
module CommentText {
  datatype Style = LineStyle | BlockStyle

  predicate IsBlank(c: char) {
    c == ' ' || c == '\t'
  }

  // ---------------------------------------------------------------- one line

  function DropReturn(l: string): string {
    if l != "" && l[|l| - 1] == '\r' then l[..|l| - 1] else l
  }

  function SkipBlanks(l: string): string {
    if l != "" && IsBlank(l[0]) then SkipBlanks(l[1..]) else l
  }

  function SkipOne(l: string): string {
    if l != "" && IsBlank(l[0]) then l[1..] else l
  }

  function TrimRight(l: string): (t: string)
    ensures t == "" || !IsBlank(t[|t| - 1])
    ensures t <= l
  {
    if l != "" && IsBlank(l[|l| - 1]) then TrimRight(l[..|l| - 1]) else l
  }

  // A line without the mark of the comment and the blank behind it.
  function Unmarked(style: Style, l: string): string {
    var marked := SkipBlanks(l);
    match style
    case LineStyle => SkipOne(if "///" <= marked then marked[3..] else marked)
    case BlockStyle => if "*" <= marked then SkipOne(marked[1..]) else l
  }

  // A line without the mark of the comment and without blanks at its end.
  function Content(style: Style, line: string): (c: string)
    ensures c == "" || !IsBlank(c[|c| - 1])
  {
    TrimRight(Unmarked(style, DropReturn(line)))
  }

  function Indent(l: string): (n: nat)
    ensures n <= |l| && (n < |l| ==> !IsBlank(l[n])) && forall i :: 0 <= i < n ==> IsBlank(l[i])
  {
    if l != "" && IsBlank(l[0]) then 1 + Indent(l[1..]) else 0
  }

  // A line without up to `n` blanks at its front.
  function Outdent(l: string, n: nat): string {
    l[if n < Indent(l) then n else Indent(l)..]
  }

  // ---------------------------------------------------------------- all lines

  function LineLength(text: string): (n: nat)
    ensures n <= |text| && (n < |text| ==> text[n] == '\n') && '\n' !in text[..n]
  {
    if text == "" || text[0] == '\n' then 0 else 1 + LineLength(text[1..])
  }

  // The lines of a comment, as their contents.
  function Contents(style: Style, text: string): (cs: seq<string>)
    ensures cs != []
    decreases |text|
  {
    var n := LineLength(text);
    [Content(style, text[..n])] + if n < |text| then Contents(style, text[n + 1..]) else []
  }

  // What the first pass finds out: the first and the last line that is not blank, and the smallest
  // indentation of such lines; -1 for nothing yet.
  datatype Summary = Summary(first: int, last: nat, common: int)

  const NOTHING := Summary(-1, 0, -1)

  function Note(s: Summary, n: nat, content: string): Summary {
    if Indent(content) >= |content| then s
    else
      Summary(if s.first < 0 then n else s.first, n,
              if s.common < 0 || Indent(content) < s.common then Indent(content) else s.common)
  }

  function Summarize(cs: seq<string>, n: nat, s: Summary): Summary
    decreases |cs|
  {
    if cs == [] then s else Summarize(cs[1..], n + 1, Note(s, n, cs[0]))
  }

  // What the second pass writes from line `n` on.
  function Emit(cs: seq<string>, n: nat, s: Summary): string
    requires s.first >= 0 && s.common >= 0
    decreases |cs|
  {
    if cs == [] then ""
    else
      (if s.first <= n <= s.last then (if n > s.first then "\n" else "") + Outdent(cs[0], s.common) else "") +
      (if n >= s.last then "" else Emit(cs[1..], n + 1, s))
  }

  function Normalized(style: Style, text: string): string {
    var cs := Contents(style, text);
    var s := Summarize(cs, 0, NOTHING);
    if s.first < 0 || s.common < 0 then "" else Emit(cs, 0, s)
  }

  // ---------------------------------------------------------------- what it means

  function Join(lines: seq<string>): string {
    if lines == [] then "" else if |lines| == 1 then lines[0] else lines[0] + ("\n" + Join(lines[1..]))
  }

  function OutdentAll(cs: seq<string>, n: nat): (ls: seq<string>)
    ensures |ls| == |cs| && forall i :: 0 <= i < |cs| ==> ls[i] == Outdent(cs[i], n)
  {
    seq(|cs|, i requires 0 <= i < |cs| => Outdent(cs[i], n))
  }

  // The summary of lines: the outermost lines that are not blank, and the least indentation.
  predicate Summarizes(cs: seq<string>, s: Summary) {
    if s.first < 0 then s == NOTHING && forall c <- cs :: c == ""
    else
      && s.first <= s.last < |cs| && cs[s.first] != "" && cs[s.last] != ""
      && (forall i :: 0 <= i < s.first ==> cs[i] == "")
      && (forall i :: s.last < i < |cs| ==> cs[i] == "")
      && s.common >= 0
      && (forall i :: 0 <= i < |cs| && cs[i] != "" ==> Indent(cs[i]) >= s.common)
      && exists i :: s.first <= i <= s.last && cs[i] != "" && Indent(cs[i]) == s.common
  }

  predicate AreTrimmed(cs: seq<string>) {
    forall i :: 0 <= i < |cs| ==> cs[i] == "" || !IsBlank(cs[i][|cs[i]| - 1])
  }

  lemma {:induction false} ContentsAreTrimmed(style: Style, text: string)
    ensures AreTrimmed(Contents(style, text))
    decreases |text|
  {
    hide Content;
    hide LineLength;
    hide AreTrimmed;
    var n := LineLength(text);
    var rest := if n < |text| then Contents(style, text[n + 1..]) else [];
    if n < |text| {
      ContentsAreTrimmed(style, text[n + 1..]);
    } else {
      NothingIsTrimmed();
    }
    OneMoreTrimmed(Content(style, text[..n]), rest);
  }

  lemma NothingIsTrimmed()
    ensures AreTrimmed([])
  {}

  lemma OneMoreTrimmed(c: string, cs: seq<string>)
    requires (c == "" || !IsBlank(c[|c| - 1])) && AreTrimmed(cs)
    ensures AreTrimmed([c] + cs)
  {}

  // A trimmed line is blank only when it is empty.
  lemma TrimmedIsVisible(c: string)
    requires c == "" || !IsBlank(c[|c| - 1])
    ensures Indent(c) >= |c| <==> c == ""
  {}

  lemma {:induction false} SummaryOfPrefix(cs: seq<string>, n: nat, s: Summary)
    requires n <= |cs| && AreTrimmed(cs) && Summarizes(cs[..n], s)
    ensures Summarizes(cs, Summarize(cs[n..], n, s))
    decreases |cs| - n
  {
    if n < |cs| {
      assert cs[n..][1..] == cs[n + 1..] && cs[n] in cs;
      NoteOne(cs, n, s);
      SummaryOfPrefix(cs, n + 1, Note(s, n, cs[n]));
    } else {
      assert cs[..n] == cs;
    }
  }

  lemma NoteOne(cs: seq<string>, n: nat, s: Summary)
    requires n < |cs| && AreTrimmed(cs) && Summarizes(cs[..n], s)
    ensures Summarizes(cs[..n + 1], Note(s, n, cs[n]))
  {
    hide Indent;
    var before, after, c := cs[..n], cs[..n + 1], cs[n];
    assert c in cs;
    TrimmedIsVisible(c);
    assert after == before + [c];
    var t := Note(s, n, c);
    if s.first >= 0 {
      var i :| s.first <= i <= s.last && before[i] != "" && Indent(before[i]) == s.common;
      assert after[i] == before[i];
      if c != "" {
        var least := if Indent(c) < s.common then n else i;
        assert after[least] != "" && t.common == Indent(after[least]);
      }
    } else if c != "" {
      forall i | 0 <= i < n ensures after[i] == "" {
        assert before[i] in before;
      }
      assert after[n] == c;
    }
  }

  lemma SummaryIsRight(cs: seq<string>)
    requires AreTrimmed(cs)
    ensures Summarizes(cs, Summarize(cs, 0, NOTHING))
  {
    hide Summarize;
    assert cs[0..] == cs;
    SummaryOfPrefix(cs, 0, NOTHING);
  }

  // What is emitted is the lines between the outermost visible ones, outdented and joined.
  lemma {:induction false} EmitIsJoin(cs: seq<string>, n: nat, s: Summary)
    requires 0 <= s.first <= s.last < |cs| && s.common >= 0 && n <= s.last
    ensures Emit(cs[n..], n, s) ==
      if n <= s.first then Join(OutdentAll(cs[s.first..s.last + 1], s.common))
      else "\n" + Join(OutdentAll(cs[n..s.last + 1], s.common))
    decreases |cs| - n
  {
    hide *;
    EmitLine(cs, n, s);
    if n < s.last {
      EmitIsJoin(cs, n + 1, s);
    }
    if n >= s.first {
      JoinFrom(cs, n, s);
    }
  }

  // One line of the second pass.
  lemma EmitLine(cs: seq<string>, n: nat, s: Summary)
    requires 0 <= s.first <= s.last < |cs| && s.common >= 0 && n <= s.last
    ensures
      var o, more := Outdent(cs[n], s.common), if n == s.last then "" else Emit(cs[n + 1..], n + 1, s);
      Emit(cs[n..], n, s) ==
        if n < s.first then Emit(cs[n + 1..], n + 1, s)
        else if n == s.first then o + more
        else "\n" + (o + more)
    ensures n == s.last ==> Outdent(cs[n], s.common) + "" == Outdent(cs[n], s.common)
  {
    hide Outdent;
    assert cs[n..][1..] == cs[n + 1..];
    var o, more := Outdent(cs[n], s.common), if n == s.last then "" else Emit(cs[n + 1..], n + 1, s);
    assert "" + more == more && "" + o == o && "\n" + o + more == "\n" + (o + more);
  }

  lemma JoinFrom(cs: seq<string>, n: nat, s: Summary)
    requires n <= s.last < |cs| && s.common >= 0
    ensures Join(OutdentAll(cs[n..s.last + 1], s.common)) ==
      if n == s.last then Outdent(cs[n], s.common)
      else Outdent(cs[n], s.common) + ("\n" + Join(OutdentAll(cs[n + 1..s.last + 1], s.common)))
  {
    var ls := OutdentAll(cs[n..s.last + 1], s.common);
    if n < s.last {
      assert ls[1..] == OutdentAll(cs[n + 1..s.last + 1], s.common);
    }
  }

  // The lines of a normalized comment.
  ghost function Kept(cs: seq<string>, s: Summary): seq<string>
    requires s.first >= 0 && Summarizes(cs, s)
  {
    OutdentAll(cs[s.first..s.last + 1], s.common)
  }

  // The normalized text is empty for a comment without visible text. Otherwise it is the comment's
  // lines from the first to the last visible one, all with the same indentation taken off: the
  // outer two are not blank, none ends with a blank, and one starts without a blank.
  lemma NormalizedIsOutdented(style: Style, text: string)
    ensures
      var cs := Contents(style, text);
      var s := Summarize(cs, 0, NOTHING);
      Summarizes(cs, s) &&
      if s.first < 0 then Normalized(style, text) == "" && forall c <- cs :: c == ""
      else
        var kept := Kept(cs, s);
        && Normalized(style, text) == Join(kept)
        && kept != [] && kept[0] != "" && kept[|kept| - 1] != ""
        && (forall i :: 0 <= i < |kept| ==> kept[i] == "" || !IsBlank(kept[i][|kept[i]| - 1]))
        && exists i :: 0 <= i < |kept| && kept[i] != "" && !IsBlank(kept[i][0])
  {
    hide Contents;
    hide Summarize;
    hide Emit;
    hide Join;
    hide Outdent;
    hide Indent;
    hide OutdentAll;
    var cs := Contents(style, text);
    var s := Summarize(cs, 0, NOTHING);
    ContentsAreTrimmed(style, text);
    SummaryIsRight(cs);
    if s.first >= 0 {
      assert cs[0..] == cs;
      EmitIsJoin(cs, 0, s);
      KeptIsTidy(cs, s);
    }
  }

  lemma KeptIsTidy(cs: seq<string>, s: Summary)
    requires AreTrimmed(cs) && s.first >= 0 && Summarizes(cs, s)
    ensures
      var kept := Kept(cs, s);
      && kept != [] && kept[0] != "" && kept[|kept| - 1] != ""
      && (forall i :: 0 <= i < |kept| ==> kept[i] == "" || !IsBlank(kept[i][|kept[i]| - 1]))
      && exists i :: 0 <= i < |kept| && kept[i] != "" && !IsBlank(kept[i][0])
  {
    hide Indent;
    hide Outdent;
    var kept := Kept(cs, s);
    forall i | 0 <= i < |kept| ensures kept[i] == "" || !IsBlank(kept[i][|kept[i]| - 1]) {
      OutdentKeepsEnd(cs[s.first + i], s.common);
    }
    OutdentKeepsEnd(cs[s.first], s.common);
    OutdentKeepsEnd(cs[s.last], s.common);
    var j :| s.first <= j <= s.last && cs[j] != "" && Indent(cs[j]) == s.common;
    OutdentKeepsEnd(cs[j], s.common);
    var i := j - s.first;
    assert kept[i] == Outdent(cs[j], s.common);
    assert 0 <= i < |kept| && kept[i] != "" && !IsBlank(kept[i][0]);
  }

  lemma OutdentKeepsEnd(c: string, n: nat)
    requires c == "" || !IsBlank(c[|c| - 1])
    ensures var o := Outdent(c, n);
      (o == "" <==> c == "") && (o != "" ==> o[|o| - 1] == c[|c| - 1] && (Indent(c) <= n ==> !IsBlank(o[0])))
  {
    hide *;
    TrimmedIsVisible(c);
    var k := if n < Indent(c) then n else Indent(c);
    OutdentIs(c, n);
    assert k < |c| ==> c[k..] != "" && c[k..][|c| - k - 1] == c[|c| - 1];
  }

  lemma OutdentIs(c: string, n: nat)
    ensures Outdent(c, n) == c[if n < Indent(c) then n else Indent(c)..]
  {}

  // ---------------------------------------------------------------- what an author writes is read back

  // Text as an author means it: visible first and last lines, no blanks at the ends of lines, and
  // not all of it indented.
  predicate IsTidy(lines: seq<string>) {
    && lines != [] && lines[0] != "" && lines[|lines| - 1] != ""
    && (forall i :: 0 <= i < |lines| ==> IsTidyLine(lines[i]))
    && exists i :: 0 <= i < |lines| && lines[i] != "" && Indent(lines[i]) == 0
  }

  predicate IsTidyLine(l: string) {
    '\n' !in l && (l == "" || (!IsBlank(l[|l| - 1]) && l[|l| - 1] != '\r'))
  }

  predicate IsPad(pad: string) {
    forall i :: 0 <= i < |pad| ==> IsBlank(pad[i])
  }

  function Mark(style: Style): string {
    if style == LineStyle then "/// " else "* "
  }

  function DecoratedLines(style: Style, pads: seq<string>, lines: seq<string>): (ds: seq<string>)
    requires |pads| == |lines|
    ensures |ds| == |lines| && forall i :: 0 <= i < |ds| ==> ds[i] == pads[i] + (Mark(style) + lines[i])
  {
    seq(|lines|, i requires 0 <= i < |lines| => pads[i] + (Mark(style) + lines[i]))
  }

  // The text between the ends of a comment that has the lines: `///` comments line by line, a block
  // comment with its lines between the first and the last.
  function Decorated(style: Style, pads: seq<string>, lines: seq<string>, last: string): string
    requires |pads| == |lines|
  {
    if style == LineStyle then Join(DecoratedLines(style, pads, lines))
    else Join([""] + DecoratedLines(style, pads, lines) + [last])
  }

  lemma {:induction false} SkipPad(pad: string, l: string)
    requires IsPad(pad) && (l == "" || !IsBlank(l[0]))
    ensures SkipBlanks(pad + l) == l
    decreases |pad|
  {
    if pad == "" {
      assert pad + l == l;
    } else {
      assert (pad + l)[1..] == pad[1..] + l;
      SkipPad(pad[1..], l);
    }
  }

  lemma ContentOfDecorated(style: Style, pad: string, l: string)
    requires IsPad(pad) && IsTidyLine(l)
    ensures Content(style, pad + (Mark(style) + l)) == l
  {
    hide SkipBlanks;
    var marked := Mark(style) + l;
    SkipPad(pad, marked);
    assert DropReturn(pad + marked) == pad + marked;
    if style == LineStyle {
      assert marked[..3] == "///" && marked[3..] == " " + l;
      assert "///" <= marked;
      assert (" " + l)[1..] == l;
    } else {
      assert marked[..1] == "*" && marked[1..] == " " + l;
      assert (" " + l)[1..] == l;
    }
    TrimTidy(l);
  }

  lemma TrimTidy(l: string)
    requires l == "" || !IsBlank(l[|l| - 1])
    ensures TrimRight(l) == l
  {}

  lemma {:induction false} PadIsBlank(pad: string)
    requires IsPad(pad)
    ensures Content(BlockStyle, pad) == ""
    decreases |pad|
  {
    assert DropReturn(pad) == pad;
    SkipPad(pad, "");
    assert pad + "" == pad;
    TrimPad(pad);
  }

  lemma {:induction false} TrimPad(pad: string)
    requires IsPad(pad)
    ensures TrimRight(pad) == ""
    decreases |pad|
  {
    if pad != "" {
      TrimPad(pad[..|pad| - 1]);
    }
  }

  function AllContents(style: Style, lines: seq<string>): (cs: seq<string>)
    ensures |cs| == |lines| && forall i :: 0 <= i < |cs| ==> cs[i] == Content(style, lines[i])
  {
    seq(|lines|, i requires 0 <= i < |lines| => Content(style, lines[i]))
  }

  // A comment has the lines it was joined of.
  lemma {:induction false} ContentsOfJoin(style: Style, lines: seq<string>)
    requires lines != [] && forall i :: 0 <= i < |lines| ==> '\n' !in lines[i]
    ensures Contents(style, Join(lines)) == AllContents(style, lines)
    decreases |lines|
  {
    hide Content;
    hide Contents;
    if |lines| == 1 {
      FirstContent(style, lines[0], "");
      assert lines[0] + "" == lines[0];
      assert AllContents(style, lines) == [Content(style, lines[0])] + [];
    } else {
      var rest := "\n" + Join(lines[1..]);
      FirstContent(style, lines[0], rest);
      assert rest[1..] == Join(lines[1..]);
      ContentsOfJoin(style, lines[1..]);
      assert AllContents(style, lines) == [Content(style, lines[0])] + AllContents(style, lines[1..]);
    }
  }

  lemma FirstContent(style: Style, line: string, rest: string)
    requires '\n' !in line && (rest == "" || rest[0] == '\n')
    ensures Contents(style, line + rest) == [Content(style, line)] + if rest == "" then [] else Contents(style, rest[1..])
  {
    hide Content;
    hide LineLength;
    FirstLine(line, rest);
    assert rest != "" ==> (line + rest)[|line| + 1..] == rest[1..];
  }

  lemma {:induction false} FirstLine(line: string, rest: string)
    requires '\n' !in line && (rest == "" || rest[0] == '\n')
    ensures LineLength(line + rest) == |line| && (line + rest)[..|line|] == line
    decreases |line|
  {
    if line != "" {
      assert (line + rest)[1..] == line[1..] + rest;
      FirstLine(line[1..], rest);
    } else {
      assert line + rest == rest;
    }
  }

  // Tidy lines, alone or between blank ones, summarize to themselves.
  lemma TidyLinesAreKept(cs: seq<string>, before: nat, lines: seq<string>, s: Summary)
    requires IsTidy(lines) && Summarizes(cs, s) && before + |lines| <= |cs|
    requires cs[before..before + |lines|] == lines
    requires forall i :: 0 <= i < |cs| && !(before <= i < before + |lines|) ==> cs[i] == ""
    ensures s.first >= 0 && Kept(cs, s) == lines
  {
    hide Indent;
    hide Outdent;
    assert forall i :: 0 <= i < |lines| ==> cs[before + i] == lines[i];
    var j :| 0 <= j < |lines| && lines[j] != "" && Indent(lines[j]) == 0;
    assert cs[before + j] in cs;
    assert s.first == before by {
      assert cs[before] != "";
    }
    assert s.last == before + |lines| - 1;
    assert s.common == 0;
    forall i | 0 <= i < |lines| ensures Outdent(lines[i], 0) == lines[i] {
      OutdentIs(lines[i], 0);
    }
    assert Kept(cs, s) == lines;
  }

  // The lines of a decorated comment: blank ones around the lines that were meant.
  lemma ContentsOfDecorated(style: Style, pads: seq<string>, lines: seq<string>, last: string)
    requires |pads| == |lines| && lines != [] && IsPad(last)
    requires forall i :: 0 <= i < |pads| ==> IsPad(pads[i]) && IsTidyLine(lines[i])
    ensures
      var cs, before := Contents(style, Decorated(style, pads, lines, last)), if style == LineStyle then 0 else 1;
      && before + |lines| <= |cs| && cs[before..before + |lines|] == lines
      && forall i :: 0 <= i < |cs| && !(before <= i < before + |lines|) ==> cs[i] == ""
  {
    hide *;
    var ds := DecoratedLines(style, pads, lines);
    forall i | 0 <= i < |ds| ensures Content(style, ds[i]) == lines[i] && '\n' !in ds[i] {
      ContentOfDecorated(style, pads[i], lines[i]);
      NoNewline(style, pads[i], lines[i]);
    }
    var all := if style == LineStyle then ds else [""] + ds + [last];
    DecoratedIsJoin(style, pads, lines, last);
    PadIsBlank(last);
    NoNewlineInPad(last);
    EmptyPad();
    PadIsBlank("");
    ContentsOfJoin(style, all);
    var cs, before := AllContents(style, all), if style == LineStyle then 0 else 1;
    assert forall i :: 0 <= i < |ds| ==> all[before + i] == ds[i];
    assert cs[before..before + |lines|] == lines;
  }

  lemma EmptyPad()
    ensures IsPad("")
  {}

  lemma DecoratedIsJoin(style: Style, pads: seq<string>, lines: seq<string>, last: string)
    requires |pads| == |lines|
    ensures Decorated(style, pads, lines, last) ==
      var ds := DecoratedLines(style, pads, lines);
      Join(if style == LineStyle then ds else [""] + ds + [last])
  {}

  // However the comment is decorated and indented, normalizing it gives back what was meant.
  lemma NormalizedReadsBack(style: Style, pads: seq<string>, lines: seq<string>, last: string)
    requires |pads| == |lines| && IsTidy(lines) && IsPad(last)
    requires forall i :: 0 <= i < |pads| ==> IsPad(pads[i])
    ensures Normalized(style, Decorated(style, pads, lines, last)) == Join(lines)
  {
    hide Indent;
    hide Join;
    hide Contents;
    hide Summarize;
    hide Summarizes;
    hide Normalized;
    hide Decorated;
    var text := Decorated(style, pads, lines, last);
    ContentsOfDecorated(style, pads, lines, last);
    var cs := Contents(style, text);
    NormalizedIsOutdented(style, text);
    TidyLinesAreKept(cs, if style == LineStyle then 0 else 1, lines, Summarize(cs, 0, NOTHING));
  }

  lemma NoNewlineInPad(pad: string)
    requires IsPad(pad)
    ensures '\n' !in pad
  {}

  lemma NoNewline(style: Style, pad: string, l: string)
    requires IsPad(pad) && IsTidyLine(l)
    ensures '\n' !in pad + (Mark(style) + l)
  {
    NoNewlineInPad(pad);
  }
}
