/**
 Translation phases 1 and 2 (section 5.1.1.2 of C11): trigraphs and line splices.

 The tokenizer normalizes a source in two passes. The language service reads the original text in
 one pass and maps normalized offsets back to it. A source is a `string` of bytes; `tri` says
 whether trigraphs are enabled.
 */
module Phases {
  // ---------------------------------------------------------------- one element of the source

  // The size of the line splice at `cursor`, 0 if there is none.
  function SpliceSize(s: string, cursor: nat, tri: bool): (w: nat)
    ensures w > 0 ==> 2 <= w <= 5 && cursor + w <= |s| && s[cursor + w - 1] == '\n'
    ensures w > 3 ==> tri
  {
    if cursor >= |s| then 0
    else if s[cursor] == '\\' && cursor + 1 < |s| && s[cursor + 1] == '\n' then 2
    else if s[cursor] == '\\' && cursor + 2 < |s| && s[cursor + 1] == '\r' && s[cursor + 2] == '\n' then 3
    else if tri && cursor + 3 < |s| && s[cursor] == '?' && s[cursor + 1] == '?' && s[cursor + 2] == '/' then
      if s[cursor + 3] == '\n' then 4
      else if cursor + 4 < |s| && s[cursor + 3] == '\r' && s[cursor + 4] == '\n' then 5
      else 0
    else 0
  }

  // The character a trigraph stands for, '\0' if `suffix` ends none.
  function Replacement(suffix: char): char {
    match suffix
    case '=' => '#'
    case '(' => '['
    case '/' => '\\'
    case ')' => ']'
    case '\'' => '^'
    case '<' => '{'
    case '>' => '}'
    case '!' => '|'
    case '-' => '~'
    case _ => '\0'
  }

  function PhaseOneWidth(s: string, cursor: nat, tri: bool): (w: nat)
    ensures w in {0, 1, 3} && (w == 0 <==> cursor >= |s|) && (w == 3 ==> cursor + 3 <= |s|)
  {
    if tri && cursor + 2 < |s| && s[cursor] == '?' && s[cursor + 1] == '?' && Replacement(s[cursor + 2]) != '\0' then 3
    else if cursor < |s| then 1
    else 0
  }

  lemma SpliceShift(s: string, cursor: nat, tri: bool)
    requires cursor <= |s|
    ensures SpliceSize(s, cursor, tri) == SpliceSize(s[cursor..], 0, tri)
    ensures PhaseOneWidth(s, cursor, tri) == PhaseOneWidth(s[cursor..], 0, tri)
  {}

  // ---------------------------------------------------------------- the two passes of the tokenizer

  function ReplaceTrigraphs(s: string, tri: bool): string {
    if !tri then s
    else if s == "" then ""
    else if |s| > 2 && s[0] == '?' && s[1] == '?' && Replacement(s[2]) != '\0' then
      [Replacement(s[2])] + ReplaceTrigraphs(s[3..], tri)
    else [s[0]] + ReplaceTrigraphs(s[1..], tri)
  }

  function SpliceByteCount(s: string): (w: nat)
    ensures w <= |s|
  {
    if |s| > 1 && s[0] == '\\' && s[1] == '\n' then 2
    else if |s| > 2 && s[0] == '\\' && s[1] == '\r' && s[2] == '\n' then 3
    else 0
  }

  function RemoveSplices(s: string): string {
    if s == "" then ""
    else if SpliceByteCount(s) > 0 then RemoveSplices(s[SpliceByteCount(s)..])
    else [s[0]] + RemoveSplices(s[1..])
  }

  function Normalize(s: string, tri: bool): string {
    RemoveSplices(ReplaceTrigraphs(s, tri))
  }

  // ---------------------------------------------------------------- the single pass

  // The element a nonempty text starts with: a splice, a trigraph or a character.
  function Width(s: string, tri: bool): (w: nat)
    requires s != ""
    ensures 0 < w <= |s|
  {
    if SpliceSize(s, 0, tri) > 0 then SpliceSize(s, 0, tri) else PhaseOneWidth(s, 0, tri)
  }

  // What phases 1 and 2 leave of it.
  function Text(s: string, tri: bool): (text: string)
    requires s != ""
    ensures |text| == if SpliceSize(s, 0, tri) > 0 then 0 else 1
  {
    if SpliceSize(s, 0, tri) > 0 then ""
    else if PhaseOneWidth(s, 0, tri) == 3 then [Replacement(s[2])]
    else [s[0]]
  }

  function OnePass(s: string, tri: bool): string
    decreases |s|
  {
    if s == "" then "" else Text(s, tri) + OnePass(s[Width(s, tri)..], tri)
  }

  lemma NewlineHead(s: string, tri: bool)
    ensures ReplaceTrigraphs(s, tri) == "" <==> s == ""
    ensures s != "" ==> (ReplaceTrigraphs(s, tri)[0] == '\n' <==> s[0] == '\n')
    ensures s != "" ==> (ReplaceTrigraphs(s, tri)[0] == '\r' <==> s[0] == '\r')
  {}

  // Whether phase 1 puts a splice at the front is decided by the original bytes.
  lemma SpliceAfterPhaseOne(s: string, tri: bool)
    requires s != ""
    ensures var w, r := SpliceSize(s, 0, tri), ReplaceTrigraphs(s, tri);
      && (w > 0 <==> SpliceByteCount(r) > 0)
      && (w > 0 ==> r[SpliceByteCount(r)..] == ReplaceTrigraphs(s[w..], tri))
  {
    var r := ReplaceTrigraphs(s, tri);
    if tri && |s| > 2 && s[0] == '?' && s[1] == '?' && s[2] == '/' {
      var rest := s[3..];
      NewlineHead(rest, tri);
      assert r == ['\\'] + ReplaceTrigraphs(rest, tri);
      if rest != "" {
        NewlineHead(rest[1..], tri);
        assert rest[1..] == s[4..];
        if rest[0] == '\r' && |rest| > 1 && rest[1] == '\n' {
          assert ReplaceTrigraphs(rest, tri) == ['\r'] + (['\n'] + ReplaceTrigraphs(rest[1..][1..], tri));
          assert rest[1..][1..] == s[5..];
        }
      }
    } else if s[0] == '\\' && tri {
      NewlineHead(s[1..], tri);
      assert r == ['\\'] + ReplaceTrigraphs(s[1..], tri);
      if |s| > 1 {
        NewlineHead(s[1..][1..], tri);
        assert s[1..][1..] == s[2..];
        if s[1] == '\r' && |s| > 2 && s[2] == '\n' {
          assert ReplaceTrigraphs(s[2..], tri) == ['\n'] + ReplaceTrigraphs(s[3..], tri);
        }
      }
    }
  }

  // Reading the original once gives what the tokenizer's two passes give.
  lemma {:induction false} OnePassIsNormalize(s: string, tri: bool)
    ensures OnePass(s, tri) == Normalize(s, tri)
    decreases |s|
  {
    if s != "" {
      SpliceAfterPhaseOne(s, tri);
      OnePassIsNormalize(s[Width(s, tri)..], tri);
      if SpliceSize(s, 0, tri) == 0 {
        assert ReplaceTrigraphs(s, tri) == Text(s, tri) + ReplaceTrigraphs(s[Width(s, tri)..], tri);
      }
    }
  }

  // Normalizing goes element by element.
  lemma NormalizeStep(s: string, tri: bool)
    ensures s == "" ==> Normalize(s, tri) == ""
    ensures s != "" ==> Normalize(s, tri) == Text(s, tri) + Normalize(s[Width(s, tri)..], tri)
  {
    OnePassIsNormalize(s, tri);
    if s != "" {
      OnePassIsNormalize(s[Width(s, tri)..], tri);
    }
  }

  // Cutting the text behind an element does not change the element.
  lemma ElementOfPrefix(s: string, n: nat, tri: bool)
    requires s != "" && Width(s, tri) <= n <= |s|
    ensures Width(s[..n], tri) == Width(s, tri) && Text(s[..n], tri) == Text(s, tri)
  {}

  // ---------------------------------------------------------------- trigraphs and splices

  // The nine trigraphs of section 5.2.1.1 of C11.
  lemma TrigraphsAre(c: char)
    ensures Replacement('=') == '#' && Replacement('(') == '[' && Replacement('/') == '\\' && Replacement(')') == ']'
    ensures Replacement('\'') == '^' && Replacement('<') == '{' && Replacement('!') == '|' && Replacement('>') == '}'
    ensures Replacement('-') == '~'
    ensures Replacement(c) != '\0' <==> c in "=(/)'<!>-"
  {}

  // A splice is a backslash in front of the end of a line, which is a line feed or a return and a line
  // feed.
  lemma SplicesAre(s: string)
    ensures SpliceByteCount(s) == if "\\\n" <= s then 2 else if "\\\r\n" <= s then 3 else 0
  {}
}
