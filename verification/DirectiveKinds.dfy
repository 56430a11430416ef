/**
 The kind of a directive as the language service reads it off the source, and as it is read off the
 normalized line.
 */
module DirectiveKinds {
  import opened Conditionals
  import opened LogicalLines
  import opened OffsetMap
  import opened Options
  import opened Phases
  import opened SpanWords

  // ---------------------------------------------------------------- reading a normalized line

  predicate IsSpace(c: char) {
    c == ' ' || c == '\t' || c == '\r'
  }

  // The text behind the end of a comment, nothing if the comment does not end.
  function BehindComment(n: string): (r: string)
    ensures |r| <= |n|
  {
    if |n| < 2 then "" else if n[0] == '*' && n[1] == '/' then n[2..] else BehindComment(n[1..])
  }

  predicate OpensComment(n: string) {
    |n| > 1 && n[0] == '/' && n[1] == '*'
  }

  function BehindSpacing(n: string): (r: string)
    ensures |r| <= |n|
    decreases |n|
  {
    if n == "" then ""
    else if IsSpace(n[0]) then BehindSpacing(n[1..])
    else if OpensComment(n) then BehindSpacing(BehindComment(n[2..]))
    else n
  }

  // The word at the front, and nothing more of an identifier.
  predicate NameIs(n: string, word: string) {
    word <= n && !StartsWithIdent(n[|word|..])
  }

  function KindOfName(n: string): LineKind {
    if NameIs(n, "if") then Open
    else if NameIs(n, "ifdef") then Open
    else if NameIs(n, "ifndef") then Open
    else if NameIs(n, "elif") then Branch
    else if NameIs(n, "else") then Branch
    else if NameIs(n, "endif") then Endif
    else Other
  }

  predicate StartsHash(n: string) {
    n != "" && n[0] == '#'
  }

  predicate StartsDigraph(n: string) {
    |n| > 1 && n[0] == '%' && n[1] == ':'
  }

  // The directive on a line that phases 1 and 2 have left, for a line that no comment runs into;
  // `%:` is a spelling of `#` (section 6.4.6 of C11).
  function KindOfText(n: string): LineKind {
    var d := BehindSpacing(n);
    if StartsHash(d) then KindOfName(BehindSpacing(d[1..]))
    else if StartsDigraph(d) then KindOfName(BehindSpacing(d[2..]))
    else Other
  }

  // ---------------------------------------------------------------- reading the source of the line

  // The code's reading, on the rest of the line.
  function RawSpacing(u: string, tri: bool): (r: string)
    ensures |r| <= |u|
    decreases |u|
  {
    if u == "" then ""
    else if SpliceSize(u, 0, tri) > 0 then RawSpacing(u[SpliceSize(u, 0, tri)..], tri)
    else if IsSpace(u[0]) then RawSpacing(u[1..], tri)
    else if OpensComment(u) then RawSpacing(BehindComment(u[2..]), tri)
    else u
  }

  function RawMatch(u: string, word: string, tri: bool): (r: Option<string>)
    decreases |word|, |u|
  {
    if word == "" then Some(u)
    else if SpliceSize(u, 0, tri) > 0 then RawMatch(u[SpliceSize(u, 0, tri)..], word, tri)
    else if u == "" || u[0] != word[0] then None
    else RawMatch(u[1..], word[1..], tri)
  }

  // No splice runs over the end of the line.
  predicate EndsWhole(s: string, start: nat, end: nat, tri: bool) {
    start <= end <= |s| && forall x :: start <= x < end ==> x + SpliceSize(s, x, tri) <= end
  }

  lemma SpliceInLine(s: string, c: nat, end: nat, tri: bool)
    requires EndsWhole(s, c, end, tri)
    ensures c <= end <= |s| && (c < end ==> c + SpliceSize(s, c, tri) <= end)
    ensures SpliceSize(s[c..end], 0, tri) == if c < end then SpliceSize(s, c, tri) else 0
  {}

  lemma {:induction false} CommentIsRaw(s: string, c: nat, end: nat)
    requires c <= end <= |s|
    ensures var r := CommentTail(s, c, end);
      BehindComment(s[c..end]) == (if r + 1 >= end then "" else s[r + 2..end])
    decreases end - c
  {
    if c + 1 < end && !(s[c] == '*' && s[c + 1] == '/') {
      CommentIsRaw(s, c + 1, end);
      assert s[c..end][1..] == s[c + 1..end];
    } else if c + 1 < end {
      assert s[c..end][2..] == s[c + 2..end];
    }
  }

  lemma WholeFurther(s: string, c: nat, d: nat, end: nat, tri: bool)
    requires EndsWhole(s, c, end, tri) && c <= d <= end
    ensures EndsWhole(s, d, end, tri) && s[c..end][d - c..] == s[d..end]
  {
    hide SpliceSize;
  }

  lemma {:induction false} SpacingIsRaw(s: string, c: nat, end: nat, tri: bool)
    requires EndsWhole(s, c, end, tri)
    ensures var r := SkipSpacing(s, c, end, tri);
      c <= r <= end && RawSpacing(s[c..end], tri) == s[r..end]
    decreases end - c
  {
    hide SkipSpacing;
    hide RawSpacing;
    hide EndsWhole;
    hide OpensComment;
    hide SpliceSize;
    var d := SpacingStep(s, c, end, tri);
    if d > c {
      WholeFurther(s, c, d, end, tri);
      SpacingIsRaw(s, d, end, tri);
    }
  }

  // One round of each reading.
  lemma SkipUnfold(s: string, c: nat, end: nat, tri: bool)
    requires c < end <= |s|
    ensures
      var w := SpliceSize(s, c, tri);
      && (w > 0 ==> SkipSpacing(s, c, end, tri) == SkipSpacing(s, c + w, end, tri))
      && (w == 0 && IsSpace(s[c]) ==> SkipSpacing(s, c, end, tri) == SkipSpacing(s, c + 1, end, tri))
      && (w == 0 && !IsSpace(s[c]) && !(c + 1 < end && s[c] == '/' && s[c + 1] == '*') ==>
          SkipSpacing(s, c, end, tri) == c)
  {
    hide SpliceSize;
    hide CommentTail;
  }

  lemma SkipComment(s: string, c: nat, end: nat, tri: bool)
    requires c + 1 < end <= |s| && SpliceSize(s, c, tri) == 0 && s[c] == '/' && s[c + 1] == '*'
    ensures
      var tail := CommentTail(s, c + 2, end);
      SkipSpacing(s, c, end, tri) == if tail + 1 >= end then end else SkipSpacing(s, tail + 2, end, tri)
  {
    hide SpliceSize;
    hide CommentTail;
  }

  lemma RawUnfold(u: string, tri: bool)
    requires u != ""
    ensures
      var w := SpliceSize(u, 0, tri);
      && (w > 0 ==> RawSpacing(u, tri) == RawSpacing(u[w..], tri))
      && (w == 0 && IsSpace(u[0]) ==> RawSpacing(u, tri) == RawSpacing(u[1..], tri))
      && (w == 0 && OpensComment(u) ==> RawSpacing(u, tri) == RawSpacing(BehindComment(u[2..]), tri))
      && (w == 0 && !IsSpace(u[0]) && !OpensComment(u) ==> RawSpacing(u, tri) == u)
  {
    hide SpliceSize;
    hide BehindComment;
  }

  // The same round of both: `d` is where the code goes on, `c` itself where it stops.
  lemma SpacingStep(s: string, c: nat, end: nat, tri: bool) returns (d: nat)
    requires EndsWhole(s, c, end, tri)
    ensures c <= d <= end
    ensures SkipSpacing(s, c, end, tri) == if d > c then SkipSpacing(s, d, end, tri) else c
    ensures RawSpacing(s[c..end], tri) == if d > c then RawSpacing(s[d..end], tri) else s[c..end]
  {
    hide *;
    d := c;
    SpliceInLine(s, c, end, tri);
    SpacingAtEnd(s, end, tri);
    if c < end {
      var u, w := s[c..end], SpliceSize(s, c, tri);
      SkipUnfold(s, c, end, tri);
      RawUnfold(u, tri);
      CommentInLine(s, c, end);
      assert u[0] == s[c];
      if w > 0 {
        d := c + w;
        assert u[w..] == s[d..end];
      } else if IsSpace(s[c]) {
        d := c + 1;
        assert u[1..] == s[d..end];
      } else if OpensComment(u) {
        SkipComment(s, c, end, tri);
        CommentIsRaw(s, c + 2, end);
        assert u[2..] == s[c + 2..end];
        var tail := CommentTail(s, c + 2, end);
        d := if tail + 1 >= end then end else tail + 2;
        assert s[end..end] == "";
      }
    }
  }

  lemma CommentInLine(s: string, c: nat, end: nat)
    requires c < end <= |s|
    ensures OpensComment(s[c..end]) <==> c + 1 < end && s[c] == '/' && s[c + 1] == '*'
    ensures OpensComment(s[c..end]) ==> !IsSpace(s[c])
  {}

  lemma SpacingAtEnd(s: string, end: nat, tri: bool)
    requires end <= |s|
    ensures SkipSpacing(s, end, end, tri) == end && RawSpacing(s[end..end], tri) == s[end..end]
  {}

  lemma {:induction false} MatchIsRaw(s: string, c: nat, end: nat, word: string, tri: bool)
    requires EndsWhole(s, c, end, tri)
    ensures
      var after := MatchWord(s, c, end, word, tri);
      if after.Some? then c <= after.value <= end && RawMatch(s[c..end], word, tri) == Some(s[after.value..end])
      else RawMatch(s[c..end], word, tri) == None
    decreases |word|, end - c
  {
    hide *;
    SpliceInLine(s, c, end, tri);
    MatchUnfold(s, c, end, word, tri);
    RawMatchUnfold(s[c..end], word, tri);
    if word != "" {
      var w := SpliceSize(s, c, tri);
      if c == end {
        MatchBehind(s, c, end, word, tri);
        assert s[c..end] == "";
      } else if w > 0 {
        WholeFurther(s, c, c + w, end, tri);
        assert s[c..end][w..] == s[c + w..end];
        MatchIsRaw(s, c + w, end, word, tri);
      } else if s[c] == word[0] {
        WholeFurther(s, c, c + 1, end, tri);
        assert s[c..end][1..] == s[c + 1..end] && s[c..end][0] == s[c];
        MatchIsRaw(s, c + 1, end, word[1..], tri);
      } else {
        assert s[c..end][0] == s[c];
      }
    }
  }

  lemma MatchUnfold(s: string, c: nat, end: nat, word: string, tri: bool)
    requires end <= |s|
    ensures
      MatchWord(s, c, end, word, tri) ==
      if word == "" then Some(c)
      else if SpliceSize(s, c, tri) > 0 then MatchWord(s, c + SpliceSize(s, c, tri), end, word, tri)
      else if c >= end || s[c] != word[0] then None
      else MatchWord(s, c + 1, end, word[1..], tri)
  {
    hide SpliceSize;
  }

  lemma RawMatchUnfold(u: string, word: string, tri: bool)
    ensures
      RawMatch(u, word, tri) ==
      if word == "" then Some(u)
      else if SpliceSize(u, 0, tri) > 0 then RawMatch(u[SpliceSize(u, 0, tri)..], word, tri)
      else if u == "" || u[0] != word[0] then None
      else RawMatch(u[1..], word[1..], tri)
  {
    hide SpliceSize;
  }

  // Behind the end of the line nothing matches.
  lemma {:induction false} MatchBehind(s: string, c: nat, end: nat, word: string, tri: bool)
    requires end <= c && end <= |s| && word != ""
    ensures MatchWord(s, c, end, word, tri) == None
    decreases |s| - c
  {
    hide SpliceSize;
    if SpliceSize(s, c, tri) > 0 {
      MatchBehind(s, c + SpliceSize(s, c, tri), end, word, tri);
    }
  }

  // Whether an identifier goes on behind splices.
  lemma {:induction false} IdentGoesOn(s: string, c: nat, end: nat, tri: bool)
    requires EndsWhole(s, c, end, tri)
    ensures
      var behind := SkipSplices(s, c, end, tri);
      StartsWithIdent(Normalize(s[c..end], tri)) <==> behind < end && IsIdentifierByte(s[behind])
    decreases end - c
  {
    hide SpliceSize;
    hide Normalize;
    hide IsIdentifierByte;
    SpliceInLine(s, c, end, tri);
    if c < end {
      BehindElement(s[c..end], 0, tri);
      assert s[c..end][0..] == s[c..end];
      var w := SpliceSize(s, c, tri);
      assert w > 0 ==> c + w <= end;
      hide EndsWhole;
      if w > 0 {
        WholeFurther(s, c, c + w, end, tri);
        IdentGoesOn(s, c + w, end, tri);
      }
    } else {
      NormalizeStep(s[c..end], tri);
    }
  }

  // ---------------------------------------------------------------- the two readings

  // Splices stand between the first byte and a character `c` of the normalized text.
  predicate IsSplit(u: string, c: char, tri: bool) {
    u != "" && SpliceSize(u, 1, tri) > 0 && var m := Normalize(u[1..], tri); m != "" && m[0] == c
  }

  // No end of a comment is split.
  predicate ClosersAreWhole(u: string, tri: bool) {
    forall x :: 0 <= x < |u| && u[x] == '*' ==> !IsSplit(u[x..], '/', tri)
  }

  lemma WholeBehind(u: string, k: nat, tri: bool)
    requires ClosersAreWhole(u, tri) && k <= |u|
    ensures ClosersAreWhole(u[k..], tri)
  {
    hide IsSplit;
    forall x | 0 <= x < |u[k..]| && u[k..][x] == '*' ensures !IsSplit(u[k..][x..], '/', tri) {
      assert u[k..][x..] == u[k + x..] && u[k + x] == '*';
    }
  }

  // What phases 1 and 2 leave of a trigraph.
  predicate IsReplacement(c: char) {
    c in {'#', '[', '\\', ']', '^', '{', '}', '|', '~'}
  }

  lemma FirstElement(v: string, tri: bool)
    requires v != ""
    ensures
      var w := SpliceSize(v, 0, tri);
      if w > 0 then Normalize(v, tri) == Normalize(v[w..], tri) && '*' !in v[..w]
      else if PhaseOneWidth(v, 0, tri) == 3 then
        && v[0] == '?' && '*' !in v[..3]
        && IsReplacement(Replacement(v[2])) && Normalize(v, tri) == [Replacement(v[2])] + Normalize(v[3..], tri)
      else Normalize(v, tri) == [v[0]] + Normalize(v[1..], tri)
  {
    hide Normalize;
    NormalizeStep(v, tri);
    if SpliceSize(v, 0, tri) > 0 {
      assert "" + Normalize(v[Width(v, tri)..], tri) == Normalize(v[Width(v, tri)..], tri);
    }
  }

  lemma {:induction false} WithoutStar(v: string, k: nat)
    requires k <= |v| && '*' !in v[..k]
    ensures BehindComment(v) == BehindComment(v[k..])
    decreases k
  {
    if k == 0 {
      assert v[0..] == v;
    } else {
      assert v[0] == v[..k][0] && v[1..][..k - 1] == v[..k][1..] && v[1..][k - 1..] == v[k..];
      WithoutStar(v[1..], k - 1);
    }
  }

  lemma OneMore(x: char, m: string)
    ensures BehindComment([x] + m) == if x == '*' && m != "" && m[0] == '/' then m[1..] else BehindComment(m)
  {
    assert ([x] + m)[1..] == m;
    if m != "" {
      assert ([x] + m)[2..] == m[1..];
    }
  }

  // A whole closer is seen in both texts, and nothing else is taken for one.
  lemma CloserAgrees(v: string, tri: bool)
    requires v != "" && v[0] == '*' && !IsSplit(v, '/', tri)
    ensures var m := Normalize(v[1..], tri); (m != "" && m[0] == '/') <==> (|v| > 1 && v[1] == '/')
    ensures |v| > 1 && v[1] == '/' ==> Normalize(v[1..], tri)[1..] == Normalize(v[2..], tri)
  {
    hide Normalize;
    NormalizeStep("", tri);
    if |v| > 1 {
      SpliceShift(v, 1, tri);
      FirstElement(v[1..], tri);
      assert v[1..][1..] == v[2..] && v[1..][0] == v[1];
      if v[1] == '/' {
        assert (['/'] + Normalize(v[2..], tri))[1..] == Normalize(v[2..], tri);
      }
    } else {
      assert v[1..] == "";
    }
  }

  lemma {:induction false} TailAgrees(v: string, tri: bool)
    requires ClosersAreWhole(v, tri)
    ensures ClosersAreWhole(BehindComment(v), tri) && BehindComment(Normalize(v, tri)) == Normalize(BehindComment(v), tri)
    decreases |v|
  {
    hide *;
    if v == "" {
      NothingAgrees(tri);
    } else {
      FirstElement(v, tri);
      var w := SpliceSize(v, 0, tri);
      var k := if w > 0 then w else if PhaseOneWidth(v, 0, tri) == 3 then 3 else 1;
      ElementFits(v, tri);
      WholeBehind(v, k, tri);
      TailAgrees(v[k..], tri);
      if k > 1 {
        WithoutStar(v, k);
        if w == 0 {
          ReplacementIsPlain(v, tri);
          OneMore(Replacement(v[2]), Normalize(v[3..], tri));
        }
      } else {
        OneMore(v[0], Normalize(v[1..], tri));
        OneMore(v[0], v[1..]);
        assert v == [v[0]] + v[1..];
        if v[0] == '*' {
          FrontIsWhole(v, tri);
          CloserAgrees(v, tri);
          if |v| > 1 && v[1] == '/' {
            WholeBehind(v, 2, tri);
            assert v[1..][1..] == v[2..];
          }
        }
      }
    }
  }

  lemma NothingAgrees(tri: bool)
    ensures BehindComment("") == "" && Normalize("", tri) == "" && ClosersAreWhole("", tri)
  {}

  lemma ElementFits(v: string, tri: bool)
    requires v != ""
    ensures SpliceSize(v, 0, tri) <= |v| && (SpliceSize(v, 0, tri) > 0 ==> SpliceSize(v, 0, tri) > 1)
    ensures PhaseOneWidth(v, 0, tri) == 3 ==> |v| >= 3
  {}

  lemma ReplacementIsPlain(v: string, tri: bool)
    requires v != "" && PhaseOneWidth(v, 0, tri) == 3
    ensures |v| >= 3 && Replacement(v[2]) != '*' && Replacement(v[2]) != '/' && !IsSpace(Replacement(v[2]))
    ensures v[0] == '?'
  {}

  lemma FrontIsWhole(v: string, tri: bool)
    requires v != "" && v[0] == '*' && ClosersAreWhole(v, tri)
    ensures !IsSplit(v, '/', tri)
  {
    hide IsSplit;
    assert v[0..] == v;
  }

  // ---------------------------------------------------------------- spacing

  // A `/` with splices between it and the `*` of a comment.
  predicate IsSplitOpener(r: string, tri: bool) {
    r != "" && r[0] == '/' && IsSplit(r, '*', tri)
  }

  lemma {:induction false} SpacingAgrees(u: string, tri: bool)
    requires ClosersAreWhole(u, tri)
    ensures
      var r := RawSpacing(u, tri);
      && ClosersAreWhole(r, tri) && IsSettled(r, tri)
      && (!IsSplitOpener(r, tri) ==> BehindSpacing(Normalize(u, tri)) == Normalize(r, tri))
    decreases |u|
  {
    hide *;
    if u == "" {
      NothingSettled(tri);
      NothingAgrees(tri);
    } else {
      FirstElement(u, tri);
      RawUnfold(u, tri);
      ElementFits(u, tri);
      var w := SpliceSize(u, 0, tri);
      if w > 0 {
        WholeBehind(u, w, tri);
        SpacingAgrees(u[w..], tri);
      } else if IsSpace(u[0]) {
        WholeBehind(u, 1, tri);
        SpacingAgrees(u[1..], tri);
        BlankAgrees(u, tri);
      } else if OpensComment(u) {
        TwoOpen(u);
        CommentAgrees(u, tri);
        SpacingAgrees(BehindComment(u[2..]), tri);
      } else {
        SettledHere(u, tri);
        if !IsSplitOpener(u, tri) {
          StopAgrees(u, tri);
        }
      }
    }
  }

  // Where the code stops.
  predicate IsSettled(r: string, tri: bool) {
    r != "" ==> SpliceSize(r, 0, tri) == 0 && !IsSpace(r[0]) && !OpensComment(r)
  }

  lemma NothingSettled(tri: bool)
    ensures RawSpacing("", tri) == "" && IsSettled("", tri) && BehindSpacing("") == ""
  {}

  lemma SettledHere(u: string, tri: bool)
    requires u != "" && SpliceSize(u, 0, tri) == 0 && !IsSpace(u[0]) && !OpensComment(u)
    ensures IsSettled(u, tri)
  {}

  lemma BlankAgrees(u: string, tri: bool)
    requires u != "" && IsSpace(u[0]) && SpliceSize(u, 0, tri) == 0
    ensures BehindSpacing(Normalize(u, tri)) == BehindSpacing(Normalize(u[1..], tri))
  {
    hide Normalize;
    FirstElement(u, tri);
    assert ([u[0]] + Normalize(u[1..], tri))[1..] == Normalize(u[1..], tri);
  }

  lemma TwoOpen(u: string)
    requires OpensComment(u)
    ensures |u| >= 2
  {}

  lemma CommentAgrees(u: string, tri: bool)
    requires OpensComment(u) && ClosersAreWhole(u, tri)
    ensures |BehindComment(u[2..])| < |u| && ClosersAreWhole(BehindComment(u[2..]), tri)
    ensures BehindSpacing(Normalize(u, tri)) == BehindSpacing(Normalize(BehindComment(u[2..]), tri))
  {
    hide Normalize;
    hide BehindComment;
    hide ClosersAreWhole;
    FirstElement(u, tri);
    FirstElement(u[1..], tri);
    assert u[1..][1..] == u[2..];
    var n := Normalize(u, tri);
    assert n == ['/'] + (['*'] + Normalize(u[2..], tri));
    assert n[2..] == Normalize(u[2..], tri);
    WholeBehind(u, 2, tri);
    TailAgrees(u[2..], tri);
  }

  lemma StopAgrees(u: string, tri: bool)
    requires u != "" && IsSettled(u, tri) && !IsSplitOpener(u, tri)
    ensures BehindSpacing(Normalize(u, tri)) == Normalize(u, tri)
  {
    hide Normalize;
    FirstElement(u, tri);
    NormalizeStep("", tri);
    if u[0] == '/' && |u| > 1 {
      SpliceShift(u, 1, tri);
      FirstElement(u[1..], tri);
    }
  }

  // ---------------------------------------------------------------- words

  // The letters of a directive's name.
  predicate IsName(word: string) {
    forall i :: 0 <= i < |word| ==> 'a' <= word[i] <= 'z'
  }

  lemma {:induction false} NameAgrees(u: string, word: string, tri: bool)
    requires IsName(word)
    ensures
      var rest, n := RawMatch(u, word, tri), Normalize(u, tri);
      (rest.Some? <==> word <= n) && (rest.Some? ==> Normalize(rest.value, tri) == n[|word|..])
    decreases |word|, |u|
  {
    hide *;
    RawMatchUnfold(u, word, tri);
    var n := Normalize(u, tri);
    if word == "" {
      assert n[0..] == n;
    } else if u == "" {
      NothingAgrees(tri);
      NothingToSplice("", tri);
    } else {
      FirstElement(u, tri);
      ElementFits(u, tri);
      var w := SpliceSize(u, 0, tri);
      if w > 0 {
        NameAgrees(u[w..], word, tri);
      } else {
        LetterIsPlain(u, word, tri);
        if u[0] == word[0] {
          var m := Normalize(u[1..], tri);
          NameAgrees(u[1..], word[1..], tri);
          assert word == [word[0]] + word[1..] && n == [word[0]] + m;
          assert word <= n <==> word[1..] <= m;
          assert word <= n ==> n[|word|..] == m[|word| - 1..];
        }
      }
    }
  }

  lemma LetterIsPlain(u: string, word: string, tri: bool)
    requires IsName(word) && word != "" && u != "" && SpliceSize(u, 0, tri) == 0
    ensures IsName(word[1..])
    ensures PhaseOneWidth(u, 0, tri) == 3 ==> u[0] != word[0] && !(word <= [Replacement(u[2])] + Normalize(u[3..], tri))
    ensures PhaseOneWidth(u, 0, tri) != 3 && u[0] != word[0] ==> !(word <= [u[0]] + Normalize(u[1..], tri))
  {
    hide Normalize;
  }

  lemma WordAgrees(s: string, start: nat, end: nat, word: string, tri: bool)
    requires EndsWhole(s, start, end, tri) && IsName(word)
    ensures WordIs(s, start, end, word, tri) <==> NameIs(Normalize(s[start..end], tri), word)
  {
    hide MatchWord;
    hide RawMatch;
    hide SkipSplices;
    hide Normalize;
    hide SpliceSize;
    hide IsIdentifierByte;
    hide EndsWhole;
    SpliceInLine(s, start, end, tri);
    MatchIsRaw(s, start, end, word, tri);
    NameAgrees(s[start..end], word, tri);
    var after := MatchWord(s, start, end, word, tri);
    if after.Some? {
      WholeFurther(s, start, after.value, end, tri);
      IdentGoesOn(s, after.value, end, tri);
    }
  }

  // ---------------------------------------------------------------- kinds

  // The code does not see a `#` spelled as a trigraph or as `%:`, nor a comment whose opening is split.
  predicate IsMisread(u: string, tri: bool) {
    var r := RawSpacing(u, tri);
    if StartsHash(r) then IsSplitOpener(RawSpacing(r[1..], tri), tri)
    else
      IsSplitOpener(r, tri) || StartsHash(Normalize(r, tri)) || StartsDigraph(Normalize(r, tri))
  }

  function KindOfWord(s: string, word: nat, end: nat, tri: bool): LineKind
    requires end <= |s|
  {
    if WordIs(s, word, end, "if", tri) then Open
    else if WordIs(s, word, end, "ifdef", tri) then Open
    else if WordIs(s, word, end, "ifndef", tri) then Open
    else if WordIs(s, word, end, "elif", tri) then Branch
    else if WordIs(s, word, end, "else", tri) then Branch
    else if WordIs(s, word, end, "endif", tri) then Endif
    else Other
  }

  lemma KindOfWordAgrees(s: string, start: nat, end: nat, tri: bool)
    requires EndsWhole(s, start, end, tri)
    ensures start <= end <= |s| && KindOfWord(s, start, end, tri) == KindOfName(Normalize(s[start..end], tri))
  {
    hide WordIs;
    hide NameIs;
    hide Normalize;
    hide SpliceSize;
    WordAgrees(s, start, end, "if", tri);
    WordAgrees(s, start, end, "ifdef", tri);
    WordAgrees(s, start, end, "ifndef", tri);
    WordAgrees(s, start, end, "elif", tri);
    WordAgrees(s, start, end, "else", tri);
    WordAgrees(s, start, end, "endif", tri);
  }

  // Nothing that starts like a comment is a name.
  lemma SlashIsNoName(n: string)
    requires n != "" && n[0] == '/'
    ensures KindOfName(n) == Other
  {}

  // On a line that no comment runs into, and in which no splice cuts the end of a comment, the code
  // finds the directive of the normalized line, or none where it misreads the line.
  lemma KindAgrees(s: string, start: nat, end: nat, tri: bool)
    requires EndsWhole(s, start, end, tri) && ClosersAreWhole(s[start..end], tri)
    ensures start <= end <= |s| &&
      KindOf(s, start, end, tri) ==
      if IsMisread(s[start..end], tri) then Other else KindOfText(Normalize(s[start..end], tri))
  {
    hide *;
    SpliceInLine(s, start, end, tri);
    var u := s[start..end];
    var hash := SkipSpacing(s, start, end, tri);
    SpacingIsRaw(s, start, end, tri);
    SpacingAgrees(u, tri);
    KindUnfold(s, start, end, tri);
    MisreadUnfold(u, tri);
    TextUnfold(Normalize(u, tri));
    var r := s[hash..end];
    HashAgrees(r, tri);
    if hash < end && s[hash] == '#' {
      WholeFurther(s, start, hash + 1, end, tri);
      WholeFurther(s, start, hash, end, tri);
      assert r[1..] == s[hash + 1..end] && r[0] == s[hash];
      WholeBehind(r, 1, tri);
      var word := SkipSpacing(s, hash + 1, end, tri);
      SpacingIsRaw(s, hash + 1, end, tri);
      SpacingAgrees(r[1..], tri);
      WholeFurther(s, hash + 1, word, end, tri);
      KindOfWordAgrees(s, word, end, tri);
      SplitOpenerIsNoName(s[word..end], tri);
    }
  }

  lemma KindUnfold(s: string, start: nat, end: nat, tri: bool)
    requires end <= |s|
    ensures
      var hash := SkipSpacing(s, start, end, tri);
      KindOf(s, start, end, tri) ==
      if hash >= end || s[hash] != '#' then Other else KindOfWord(s, SkipSpacing(s, hash + 1, end, tri), end, tri)
  {
    hide SkipSpacing;
    hide WordIs;
  }

  lemma MisreadUnfold(u: string, tri: bool)
    ensures
      var r := RawSpacing(u, tri);
      IsMisread(u, tri) <==>
      if r != "" && r[0] == '#' then IsSplitOpener(RawSpacing(r[1..], tri), tri)
      else IsSplitOpener(r, tri) || StartsHash(Normalize(r, tri)) || StartsDigraph(Normalize(r, tri))
  {
    hide RawSpacing;
    hide IsSplitOpener;
    hide Normalize;
  }

  lemma TextUnfold(n: string)
    ensures
      var d := BehindSpacing(n);
      && (d != "" && d[0] == '#' ==> KindOfText(n) == KindOfName(BehindSpacing(d[1..])))
      && (!StartsHash(d) && !StartsDigraph(d) ==> KindOfText(n) == Other)
  {
    hide BehindSpacing;
    hide KindOfName;
  }

  lemma HashAgrees(r: string, tri: bool)
    requires IsSettled(r, tri)
    ensures r != "" && r[0] == '#' ==>
      Normalize(r, tri) == ['#'] + Normalize(r[1..], tri) && Normalize(r, tri)[1..] == Normalize(r[1..], tri) &&
      !IsSplitOpener(r, tri)
  {
    hide Normalize;
    if r != "" && r[0] == '#' {
      FirstElement(r, tri);
      assert (['#'] + Normalize(r[1..], tri))[1..] == Normalize(r[1..], tri);
    }
  }

  lemma SplitOpenerIsNoName(r: string, tri: bool)
    requires IsSettled(r, tri)
    ensures IsSplitOpener(r, tri) ==> KindOfName(Normalize(r, tri)) == Other
  {
    hide Normalize;
    hide KindOfName;
    if IsSplitOpener(r, tri) {
      FirstElement(r, tri);
      SlashIsNoName(Normalize(r, tri));
    }
  }

  // So the two agree exactly where the line is read right or holds no directive anyway.
  lemma KindsAgreeIff(s: string, start: nat, end: nat, tri: bool)
    requires EndsWhole(s, start, end, tri) && ClosersAreWhole(s[start..end], tri)
    ensures start <= end <= |s| &&
      (KindOf(s, start, end, tri) == KindOfText(Normalize(s[start..end], tri)) <==>
       !IsMisread(s[start..end], tri) || KindOfText(Normalize(s[start..end], tri)) == Other)
  {
    hide *;
    KindAgrees(s, start, end, tri);
  }

  // A logical line is one of these lines.
  lemma LinesEndWhole(s: string, start: nat, end: nat, tri: bool)
    requires EndOf(s, start, end, tri)
    ensures EndsWhole(s, start, end, tri)
  {
    hide SpliceBefore;
    forall x | start <= x < end ensures x + SpliceSize(s, x, tri) <= end {
      if x + SpliceSize(s, x, tri) > end {
        InsideSplice(s, x, end - 1, tri);
      }
    }
  }

  // ---------------------------------------------------------------- the directives that are open

  // The line is one on which the two readings agree.
  predicate IsReadRight(u: string, tri: bool) {
    ClosersAreWhole(u, tri) && (!IsMisread(u, tri) || KindOfText(Normalize(u, tri)) == Other)
  }

  // The directives open at `upto`, by the normalized lines.
  function OpenInText(s: string, from: nat, upto: nat, stack: seq<nat>, tri: bool): seq<nat>
    requires from <= |s|
    decreases |s| - from
  {
    if from >= upto || from == |s| then stack
    else
      var end := LineEnd(s, from, tri);
      OpenInText(s, end, upto, Push(stack, KindOfText(Normalize(s[from..end], tri)), from), tri)
  }

  // Where all lines are read right, the stack of open directives is that of the normalized text.
  lemma {:induction false} OpenDirectivesAgree(s: string, from: nat, upto: nat, stack: seq<nat>, tri: bool)
    requires from <= |s| && IsLogicalStart(s, from, tri)
    requires forall start: nat | from <= start < upto && start < |s| && IsLogicalStart(s, start, tri) ::
      IsReadRight(s[start..LineEnd(s, start, tri)], tri)
    ensures OpenDirectives(s, from, upto, stack, tri) == OpenInText(s, from, upto, stack, tri)
    decreases |s| - from
  {
    hide KindOf;
    hide KindOfText;
    hide Push;
    hide LineEnd;
    hide IsLogicalStart;
    hide IsReadRight;
    hide Normalize;
    if from < upto && from < |s| {
      var end := LineEnd(s, from, tri);
      LineAgrees(s, from, tri);
      if end < |s| {
        OpenDirectivesAgree(s, end, upto, Push(stack, KindOf(s, from, end, tri), from), tri);
      }
    }
  }

  lemma LineAgrees(s: string, start: nat, tri: bool)
    requires start < |s| && IsLogicalStart(s, start, tri) && IsReadRight(s[start..LineEnd(s, start, tri)], tri)
    ensures
      var end := LineEnd(s, start, tri);
      KindOf(s, start, end, tri) == KindOfText(Normalize(s[start..end], tri)) &&
      (end < |s| ==> IsLogicalStart(s, end, tri))
  {
    hide KindOf;
    hide KindOfText;
    hide LineEnd;
    hide Normalize;
    hide IsMisread;
    hide ClosersAreWhole;
    hide EndsWhole;
    var end := LineEnd(s, start, tri);
    LineEndIsEndOf(s, start, tri);
    LinesEndWhole(s, start, end, tri);
    KindsAgreeIff(s, start, end, tri);
  }

  // ---------------------------------------------------------------- lines that are misread

  // `%:if` opens a conditional and is not seen.
  lemma DigraphIsMissed()
    ensures var s := "%:if"; KindOf(s, 0, |s|, false) == Other && KindOfText(Normalize(s, false)) == Open
  {
    var s := "%:if";
    assert s[1..] == ":if" && s[2..] == "if" && s[3..] == "f" && s[4..] == "";
    assert RemoveSplices("") == "" && RemoveSplices("f") == "f" && RemoveSplices("if") == "if";
    assert RemoveSplices(":if") == ":if" by { assert ":if"[1..] == "if"; }
    assert Normalize(s, false) == s;
    assert SkipSpacing(s, 0, 4, false) == 0;
    assert BehindSpacing(s) == s && BehindSpacing("if") == "if";
    assert "if"[|"if"|..] == "";
  }

  const SPLIT_CLOSER := "/**\\\n/#if"

  // A splice inside the end of a comment hides that end, and the directive behind it.
  lemma SplitCloserHidesDirective()
    ensures !ClosersAreWhole(SPLIT_CLOSER, false)
    ensures KindOf(SPLIT_CLOSER, 0, 9, false) == Other && KindOfText(Normalize(SPLIT_CLOSER, false)) == Open
  {
    hide *;
    SplitCloserText();
    SplitCloserIsSplit();
    SplitCloserKind();
    WholeCloserKind();
  }

  lemma SplitCloserKind()
    ensures KindOf(SPLIT_CLOSER, 0, 9, false) == Other
  {
    var s := SPLIT_CLOSER;
    NoCloserBehind(s, 2, 9);
    assert SpliceSize(s, 0, false) == 0;
    hide CommentTail;
    SkipComment(s, 0, 9, false);
  }

  lemma {:induction false} NoCloserBehind(s: string, c: nat, end: nat)
    requires c < end <= |s| && forall i :: c <= i < end - 1 ==> !(s[i] == '*' && s[i + 1] == '/')
    ensures CommentTail(s, c, end) + 1 >= end
    decreases end - c
  {
    if c + 1 < end {
      NoCloserBehind(s, c + 1, end);
    }
  }

  lemma SplitCloserIsSplit()
    ensures !ClosersAreWhole(SPLIT_CLOSER, false)
  {
    var s := SPLIT_CLOSER;
    SplitCloserText();
    assert s[2..][1..] == s[3..] && s[3..] == "\\\n/#if";
    assert SpliceSize(s[2..], 1, false) == 2;
    hide Normalize;
    assert IsSplit(s[2..], '/', false);
  }

  lemma WholeCloserKind()
    ensures KindOfText("/**/#if") == Open
  {
    var n := "/**/#if";
    assert n[2..] == "*/#if" && "*/#if"[2..] == "#if" && "#if"[1..] == "if";
    assert BehindComment("*/#if") == "#if" && BehindSpacing("#if") == "#if";
    assert BehindSpacing(n) == "#if" && BehindSpacing("if") == "if";
    assert "if"[|"if"|..] == "";
  }

  lemma OneKept(c: char, rest: string)
    requires c != '\\'
    ensures RemoveSplices([c] + rest) == [c] + RemoveSplices(rest)
  {
    assert ([c] + rest)[1..] == rest;
  }

  lemma {:induction false} NothingRemoved(s: string)
    requires '\\' !in s
    ensures RemoveSplices(s) == s
  {
    if s != "" {
      NothingRemoved(s[1..]);
    }
  }

  lemma SplitFront()
    ensures RemoveSplices("\\\n/#if") == "/#if"
  {
    var t := "\\\n/#if";
    NothingRemoved("/#if");
    assert t[2..] == "/#if" && SpliceByteCount(t) == 2;
  }

  lemma WithoutTrigraphs(s: string)
    ensures Normalize(s, false) == RemoveSplices(s)
  {}

  lemma SplitCloserParts()
    ensures SPLIT_CLOSER == ['/'] + (['*'] + (['*'] + "\\\n/#if"))
  {}

  lemma WholeCloserParts()
    ensures ['/'] + (['*'] + (['*'] + "/#if")) == "/**/#if"
  {}

  lemma SplitCloserText()
    ensures Normalize(SPLIT_CLOSER, false) == "/**/#if" && Normalize("\\\n/#if", false) == "/#if"
  {
    hide *;
    var t := "\\\n/#if";
    SplitFront();
    OneKept('*', t);
    OneKept('*', ['*'] + t);
    OneKept('/', ['*'] + (['*'] + t));
    WithoutTrigraphs(t);
    WithoutTrigraphs(SPLIT_CLOSER);
    SplitCloserParts();
    WholeCloserParts();
  }
}
