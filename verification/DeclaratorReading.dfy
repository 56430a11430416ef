/**
 What the printer of C types writes is read by the grammar as the type it was written for, as far
 as the tags in it are proper words.
 */
module DeclaratorReading {
  import opened DeclaratorEdges
  import opened DeclaratorGrammar
  import opened Decimals
  import opened Declarators
  import opened Options
  import opened Prefixes
  import opened TypeGraph

  // ---------------------------------------------------------------- what is read back

  // Nothing a word could go on with.
  predicate EndsWord(s: string) {
    s == "" || !IsWordChar(s[0])
  }

  predicate IsWord(w: string) {
    w != "" && forall i :: 0 <= i < |w| ==> IsWordChar(w[i])
  }

  // The keywords that can follow a specifier or a qualifier.
  predicate IsKeyword(w: string) {
    IsQualifier(w) || w == "long" || w == "double" || w == "_Complex"
  }

  // Where a type name in a parameter list, or the whole text, ends.
  predicate Stops(s: string) {
    s == "" || s[0] == ',' || s[0] == ')'
  }

  // What can stand behind a direct declarator.
  predicate Follows(s: string) {
    Stops(s) || s[0] == '[' || (s[0] == '(' && !OpensGroup(s, ""))
  }

  predicate IsName(name: string) {
    name == "" || (IsWord(name) && !IsKeyword(name))
  }

  lemma {:induction false} WordThen(w: string, x: string)
    requires (forall i :: 0 <= i < |w| ==> IsWordChar(w[i])) && EndsWord(x)
    ensures WordLength(w + x) == |w| && Word(w + x) == w && After(w + x) == x
    decreases |w|
  {
    if w == "" {
      assert w + x == x;
    } else {
      assert (w + x)[1..] == w[1..] + x;
      WordThen(w[1..], x);
    }
  }

  lemma SkipBlank(x: string)
    ensures Skip(" " + x) == Skip(x)
    ensures x == "" || x[0] != ' ' ==> Skip(x) == x
  {
    assert (" " + x)[1..] == x;
  }

  // One qualifier and what is behind it.
  lemma QualifierThen(strict: bool, w: string, x: string)
    requires IsQualifier(w) && EndsWord(x) && !(strict && w == "_Atomic" && OpensParenthesis(Skip(x)))
    ensures Skip(" " + w + x) == w + x
    ensures
      var (q, rest) := ReadQualifiers(strict, Skip(x));
      ReadQualifiers(strict, w + x) == (Mark(w, q), rest)
  {
    assert " " + w + x == " " + (w + x);
    SkipBlank(w + x);
    WordThen(w, x);
  }

  lemma QualifiersEnd(strict: bool, x: string)
    requires !IsQualifier(Word(x))
    ensures ReadQualifiers(strict, x) == (UNQUALIFIED, x)
  {}

  lemma MarkEach(q: Qualifiers)
    ensures Mark("const", q) == q.(isConst := true)
    ensures Mark("volatile", q) == q.(isVolatile := true)
    ensures Mark("_Atomic", q) == q.(isAtomic := true)
    ensures Mark("restrict", q) == q.(isRestrict := true)
  {
    assert "volatile"[0] != "const"[0] && "_Atomic"[0] != "const"[0] && "restrict"[0] != "const"[0];
    assert "_Atomic"[0] != "volatile"[0] && "restrict"[0] != "volatile"[0] && "restrict"[0] != "_Atomic"[0];
  }

  // Marking the qualifiers of `q` one after the other, the last one first.
  lemma MarkAll(q: Qualifiers)
    ensures
      var q3 := if q.isRestrict then Mark("restrict", UNQUALIFIED) else UNQUALIFIED;
      var q2 := if q.isAtomic then Mark("_Atomic", q3) else q3;
      var q1 := if q.isVolatile then Mark("volatile", q2) else q2;
      q == if q.isConst then Mark("const", q1) else q1
  {
    hide Mark;
    var q3 := if q.isRestrict then Mark("restrict", UNQUALIFIED) else UNQUALIFIED;
    MarkEach(UNQUALIFIED);
    MarkEach(q3);
    var q2 := if q.isAtomic then Mark("_Atomic", q3) else q3;
    MarkEach(q2);
    MarkEach(if q.isVolatile then Mark("volatile", q2) else q2);
  }

  lemma FourParts(a: string, b: string, c: string, d: string, x: string)
    ensures a + (b + (c + d)) + x == a + (b + (c + (d + x)))
  {
    Assoc(a, b + (c + d), x);
    Assoc(b, c + d, x);
    Assoc(c, d, x);
  }

  // The qualifiers of a pointer.
  lemma ReadPointerQualifiers(strict: bool, q: Qualifiers, x: string)
    requires EndsWord(x) && !IsQualifier(Word(Skip(x)))
    requires strict && IsAtomicLast(q) ==> !OpensParenthesis(Skip(x))
    ensures ReadQualifiers(strict, Skip(PointerQualifiers(q) + x)) == (q, Skip(x))
  {
    hide ReadQualifiers;
    hide Skip;
    hide Mark;
    MarkAll(q);
    QualifiersEnd(strict, Skip(x));
    var x3 := (if q.isRestrict then " restrict" else "") + x;
    var x2 := (if q.isAtomic then " _Atomic" else "") + x3;
    var x1 := (if q.isVolatile then " volatile" else "") + x2;
    var x0 := (if q.isConst then " const" else "") + x1;
    FourParts(if q.isConst then " const" else "", if q.isVolatile then " volatile" else "",
      if q.isAtomic then " _Atomic" else "", if q.isRestrict then " restrict" else "", x);
    OneQualifier(strict, q.isRestrict, "restrict", x);
    RestrictFront(q.isRestrict, x);
    OneQualifier(strict, q.isAtomic, "_Atomic", x3);
    OneQualifier(strict, q.isVolatile, "volatile", x2);
    OneQualifier(strict, q.isConst, "const", x1);
    assert " " + "restrict" == " restrict" && " " + "_Atomic" == " _Atomic";
    assert " " + "volatile" == " volatile" && " " + "const" == " const";
  }

  lemma RestrictFront(present: bool, x: string)
    ensures Skip((if present then " restrict" else "") + x) == if present then "restrict" + x else Skip(x)
  {
    if present {
      assert " restrict" + x == " " + ("restrict" + x);
      SkipBlank("restrict" + x);
    } else {
      assert "" + x == x;
    }
  }

  lemma OneQualifier(strict: bool, present: bool, w: string, x: string)
    requires IsQualifier(w) && EndsWord(x)
    requires present && strict && w == "_Atomic" ==> !OpensParenthesis(Skip(x))
    ensures EndsWord((if present then " " + w else "") + x)
    ensures
      var (q, rest) := ReadQualifiers(strict, Skip(x));
      ReadQualifiers(strict, Skip((if present then " " + w else "") + x)) == (if present then Mark(w, q) else q, rest)
  {
    if present {
      QualifierThen(strict, w, x);
    } else {
      assert "" + x == x;
    }
  }

  lemma OneLeadingQualifier(strict: bool, present: bool, w: string, x: string)
    requires IsQualifier(w) && x != "" && IsWordChar(x[0])
    ensures
      var (q, rest) := ReadQualifiers(strict, x);
      var y := (if present then w + " " else "") + x;
      ReadQualifiers(strict, y) == (if present then Mark(w, q) else q, rest) && y != "" && IsWordChar(y[0])
  {
    if present {
      assert w + " " + x == w + (" " + x);
      QualifierThen(strict, w, " " + x);
      SkipBlank(x);
    } else {
      assert "" + x == x;
    }
  }

  // The qualifiers in front of a specifier.
  lemma ReadLeadingQualifiers(strict: bool, q: Qualifiers, x: string)
    requires x != "" && IsWordChar(x[0]) && !IsQualifier(Word(x))
    ensures ReadQualifiers(strict, LeadingQualifiers(q) + x) == (q, x)
  {
    hide ReadQualifiers;
    hide Word;
    hide Mark;
    MarkAll(q);
    QualifiersEnd(strict, x);
    var x3 := (if q.isRestrict then "restrict " else "") + x;
    var x2 := (if q.isAtomic then "_Atomic " else "") + x3;
    var x1 := (if q.isVolatile then "volatile " else "") + x2;
    var x0 := (if q.isConst then "const " else "") + x1;
    FourParts(if q.isConst then "const " else "", if q.isVolatile then "volatile " else "",
      if q.isAtomic then "_Atomic " else "", if q.isRestrict then "restrict " else "", x);
    OneLeadingQualifier(strict, q.isRestrict, "restrict", x);
    OneLeadingQualifier(strict, q.isAtomic, "_Atomic", x3);
    OneLeadingQualifier(strict, q.isVolatile, "volatile", x2);
    OneLeadingQualifier(strict, q.isConst, "const", x1);
    assert "restrict" + " " == "restrict " && "_Atomic" + " " == "_Atomic ";
    assert "volatile" + " " == "volatile " && "const" + " " == "const ";
  }

  // ---------------------------------------------------------------- specifiers read back

  predicate IsSpelled(spec: Specifier) {
    match spec
    case EnumSpecifier(tag) => IsWord(tag)
    case RecordSpecifier(_, tag) => IsWord(tag)
    case _ => true
  }

  lemma TwoWords(first: string, second: string, x: string)
    requires IsWord(first) && IsWord(second) && EndsWord(x)
    ensures var s := first + (" " + second) + x;
      Word(s) == first && Skip(After(s)) == second + x && Word(second + x) == second && After(second + x) == x
  {
    assert first + (" " + second) + x == first + (" " + (second + x));
    WordThen(first, " " + (second + x));
    SkipBlank(second + x);
    WordThen(second, x);
  }

  lemma ReadIntegerBack(isUnsigned: bool, kind: IntegerSpelling, x: string)
    requires EndsWord(x) && !IsKeyword(Word(Skip(x)))
    ensures ReadInteger(isUnsigned, IntegerText(kind) + x) == Some((IntegerSpecifier(isUnsigned, kind), x))
  {
    if kind == LongLongWord {
      assert "long" + (" " + "long") == "long long";
      TwoWords("long", "long", x);
    } else {
      WordThen(IntegerText(kind), x);
    }
    assert "char"[0] != "short"[0] && "char"[0] != "int"[0] && "char"[0] != "long"[0];
    assert "short"[0] != "int"[0] && "short"[0] != "long"[0] && "int"[0] != "long"[0];
  }

  lemma ReadTagBack(keyword: string, tag: string, x: string)
    requires IsWord(keyword) && IsWord(tag) && EndsWord(x)
    ensures Word(TagText(keyword, tag) + x) == keyword && ReadTag(After(TagText(keyword, tag) + x)) == Some((tag, x))
  {
    hide Word;
    hide After;
    hide Skip;
    TwoWords(keyword, tag, x);
  }

  lemma ReadComplexBack(kind: FloatingSpelling, isComplex: bool, x: string)
    requires EndsWord(x) && !IsKeyword(Word(Skip(x)))
    ensures ReadComplex(kind, (if isComplex then " _Complex" else "") + x) == (FloatingSpecifier(kind, isComplex), x)
  {
    if isComplex {
      assert " _Complex" + x == " " + ("_Complex" + x);
      WordThen("_Complex", x);
      SkipBlank("_Complex" + x);
    } else {
      assert "" + x == x;
    }
  }

  // The words that start a specifier are told apart by their first letters.
  lemma FirstWords(w: string)
    requires w != ""
    ensures w[0] != 'v' ==> w != "void"
    ensures w[0] != '_' ==> w != "_Bool"
    ensures w[0] != 'e' ==> w != "enum"
    ensures w[0] != 's' ==> w != "struct"
    ensures w[0] != 'u' ==> w != "union" && w != "unsigned"
    ensures w[0] != 'f' ==> w != "float"
    ensures w[0] != 'd' ==> w != "double"
    ensures w[0] != 'l' ==> w != "long"
  {}

  lemma ReadByWord(s: string)
    ensures Word(s) == "void" ==> ReadSpecifier(s) == Some((VoidSpecifier, After(s)))
    ensures Word(s) == "_Bool" ==> ReadSpecifier(s) == Some((BoolSpecifier, After(s)))
    ensures Word(s) == "float" ==> ReadSpecifier(s) == Some(ReadComplex(FloatWord, After(s)))
    ensures Word(s) == "double" ==> ReadSpecifier(s) == Some(ReadComplex(DoubleWord, After(s)))
    ensures Word(s) == "unsigned" ==> ReadSpecifier(s) == ReadInteger(true, Skip(After(s)))
    ensures Word(s) == "long" ==> 
      ReadSpecifier(s) == (if Word(Skip(After(s))) == "double" then Some(ReadComplex(LongDoubleWord, After(Skip(After(s)))))
                           else ReadInteger(false, s))
    ensures Word(s) == "char" || Word(s) == "short" || Word(s) == "int" ==> ReadSpecifier(s) == ReadInteger(false, s)
  {
    hide Word;
    hide After;
    hide Skip;
    hide ReadInteger;
    hide ReadComplex;
    hide ReadTag;
    if Word(s) != "" {
      FirstWords(Word(s));
      assert "unsigned"[2] != "union"[2] && "short"[1] != "struct"[1];
    }
  }

  lemma ReadByKeyword(s: string)
    requires ReadTag(After(s)).Some?
    ensures var (tag, rest) := ReadTag(After(s)).value;
      && (Word(s) == "enum" ==> ReadSpecifier(s) == Some((EnumSpecifier(tag), rest)))
      && (Word(s) == "struct" ==> ReadSpecifier(s) == Some((RecordSpecifier(true, tag), rest)))
      && (Word(s) == "union" ==> ReadSpecifier(s) == Some((RecordSpecifier(false, tag), rest)))
  {
    hide Word;
    hide After;
    hide Skip;
    hide ReadInteger;
    hide ReadComplex;
    hide ReadTag;
    if Word(s) != "" {
      FirstWords(Word(s));
    }
  }

  lemma ReadFloatingBack(kind: FloatingSpelling, isComplex: bool, x: string)
    requires EndsWord(x) && !IsKeyword(Word(Skip(x)))
    ensures ReadSpecifier(SpecifierText(FloatingSpecifier(kind, isComplex)) + x) == Some((FloatingSpecifier(kind, isComplex), x))
  {
    hide ReadSpecifier;
    hide ReadComplex;
    hide ReadInteger;
    hide Word;
    hide Skip;
    hide After;
    var tail := (if isComplex then " _Complex" else "") + x;
    Assoc(FloatingText(kind), if isComplex then " _Complex" else "", x);
    ReadComplexBack(kind, isComplex, x);
    if kind == LongDoubleWord {
      assert "long" + (" " + "double") == "long double";
      TwoWords("long", "double", tail);
    } else {
      WordThen(FloatingText(kind), tail);
    }
    ReadByWord(FloatingText(kind) + tail);
  }

  lemma ReadIntegerSpecifierBack(isUnsigned: bool, kind: IntegerSpelling, x: string)
    requires EndsWord(x) && !IsKeyword(Word(Skip(x)))
    ensures ReadSpecifier(SpecifierText(IntegerSpecifier(isUnsigned, kind)) + x) == Some((IntegerSpecifier(isUnsigned, kind), x))
  {
    hide ReadSpecifier;
    hide ReadInteger;
    hide ReadComplex;
    hide Word;
    hide Skip;
    hide After;
    ReadIntegerBack(isUnsigned, kind, x);
    var y := IntegerText(kind) + x;
    if isUnsigned {
      assert "unsigned " + IntegerText(kind) + x == "unsigned" + (" " + y);
      WordThen("unsigned", " " + y);
      SkipBlank(y);
      ReadByWord("unsigned" + (" " + y));
    } else {
      assert "" + IntegerText(kind) + x == y;
      SignedWord(kind, x);
      ReadByWord(y);
    }
  }

  lemma SignedWord(kind: IntegerSpelling, x: string)
    requires EndsWord(x) && !IsKeyword(Word(Skip(x)))
    ensures var s := IntegerText(kind) + x;
      (Word(s) == "char" || Word(s) == "short" || Word(s) == "int" || Word(s) == "long") &&
      (Word(s) == "long" ==> Word(Skip(After(s))) != "double")
  {
    hide Word;
    hide Skip;
    hide After;
    if kind == LongLongWord {
      assert "long" + (" " + "long") == "long long";
      TwoWords("long", "long", x);
      assert "long"[0] != "double"[0];
    } else {
      WordThen(IntegerText(kind), x);
      assert "long"[0] != "char"[0] && "long"[0] != "short"[0] && "long"[0] != "int"[0];
    }
  }

  lemma ReadSpecifierBack(spec: Specifier, x: string)
    requires IsSpelled(spec) && EndsWord(x) && !IsKeyword(Word(Skip(x)))
    ensures ReadSpecifier(SpecifierText(spec) + x) == Some((spec, x))
  {
    hide ReadSpecifier;
    hide ReadInteger;
    hide ReadComplex;
    hide ReadTag;
    hide Word;
    hide Skip;
    hide After;
    hide TagText;
    match spec {
      case VoidSpecifier =>
        WordThen("void", x);
        ReadByWord("void" + x);
      case BoolSpecifier =>
        WordThen("_Bool", x);
        ReadByWord("_Bool" + x);
      case EnumSpecifier(tag) =>
        ReadTagBack("enum", tag, x);
        ReadByKeyword(TagText("enum", tag) + x);
      case IntegerSpecifier(isUnsigned, kind) => ReadIntegerSpecifierBack(isUnsigned, kind, x);
      case FloatingSpecifier(kind, isComplex) => ReadFloatingBack(kind, isComplex, x);
      case RecordSpecifier(isStruct, tag) =>
        var keyword := if isStruct then "struct" else "union";
        ReadTagBack(keyword, tag, x);
        ReadByKeyword(TagText(keyword, tag) + x);
    }
  }

  // A specifier starts with a word that is no qualifier.
  lemma SpecifierFront(spec: Specifier, x: string)
    requires IsSpelled(spec) && EndsWord(x) && !IsKeyword(Word(Skip(x)))
    ensures var s := SpecifierText(spec) + x;
      s != "" && IsWordChar(s[0]) && !IsQualifier(Word(s))
  {
    hide ReadInteger;
    hide ReadComplex;
    hide ReadTag;
    hide SpecifierText;
    ReadSpecifierBack(spec, x);
    var s := SpecifierText(spec) + x;
    if IsQualifier(Word(s)) || Word(s) == "" {
      NoSpecifier(s);
    }
  }

  lemma NoSpecifier(s: string)
    requires IsQualifier(Word(s)) || Word(s) == ""
    ensures ReadSpecifier(s) == None
  {
  }

  // ---------------------------------------------------------------- declarators read back

  // Types nested in fewer than `n` parameter lists, spelled with proper tags, and without the
  // parameter list `(void)` that C reads as no parameters.
  predicate Readable(t: CType, n: nat) {
    match t
    case Base(_, spec) => IsSpelled(spec)
    case PointerTo(_, target) => Readable(target, n)
    case ArrayOf(_, element) => Readable(element, n)
    case FunctionOf(params, result) => ReadableParameters(params, n) && Readable(result, n)
  }

  predicate ReadableParameters(params: Parameters, n: nat) {
    params.Listed? ==>
      n > 0 && !IsVoidAlone(params.types, params.isVariadic) && forall u <- params.types :: Readable(u, n - 1)
  }

  predicate IsVoidAlone(types: seq<CType>, isVariadic: bool) {
    types == [Base(UNQUALIFIED, VoidSpecifier)] && !isVariadic
  }

  predicate ReadableDeclarator(d: Declarator, n: nat) {
    match d
    case Hole => true
    case Group(inner) => ReadableDeclarator(inner, n)
    case Pointing(_, inner) => ReadableDeclarator(inner, n)
    case Suffixed(direct, suffix) => (suffix.CallSuffix? ==> ReadableParameters(suffix.params, n)) && ReadableDeclarator(direct, n)
  }

  lemma {:induction false} DeclareReadable(t: CType, d: Declarator, n: nat)
    requires Readable(t, n) && ReadableDeclarator(d, n)
    ensures ReadableDeclarator(Declare(t, d).0, n) && Readable(Declare(t, d).1, n)
    decreases t
  {
    match t {
      case Base(_, _) =>
      case PointerTo(quals, target) => DeclareReadable(target, Pointing(quals, d), n);
      case ArrayOf(bound, element) => DeclareReadable(element, Suffixed(Wrap(d), ArraySuffix(bound)), n);
      case FunctionOf(params, result) => DeclareReadable(result, Suffixed(Wrap(d), CallSuffix(params)), n);
    }
  }

  // A type name starts with a word.
  lemma TypeTextFront(t: CType, name: string)
    ensures TypeText(t, name) != "" && IsWordChar(TypeText(t, name)[0])
  {
    hide Around;
    hide Fill;
    var base := Around(t, "@", false).1;
    BaseTextFront(base);
    assert BaseText(base) <= TypeText(t, name);
  }

  lemma BaseTextFront(t: CType)
    requires t.Base?
    ensures BaseText(t) != "" && IsWordChar(BaseText(t)[0])
  {
    var word := SpecifierText(t.spec);
    assert word != "" && IsWordChar(word[0]);
    var q := t.quals;
    if !AnyQualifier(q) {
      assert "" + ("" + ("" + "")) + word == word;
    } else {
      assert IsWordChar(LeadingQualifiers(q)[0]);
    }
  }

  lemma ListTextFront(types: seq<CType>, isVariadic: bool)
    requires types != [] || isVariadic
    ensures var s := ListText(types, isVariadic); s != "" && (s[0] == '.' || IsWordChar(s[0]))
    ensures types != [] ==> IsWordChar(ListText(types, isVariadic)[0])
  {
    hide TypeText;
    if types != [] {
      TypeTextFront(types[0], "");
      assert TypeText(types[0], "") <= ListText(types, isVariadic);
    }
  }

  lemma SuffixFollows(suffix: Suffix, x: string)
    ensures SuffixText(suffix) + x != "" && Follows(SuffixText(suffix) + x)
  {
    hide ListText;
    if suffix.CallSuffix? && suffix.params.Listed? && (suffix.params.types != [] || suffix.params.isVariadic) {
      ListTextFront(suffix.params.types, suffix.params.isVariadic);
      var list := ListText(suffix.params.types, suffix.params.isVariadic);
      assert (SuffixText(suffix) + x)[1] == list[0];
    }
  }

  // ---------------------------------------------------------------- filling the hole

  // Text without a hole is kept, but for a blank in front of a nameless hole.
  lemma {:induction false} FillThrough(a: string, b: string, name: string)
    requires '@' !in a
    requires name == "" && a != "" && a[|a| - 1] == ' ' ==> b == "" || b[0] != '@'
    ensures Fill(a + b, name) == a + Fill(b, name)
    decreases |a|
  {
    if a == "" {
      assert a + b == b;
    } else {
      assert (a + b)[1..] == a[1..] + b;
      FillThrough(a[1..], b, name);
      assert a == [a[0]] + a[1..];
      Assoc([a[0]], a[1..], Fill(b, name));
    }
  }

  lemma {:induction false} FillHole(x: string, name: string)
    ensures Fill("@" + x, name) == name + Fill(x, name)
    ensures name == "" ==> Fill(" @" + x, name) == Fill(x, name)
  {
    assert ("@" + x)[1..] == x && (" @" + x)[1..] == "@" + x;
    assert name == "" ==> name + Fill(x, name) == Fill(x, name);
  }

  lemma {:induction false} FilledHasNoHole(s: string)
    ensures '@' !in Fill(s, "")
  {
    if s != "" {
      FilledHasNoHole(s[1..]);
    }
  }

  lemma {:induction false} TypeTextHasNoHole(t: CType, n: nat)
    requires Readable(t, n)
    ensures '@' !in TypeText(t, "")
  {
    hide Fill;
    hide Around;
    hide BaseText;
    FilledHasNoHole(Around(t, "@", false).0);
    BaseOfReadable(t, "@", false, n);
    BaseHasNoHole(Around(t, "@", false).1, n);
  }

  lemma BaseHasNoHole(t: CType, n: nat)
    requires t.Base? && Readable(t, n)
    ensures '@' !in BaseText(t)
  {
    QualifiersHaveNoHole(t.quals);
    SpecifierHasNoHole(t.spec);
  }

  lemma QualifiersHaveNoHole(q: Qualifiers)
    ensures '@' !in LeadingQualifiers(q)
  {
    assert '@' !in "const " && '@' !in "volatile ";
    assert '@' !in "_Atomic " && '@' !in "restrict ";
  }

  lemma SpecifierHasNoHole(spec: Specifier)
    requires IsSpelled(spec)
    ensures '@' !in SpecifierText(spec)
  {
    match spec {
      case VoidSpecifier =>
      case BoolSpecifier =>
      case EnumSpecifier(tag) => TagHasNoHole("enum", tag);
      case IntegerSpecifier(isUnsigned, kind) =>
        assert '@' !in "unsigned ";
        IntegerHasNoHole(kind);
      case FloatingSpecifier(kind, isComplex) =>
        assert '@' !in " _Complex";
        FloatingHasNoHole(kind);
      case RecordSpecifier(isStruct, tag) =>
        assert '@' !in "struct" && '@' !in "union";
        TagHasNoHole(if isStruct then "struct" else "union", tag);
    }
  }

  lemma TagHasNoHole(keyword: string, tag: string)
    requires '@' !in keyword && IsWord(tag)
    ensures '@' !in TagText(keyword, tag)
  {}

  lemma IntegerHasNoHole(kind: IntegerSpelling)
    ensures '@' !in IntegerText(kind)
  {}

  lemma FloatingHasNoHole(kind: FloatingSpelling)
    ensures '@' !in FloatingText(kind)
  {}

  lemma {:induction false} BaseOfReadable(t: CType, fragment: string, prefix: bool, n: nat)
    requires Readable(t, n)
    ensures Readable(Around(t, fragment, prefix).1, n)
    decreases t
  {
    match t {
      case Base(_, _) =>
      case PointerTo(quals, target) => BaseOfReadable(target, PointerText(quals) + fragment, true, n);
      case ArrayOf(bound, element) => BaseOfReadable(element, Wrapped(fragment, prefix) + BoundText(bound), false, n);
      case FunctionOf(params, result) =>
        BaseOfReadable(result, Wrapped(fragment, prefix) + ParametersText(params), false, n);
    }
  }

  lemma {:induction false} ListHasNoHole(types: seq<CType>, isVariadic: bool, n: nat)
    requires forall u <- types :: Readable(u, n)
    ensures '@' !in ListText(types, isVariadic)
    decreases types
  {
    hide TypeText;
    if types != [] {
      TypeTextHasNoHole(types[0], n);
      ListHasNoHole(types[1..], isVariadic, n);
    }
  }

  lemma SuffixHasNoHole(suffix: Suffix, n: nat)
    requires suffix.CallSuffix? ==> ReadableParameters(suffix.params, n)
    ensures '@' !in SuffixText(suffix)
  {
    hide ListText;
    hide Decimal;
    if suffix.CallSuffix? && suffix.params.Listed? {
      ListHasNoHole(suffix.params.types, suffix.params.isVariadic, n - 1);
    }
  }

  // Filling the printer's fragment gives the declarator with the name in it.
  lemma {:induction false} FilledIsRendered(d: Declarator, name: string, x: string, n: nat)
    requires ReadableDeclarator(d, n) && '@' !in x
    ensures Fill(Render(d, "@", x), name) == Render(d, name, x)
    ensures Render(d, "@", x) != "" && (OpensWithHole(d) <==> Render(d, "@", x)[0] == '@')
    decreases d
  {
    hide Fill;
    hide PointerQualifiers;
    hide SuffixText;
    match d {
      case Hole =>
        FillHole(x, name);
        FilledPlain(x, name);
      case Group(inner) =>
        FilledIsRendered(inner, name, ")" + x, n);
        FillThrough("(", Render(inner, "@", ")" + x), name);
      case Pointing(quals, inner) =>
        FilledIsRendered(inner, name, x, n);
        PointerIsFilled(quals, inner, name, Render(inner, "@", x), Render(inner, name, x));
      case Suffixed(direct, suffix) =>
        SuffixHasNoHole(suffix, n);
        FilledIsRendered(direct, name, SuffixText(suffix) + x, n);
    }
  }

  lemma FilledPlain(x: string, name: string)
    requires '@' !in x
    ensures Fill(x, name) == x
  {
    FillThrough(x, "", name);
    assert x + "" == x;
  }

  lemma PointerIsFilled(quals: Qualifiers, inner: Declarator, name: string, s: string, filled: string)
    requires Fill(s, name) == filled && s != "" && (OpensWithHole(inner) <==> s[0] == '@')
    ensures
      Fill("*" + (PointerQualifiers(quals) + (Blank(quals, inner, "@") + s)), name) ==
      "*" + (PointerQualifiers(quals) + (Blank(quals, inner, name) + filled))
  {
    hide Fill;
    hide OpensWithHole;
    hide PointerQualifiers;
    hide AnyQualifier;
    var stars := "*" + PointerQualifiers(quals);
    PointerFront(quals);
    var y := Blank(quals, inner, "@") + s;
    Assoc("*", PointerQualifiers(quals), y);
    Assoc("*", PointerQualifiers(quals), Blank(quals, inner, name) + filled);
    if AnyQualifier(quals) && name == "" && s[0] == '@' {
      FillThrough(stars, " " + s, name);
      FillHole(s[1..], name);
      assert s == "@" + s[1..] && " " + s == " @" + s[1..];
      assert filled == "" + filled;
      assert "@" + s[1..] == s && name + Fill(s[1..], name) == Fill(s[1..], name);
    } else if AnyQualifier(quals) {
      Assoc(stars, " ", s);
      Assoc(stars, " ", filled);
      FillThrough(stars + " ", s, name);
    } else {
      assert "" + s == s && "" + filled == filled;
      FillThrough(stars, s, name);
    }
  }

  lemma PointerFront(quals: Qualifiers)
    ensures var s := "*" + PointerQualifiers(quals); '@' !in s && s[|s| - 1] != ' '
  {
    assert '@' !in " const" && '@' !in " volatile";
    assert '@' !in " _Atomic" && '@' !in " restrict";
  }

  lemma {:induction false} HoleIsShortest(d: Declarator, name: string, x: string)
    ensures |Render(d, name, x)| >= |name| + |x| + if d.Hole? then 0 else 1
    decreases d
  {
    match d {
      case Hole =>
      case Group(inner) => HoleIsShortest(inner, name, ")" + x);
      case Pointing(_, inner) => HoleIsShortest(inner, name, x);
      case Suffixed(direct, suffix) =>
        assert |SuffixText(suffix)| > 0;
        HoleIsShortest(direct, name, SuffixText(suffix) + x);
    }
  }

  // The text of a type: its base, and the declarator that denotes the type.
  lemma TypeTextIsRendered(t: CType, name: string, n: nat)
    requires Readable(t, n)
    ensures
      var (d, base) := Declare(t, Hole);
      base.Base? && TypeText(t, name) == BaseText(base) + if d.Hole? && name == "" then "" else " " + Render(d, name, "")
  {
    hide Fill;
    PrintedDeclaratorDenotes(t);
    DeclareReadable(t, Hole, n);
    AroundIsRendered(t, Hole);
    var d := Declare(t, Hole).0;
    assert Render(Hole, "@", "") == "@";
    FilledIsRendered(d, name, "", n);
    HoleIsShortest(d, "@", "");
  }

  // ---------------------------------------------------------------- the grammar reads it back

  // The front of what is printed for a declarator: no blank, and no word but the name.
  predicate IsFront(s: string, name: string) {
    (s == "" || s[0] != ' ') && !IsKeyword(Word(s)) && (EndsWord(s) || name != "")
  }

  lemma NameFront(name: string, x: string)
    requires IsName(name) && EndsWord(x) && (x == "" || x[0] != ' ')
    ensures IsFront(name + x, name) && (name != "" ==> Word(name + x) == name && After(name + x) == x && name + x != "")
  {
    if name == "" {
      assert name + x == x;
    } else {
      WordThen(name, x);
    }
  }

  lemma {:induction false} RenderFront(d: Declarator, name: string, x: string)
    requires IsName(name) && Follows(x) && IsWellFormed(d)
    ensures IsFront(Render(d, name, x), name)
    ensures !d.Pointing? ==> Render(d, name, x) == "" || Render(d, name, x)[0] != '*'
    decreases d
  {
    hide IsKeyword;
    hide Word;
    match d {
      case Hole => NameFront(name, x);
      case Group(inner) => NoWord(Render(d, name, x));
      case Pointing(quals, inner) => NoWord(Render(d, name, x));
      case Suffixed(direct, suffix) =>
        SuffixFollows(suffix, x);
        RenderFront(direct, name, SuffixText(suffix) + x);
    }
  }

  lemma NoWord(s: string)
    requires EndsWord(s)
    ensures Word(s) == "" && !IsKeyword(Word(s))
  {}

  lemma {:induction false} DigitsThen(n: nat, x: string)
    requires !StartsWithDigit(x)
    ensures var s := Decimal(n) + x; Leading(s) == |Decimal(n)| && s[..Leading(s)] == Decimal(n) && s[Leading(s)..] == x
  {
    hide Decimal;
    LeadingDigits(Decimal(n), x);
  }

  lemma ReadBoundBack(bound: Bound, x: string)
    ensures
      var s := BoundText(bound) + x;
      s != "" && s[0] == '[' && ReadBound(s[1..]) == Some((bound, x))
  {
    hide Decimal;
    hide Leading;
    hide Value;
    hide Behind;
    var s := BoundText(bound) + x;
    match bound {
      case NoBound =>
        assert s[1..] == "]" + x;
        BehindPrefix("]", x);
      case Star =>
        assert s[1..] == "*]" + x;
        BehindOther("*]" + x, "]");
        BehindPrefix("*]", x);
      case Fixed(n) =>
        assert s[1..] == Decimal(n) + ("]" + x);
        ReadSizeBack(n, x);
    }
  }

  lemma ReadSizeBack(n: nat, x: string)
    ensures ReadBound(Decimal(n) + ("]" + x)) == Some((Fixed(n), x))
  {
    hide Decimal;
    hide Leading;
    hide Value;
    hide Behind;
    var s := Decimal(n) + ("]" + x);
    DigitsThen(n, "]" + x);
    ValueOfDecimal(n);
    assert s[0] == Decimal(n)[0];
    BehindOther(s, "]");
    BehindOther(s, "*]");
    BehindPrefix("]", x);
  }

  // A suffix is read and put behind what was read before.
  lemma ReadSuffixBack(strict: bool, d: Declarator, suffix: Suffix, x: string, n: nat)
    requires suffix.CallSuffix? ==> ReadableParameters(suffix.params, n) && (strict ==> ParametersParse(suffix.params))
    ensures ReadSuffixes(strict, d, SuffixText(suffix) + x) == ReadSuffixes(strict, Suffixed(d, suffix), x)
    decreases n, 3, 0
  {
    hide ReadBound;
    hide ReadParameters;
    match suffix {
      case ArraySuffix(bound) => ReadBoundBack(bound, x);
      case CallSuffix(params) => ReadParametersBack(strict, params, x, n);
    }
  }

  lemma ReadParametersBack(strict: bool, params: Parameters, x: string, n: nat)
    requires ReadableParameters(params, n) && (strict ==> ParametersParse(params))
    ensures
      var s := ParametersText(params) + x;
      s != "" && s[0] == '(' && ReadParameters(strict, s[1..]) == Some((params, x))
    decreases n, 2, 0
  {
    hide ReadList;
    hide ListText;
    var s := ParametersText(params) + x;
    if params.Unspecified? {
      assert s[1..] == ")" + x;
      BehindPrefix(")", x);
    } else if params.types == [] && !params.isVariadic {
      assert s[1..] == "void)" + x;
      BehindOther("void)" + x, ")");
      BehindPrefix("void)", x);
    } else {
      var list := ListText(params.types, params.isVariadic);
      assert s[1..] == list + (")" + x);
      ListTextFront(params.types, params.isVariadic);
      ReadListBack(strict, params.types, params.isVariadic, x, n - 1);
      NotVoidAlone(params.types, params.isVariadic, x, n - 1);
      assert s[1..][0] == list[0];
      BehindOther(s[1..], ")");
      if strict {
        BehindOther(s[1..], "...");
      }
    }
  }

  // A list that starts like `void)` has the one parameter `void`.
  lemma NotVoidAlone(types: seq<CType>, isVariadic: bool, x: string, n: nat)
    requires (types != [] || isVariadic) && !IsVoidAlone(types, isVariadic)
    requires forall u <- types :: Readable(u, n)
    ensures Behind(ListText(types, isVariadic) + (")" + x), "void)").None?
    decreases n, 8, |types|
  {
    hide ReadType;
    hide TypeText;
    var s := ListText(types, isVariadic) + (")" + x);
    if types == [] {
      BehindOther(s, "void)");
    } else {
      var more := MoreText(types, isVariadic, x);
      MoreStops(types, isVariadic, x);
      ReadTypeBack(false, types[0], "", more, n);
      assert |types| == 1 ==> types == [types[0]];
      if Behind(s, "void)").Some? {
        VoidReads(s);
      }
    }
  }

  // What stands behind the first parameter.
  function MoreText(types: seq<CType>, isVariadic: bool, x: string): string
    requires types != []
  {
    if |types| > 1 || isVariadic then ", " + (ListText(types[1..], isVariadic) + (")" + x)) else ")" + x
  }

  lemma MoreStops(types: seq<CType>, isVariadic: bool, x: string)
    requires types != []
    ensures Stops(MoreText(types, isVariadic, x))
    ensures (|types| > 1 || isVariadic) <==> MoreText(types, isVariadic, x)[0] == ','
    ensures ListText(types, isVariadic) + (")" + x) == TypeText(types[0], "") + MoreText(types, isVariadic, x)
  {
    hide TypeText;
    var first, list := TypeText(types[0], ""), ListText(types[1..], isVariadic);
    var comma := if |types| > 1 || isVariadic then ", " else "";
    Assoc(first, comma + list, ")" + x);
    Assoc(comma, list, ")" + x);
    if comma == "" {
      assert list == "";
      assert "" + ("" + (")" + x)) == ")" + x;
    }
  }

  lemma VoidReads(s: string)
    requires Behind(s, "void)").Some?
    ensures ReadType(false, s, "") == Some((Base(UNQUALIFIED, VoidSpecifier), ")" + Behind(s, "void)").value))
  {
    hide ReadQualifiers;
    hide ReadSpecifier;
    hide ReadDeclarator;
    var x := ")" + Behind(s, "void)").value;
    assert s == "void)" + s[5..] && "void)" + s[5..] == "void" + x;
    NoWord(x);
    SkipBlank(x);
    ReadSpecifierBack(VoidSpecifier, x);
    SpecifierFront(VoidSpecifier, x);
    QualifiersEnd(false, "void" + x);
  }

  lemma {:induction false} ReadListBack(strict: bool, types: seq<CType>, isVariadic: bool, x: string, n: nat)
    requires types != [] || isVariadic
    requires forall u <- types :: Readable(u, n) && (strict ==> Parses(u, NameEdge, false))
    ensures ReadList(strict, ListText(types, isVariadic) + (")" + x)) == Some((types, isVariadic, x))
    decreases n, 8, |types|
  {
    hide ReadType;
    hide TypeText;
    hide Readable;
    if types == [] {
      assert "..." + (")" + x) == "...)" + x;
      BehindPrefix("...)", x);
    } else {
      var more := MoreText(types, isVariadic, x);
      MoreStops(types, isVariadic, x);
      ReadTypeBack(strict, types[0], "", more, n);
      if |types| > 1 || isVariadic {
        ReadListBack(strict, types[1..], isVariadic, x, n);
      }
      ReadListStep(strict, types, isVariadic, x);
    }
  }

  lemma ReadListStep(strict: bool, types: seq<CType>, isVariadic: bool, x: string)
    requires types != []
    requires
      ReadType(strict, ListText(types, isVariadic) + (")" + x), "") == Some((types[0], MoreText(types, isVariadic, x)))
    requires |types| > 1 || isVariadic ==>
      ReadList(strict, ListText(types[1..], isVariadic) + (")" + x)) == Some((types[1..], isVariadic, x))
    ensures ReadList(strict, ListText(types, isVariadic) + (")" + x)) == Some((types, isVariadic, x))
  {
    hide ReadType;
    hide ListText;
    var s := ListText(types, isVariadic) + (")" + x);
    ListTextFront(types, isVariadic);
    BehindOther(s, "...)");
    assert types == [types[0]] + types[1..];
    if |types| > 1 || isVariadic {
      BehindPrefix(", ", ListText(types[1..], isVariadic) + (")" + x));
    } else {
      assert types == [types[0]];
      BehindOther(")" + x, ", ");
      BehindPrefix(")", x);
    }
  }

  lemma {:induction false} ReadDirectBack(strict: bool, d: Declarator, name: string, x: string, n: nat)
    requires IsMinimal(d) && !d.Pointing? && ReadableDeclarator(d, n) && IsName(name) && Follows(x)
    requires strict ==> DeclaratorParses(d, name != "")
    ensures ReadDirect(strict, Render(d, name, x), name) == ReadSuffixes(strict, d, x)
    decreases n, 4, d, 0
  {
    hide ReadSuffixes;
    hide ReadDeclarator;
    match d {
      case Hole =>
        NameFront(name, x);
        assert name == "" ==> name + x == x;
        assert name != "" ==> (name + x)[0] == name[0];
      case Group(inner) =>
        var s := Render(d, name, x);
        assert s[1..] == Render(inner, name, ")" + x);
        assert s[1] == '*';
        ReadDeclaratorBack(strict, inner, name, ")" + x, n);
        BehindPrefix(")", x);
      case Suffixed(direct, suffix) =>
        SuffixFollows(suffix, x);
        ReadDirectBack(strict, direct, name, SuffixText(suffix) + x, n);
        ReadSuffixBack(strict, direct, suffix, x, n);
    }
  }

  lemma {:induction false} ReadDeclaratorBack(strict: bool, d: Declarator, name: string, x: string, n: nat)
    requires IsMinimal(d) && ReadableDeclarator(d, n) && IsName(name) && Stops(x)
    requires strict ==> DeclaratorParses(d, name != "")
    ensures ReadDeclarator(strict, Render(d, name, x), name) == Some((d, x))
    decreases n, 4, d, 1
  {
    hide ReadDirect;
    hide ReadQualifiers;
    var s := Render(d, name, x);
    MinimalIsWellFormed(d);
    RenderFront(d, name, x);
    if d.Pointing? {
      var y := Render(d.inner, name, x);
      RenderFront(d.inner, name, x);
      assert s[1..] == PointerQualifiers(d.quals) + (Blank(d.quals, d.inner, name) + y);
      RenderEdge(d.inner, name, x);
      ReadStar(strict, d.quals, d.inner, name, y);
      ReadDeclaratorBack(strict, d.inner, name, x, n);
    } else {
      ReadDirectBack(strict, d, name, x, n);
      assert ReadSuffixes(strict, d, x) == Some((d, x));
    }
  }

  lemma ReadStar(strict: bool, quals: Qualifiers, inner: Declarator, name: string, y: string)
    requires IsFront(y, name) && (strict && IsAtomicLast(quals) ==> !OpensParenthesis(y))
    ensures ReadQualifiers(strict, Skip(PointerQualifiers(quals) + (Blank(quals, inner, name) + y))) == (quals, y)
  {
    hide ReadQualifiers;
    hide Word;
    hide Skip;
    hide OpensWithHole;
    hide PointerQualifiers;
    SkipBlank(y);
    if AnyQualifier(quals) {
      assert "" + y == y;
      ReadPointerQualifiers(strict, quals, Blank(quals, inner, name) + y);
    } else {
      NoPointerQualifiers();
      assert "" + ("" + y) == y;
      QualifiersEnd(strict, y);
    }
  }

  lemma NoPointerQualifiers()
    ensures PointerQualifiers(UNQUALIFIED) == ""
  {}

  // Behind the specifier there is no word but the name, and that is behind a blank.
  lemma SpecifierEnds(d: Declarator, name: string, x: string)
    requires IsMinimal(d) && IsName(name) && Stops(x)
    ensures
      var tail := if d.Hole? && name == "" then x else " " + Render(d, name, x);
      EndsWord(tail) && !IsKeyword(Word(Skip(tail)))
  {
    hide IsKeyword;
    hide Word;
    if d.Hole? && name == "" {
      NoWord(x);
      SkipBlank(x);
    } else {
      MinimalIsWellFormed(d);
      RenderFront(d, name, x);
      SkipBlank(Render(d, name, x));
    }
  }

  lemma TypeTextThen(t: CType, name: string, x: string, n: nat)
    requires Readable(t, n)
    ensures
      var (d, base) := Declare(t, Hole);
      var tail := if d.Hole? && name == "" then x else " " + Render(d, name, x);
      base.Base? && TypeText(t, name) + x == LeadingQualifiers(base.quals) + (SpecifierText(base.spec) + tail)
  {
    hide *;
    TypeTextIsRendered(t, name, n);
    var (d, base) := Declare(t, Hole);
    BaseTextThen(base, if d.Hole? && name == "" then x else " " + Render(d, name, x));
    if d.Hole? && name == "" {
      assert BaseText(base) + "" + x == BaseText(base) + x;
    } else {
      var r := Render(d, name, "");
      RenderAppends(d, name, "", x);
      assert "" + x == x;
      Assoc(" ", r, x);
      Assoc(BaseText(base), " " + r, x);
    }
  }

  lemma BaseTextThen(base: CType, tail: string)
    requires base.Base?
    ensures BaseText(base) + tail == LeadingQualifiers(base.quals) + (SpecifierText(base.spec) + tail)
  {
    hide LeadingQualifiers;
    hide SpecifierText;
    Assoc(LeadingQualifiers(base.quals), SpecifierText(base.spec), tail);
  }

  // A type name reads back, and so does a declaration.
  lemma ReadTypeBack(strict: bool, t: CType, name: string, x: string, n: nat)
    requires Readable(t, n) && IsName(name) && Stops(x) && (strict ==> Parses(t, NameEdge, name != ""))
    ensures ReadType(strict, TypeText(t, name) + x, name) == Some((t, x))
    decreases n, 5, 0, 0
  {
    hide ReadQualifiers;
    hide ReadSpecifier;
    hide ReadDeclarator;
    TypeTextIsRendered(t, name, n);
    PrintedDeclaratorDenotes(t);
    DeclareReadable(t, Hole, n);
    DeclareIsMinimal(t, Hole);
    DeclareParses(t, Hole, name != "");
    var (d, base) := Declare(t, Hole);
    var tail := if d.Hole? && name == "" then x else " " + Render(d, name, x);
    SpecifierEnds(d, name, x);
    ReadSpecifierBack(base.spec, tail);
    SpecifierFront(base.spec, tail);
    ReadLeadingQualifiers(strict, base.quals, SpecifierText(base.spec) + tail);
    TypeTextThen(t, name, x, n);
    if !(d.Hole? && name == "") {
      assert (" " + Render(d, name, x))[1..] == Render(d, name, x);
      ReadDeclaratorBack(strict, d, name, x, n);
    }
  }

  // ---------------------------------------------------------------- every type

  predicate Spelled(t: CType) {
    match t
    case Base(_, spec) => IsSpelled(spec)
    case PointerTo(_, target) => Spelled(target)
    case ArrayOf(_, element) => Spelled(element)
    case FunctionOf(params, result) => (params.Listed? ==> forall u <- params.types :: Spelled(u)) && Spelled(result)
  }

  // The type with `(void)` read as C reads it (section 6.7.6.3, paragraph 10, of C11).
  function AsC(t: CType): CType {
    match t
    case Base(_, _) => t
    case PointerTo(quals, target) => PointerTo(quals, AsC(target))
    case ArrayOf(bound, element) => ArrayOf(bound, AsC(element))
    case FunctionOf(params, result) => FunctionOf(ParametersAsC(params), AsC(result))
  }

  function ParametersAsC(params: Parameters): Parameters {
    match params
    case Unspecified => params
    case Listed(types, isVariadic) => Listed(if IsVoidAlone(types, isVariadic) then [] else AllAsC(types), isVariadic)
  }

  function AllAsC(types: seq<CType>): (us: seq<CType>)
    ensures |us| == |types|
    ensures forall i :: 0 <= i < |types| ==> us[i] == AsC(types[i])
  {
    if types == [] then [] else [AsC(types[0])] + AllAsC(types[1..])
  }

  function Depth(t: CType): nat {
    match t
    case Base(_, _) => 0
    case PointerTo(_, target) => Depth(target)
    case ArrayOf(_, element) => Depth(element)
    case FunctionOf(params, result) => Larger(if params.Listed? then 1 + DepthOfAll(params.types) else 0, Depth(result))
  }

  function Larger(m: nat, n: nat): nat {
    if m < n then n else m
  }

  function DepthOfAll(types: seq<CType>): (n: nat)
    ensures forall u <- types :: Depth(u) <= n
  {
    if types == [] then 0 else Larger(Depth(types[0]), DepthOfAll(types[1..]))
  }

  lemma {:induction false} AsCIsReadable(t: CType, n: nat)
    requires Spelled(t) && Depth(t) <= n
    ensures Readable(AsC(t), n)
    decreases t
  {
    match t {
      case Base(_, _) =>
      case PointerTo(_, target) => AsCIsReadable(target, n);
      case ArrayOf(_, element) => AsCIsReadable(element, n);
      case FunctionOf(params, result) =>
        AsCIsReadable(result, n);
        if params.Listed? && !IsVoidAlone(params.types, params.isVariadic) {
          var us := AllAsC(params.types);
          forall i | 0 <= i < |us| ensures Readable(us[i], n - 1) {
            AsCIsReadable(params.types[i], n - 1);
          }
          if |us| == 1 {
            assert us == [us[0]] && params.types == [params.types[0]];
          }
        }
    }
  }

  // The printer does not tell the two apart.
  lemma {:induction false} AroundAsC(t: CType, fragment: string, prefix: bool)
    ensures Around(AsC(t), fragment, prefix) == Around(t, fragment, prefix)
    decreases t, 0
  {
    hide PointerText;
    hide BoundText;
    hide ParametersText;
    match t {
      case Base(_, _) =>
      case PointerTo(quals, target) => AroundAsC(target, PointerText(quals) + fragment, true);
      case ArrayOf(bound, element) => AroundAsC(element, Wrapped(fragment, prefix) + BoundText(bound), false);
      case FunctionOf(params, result) =>
        ParametersTextAsC(params);
        AroundAsC(result, Wrapped(fragment, prefix) + ParametersText(params), false);
    }
  }

  lemma {:induction false} ParametersTextAsC(params: Parameters)
    ensures ParametersText(ParametersAsC(params)) == ParametersText(params)
    decreases params, 2
  {
    hide Around;
    if params.Listed? {
      if IsVoidAlone(params.types, params.isVariadic) {
        VoidAloneText();
      } else {
        ListTextAsC(params.types, params.isVariadic);
      }
    }
  }

  lemma VoidAloneText()
    ensures ParametersText(Listed([Base(UNQUALIFIED, VoidSpecifier)], false)) == "(void)"
  {
    var types := [Base(UNQUALIFIED, VoidSpecifier)];
    assert types[1..] == [];
    assert Around(types[0], "@", false) == ("@", types[0]);
    assert TypeText(types[0], "") == "void";
    assert ListText(types, false) == "void" + ("" + "");
  }

  lemma {:induction false} ListTextAsC(types: seq<CType>, isVariadic: bool)
    ensures ListText(AllAsC(types), isVariadic) == ListText(types, isVariadic)
    decreases types, 1
  {
    hide Around;
    if types != [] {
      assert AllAsC(types)[1..] == AllAsC(types[1..]);
      AroundAsC(types[0], "@", false);
      ListTextAsC(types[1..], isVariadic);
    }
  }

  lemma TypeTextAsC(t: CType, name: string)
    ensures TypeText(AsC(t), name) == TypeText(t, name)
  {
    hide Around;
    AroundAsC(t, "@", false);
  }

  lemma {:induction false} AsCParses(t: CType, e: Edge, named: bool)
    ensures Parses(AsC(t), e, named) <==> Parses(t, e, named)
    decreases t
  {
    hide ParametersParse;
    match t {
      case Base(_, _) =>
      case PointerTo(_, target) => AsCParses(target, PointerEdge, named);
      case ArrayOf(_, element) => AsCParses(element, Under(e, false, named), named);
      case FunctionOf(params, result) =>
        AsCParses(result, Under(e, true, named), named);
        ParametersAsCParse(params);
    }
  }

  lemma {:induction false} ParametersAsCParse(params: Parameters)
    ensures ParametersParse(ParametersAsC(params)) <==> ParametersParse(params)
    decreases params
  {
    if params.Listed? && !IsVoidAlone(params.types, params.isVariadic) {
      var us := AllAsC(params.types);
      forall i | 0 <= i < |us| ensures Parses(us[i], NameEdge, false) <==> Parses(params.types[i], NameEdge, false) {
        AsCParses(params.types[i], NameEdge, false);
      }
    }
  }

  // What is printed for a type, alone or as a declaration of `name`, is read as that type: by the
  // lenient reader always, and by C where the text is one that C reads.
  lemma PrintedTypeReadsBack(strict: bool, t: CType, name: string, x: string)
    requires Spelled(t) && IsName(name) && Stops(x) && (strict ==> Parses(t, NameEdge, name != ""))
    ensures ReadType(strict, TypeText(t, name) + x, name) == Some((AsC(t), x))
  {
    hide TypeText;
    hide ReadType;
    AsCIsReadable(t, Depth(t));
    AsCParses(t, NameEdge, name != "");
    TypeTextAsC(t, name);
    ReadTypeBack(strict, AsC(t), name, x, Depth(t));
  }

  // Two types have the same text exactly when they are the same type to C.
  lemma SameTextIffSameType(t: CType, u: CType, name: string)
    requires Spelled(t) && Spelled(u) && IsName(name)
    ensures TypeText(t, name) == TypeText(u, name) <==> AsC(t) == AsC(u)
  {
    hide TypeText;
    hide ReadType;
    PrintedTypeReadsBack(false, t, name, "");
    PrintedTypeReadsBack(false, u, name, "");
    TypeTextAsC(t, name);
    TypeTextAsC(u, name);
  }

  // The one parameter list that is lost: a lone parameter of type void.
  lemma LoneVoidIsLost(result: CType, name: string)
    ensures
      var t, u := FunctionOf(Listed([Base(UNQUALIFIED, VoidSpecifier)], false), result), FunctionOf(Listed([], false), result);
      t != u && TypeText(t, name) == TypeText(u, name)
  {
    hide Around;
    var t, u := FunctionOf(Listed([Base(UNQUALIFIED, VoidSpecifier)], false), result), FunctionOf(Listed([], false), result);
    assert AsC(t) == AsC(u);
    TypeTextAsC(t, name);
    TypeTextAsC(u, name);
  }

  // ---------------------------------------------------------------- the order of qualifiers

  // All qualifiers of a base and of a pointer, in their order.
  lemma QualifiersInOrder()
    ensures LeadingQualifiers(Qualifiers(true, true, true, true)) == "const volatile _Atomic restrict "
    ensures PointerText(Qualifiers(true, true, true, true)) == "* const volatile _Atomic restrict "
  {
    QualifierWords();
    hide *;
    AllLeading();
    AllBehindStar();
  }

  lemma QualifierWords()
    ensures LeadingQualifiers(Qualifiers(true, true, true, true)) == "const " + ("volatile " + ("_Atomic " + "restrict "))
    ensures PointerText(Qualifiers(true, true, true, true)) ==
      "*" + ((" const" + (" volatile" + (" _Atomic" + " restrict"))) + " ")
  {}

  lemma AllLeading()
    ensures "const " + ("volatile " + ("_Atomic " + "restrict ")) == "const volatile _Atomic restrict "
  {
    hide *;
    assert "_Atomic " + "restrict " == "_Atomic restrict ";
    assert "volatile " + "_Atomic restrict " == "volatile _Atomic restrict ";
  }

  lemma AllBehindStar()
    ensures "*" + ((" const" + (" volatile" + (" _Atomic" + " restrict"))) + " ") == "* const volatile _Atomic restrict "
  {
    hide *;
    LastBehindStar();
    FirstBehindStar();
    AroundAllBehindStar();
  }

  lemma AroundAllBehindStar()
    ensures "*" + (" const volatile _Atomic restrict" + " ") == "* const volatile _Atomic restrict "
  {
    hide *;
  }

  lemma LastBehindStar()
    ensures " volatile" + (" _Atomic" + " restrict") == " volatile _Atomic restrict"
  {
    hide *;
    assert " _Atomic" + " restrict" == " _Atomic restrict";
  }

  lemma FirstBehindStar()
    ensures " const" + " volatile _Atomic restrict" == " const volatile _Atomic restrict"
  {
    hide *;
  }
}
