/**
 What the grammar does not read: the texts of types that no reader gives back, and with them the
 exact condition under which C reads a printed type as that type.
 */
module DeclaratorRefusals {
  import opened DeclaratorEdges
  import opened DeclaratorGrammar
  import opened DeclaratorReading
  import opened Declarators
  import opened Decimals
  import opened Options
  import opened Prefixes
  import opened TypeGraph

  // ---------------------------------------------------------------- only spelled types are read

  predicate SpelledParameters(params: Parameters) {
    params.Listed? ==> forall u <- params.types :: Spelled(u)
  }

  predicate SpelledDeclarator(d: Declarator) {
    match d
    case Hole => true
    case Group(inner) => SpelledDeclarator(inner)
    case Pointing(_, inner) => SpelledDeclarator(inner)
    case Suffixed(direct, suffix) => (suffix.CallSuffix? ==> SpelledParameters(suffix.params)) && SpelledDeclarator(direct)
  }

  lemma {:induction false} MeaningIsSpelled(d: Declarator, t: CType)
    requires SpelledDeclarator(d) && Spelled(t)
    ensures Spelled(Meaning(d, t))
    decreases d
  {
    match d {
      case Hole =>
      case Group(inner) => MeaningIsSpelled(inner, t);
      case Pointing(quals, inner) => MeaningIsSpelled(inner, PointerTo(quals, t));
      case Suffixed(direct, suffix) => MeaningIsSpelled(direct, Apply(suffix, t));
    }
  }

  lemma {:induction false} WordIsWord(s: string)
    ensures forall i :: 0 <= i < WordLength(s) ==> IsWordChar(s[i])
  {
    if s != "" && IsWordChar(s[0]) {
      WordIsWord(s[1..]);
      assert forall i :: 0 < i < WordLength(s) ==> s[i] == s[1..][i - 1];
    }
  }

  lemma ReadSpecifierIsSpelled(s: string)
    ensures ReadSpecifier(s).Some? ==> IsSpelled(ReadSpecifier(s).value.0)
  {
    hide ReadInteger;
    hide ReadComplex;
    hide Word;
    WordIsWord(Skip(After(s)));
    assert ReadTag(After(s)).Some? ==> IsWord(ReadTag(After(s)).value.0) by {
      TagIsWord(After(s));
    }
    IntegerIsInteger(true, Skip(After(s)));
    IntegerIsInteger(false, s);
    assert forall k: FloatingSpelling, x: string :: ReadComplex(k, x).0.FloatingSpecifier? by {
      ComplexIsFloating();
    }
  }

  lemma TagIsWord(s: string)
    ensures ReadTag(s).Some? ==> IsWord(ReadTag(s).value.0)
  {
    WordIsWord(Skip(s));
  }

  lemma IntegerIsInteger(isUnsigned: bool, s: string)
    ensures ReadInteger(isUnsigned, s).Some? ==> ReadInteger(isUnsigned, s).value.0.IntegerSpecifier?
  {}

  lemma ComplexIsFloating()
    ensures forall k: FloatingSpelling, x: string :: ReadComplex(k, x).0.FloatingSpecifier?
  {}

  lemma {:induction false} ReadTypeIsSpelled(strict: bool, s: string, name: string)
    ensures ReadType(strict, s, name).Some? ==> Spelled(ReadType(strict, s, name).value.0)
    decreases |s|, 4
  {
    hide ReadSpecifier;
    hide ReadQualifiers;
    hide ReadDeclarator;
    var body := ReadQualifiers(strict, s).1;
    ReadSpecifierIsSpelled(body);
    var spec := ReadSpecifier(body);
    if spec.Some? && spec.value.1 != "" && spec.value.1[0] == ' ' {
      var d := ReadDeclarator(strict, spec.value.1[1..], name);
      ReadDeclaratorIsSpelled(strict, spec.value.1[1..], name);
      if d.Some? {
        MeaningIsSpelled(d.value.0, Base(ReadQualifiers(strict, s).0, spec.value.0));
      }
    }
  }

  lemma {:induction false} ReadDeclaratorIsSpelled(strict: bool, s: string, name: string)
    ensures ReadDeclarator(strict, s, name).Some? ==> SpelledDeclarator(ReadDeclarator(strict, s, name).value.0)
    decreases |s|, 2
  {
    hide ReadQualifiers;
    hide ReadDirect;
    if s != "" && s[0] == '*' {
      ReadDeclaratorIsSpelled(strict, ReadQualifiers(strict, Skip(s[1..])).1, name);
    } else {
      ReadDirectIsSpelled(strict, s, name);
    }
  }

  lemma {:induction false} ReadDirectIsSpelled(strict: bool, s: string, name: string)
    ensures ReadDirect(strict, s, name).Some? ==> SpelledDeclarator(ReadDirect(strict, s, name).value.0)
    decreases |s|, 1
  {
    hide ReadDeclarator;
    hide ReadSuffixes;
    if OpensGroup(s, name) {
      var d := ReadDeclarator(strict, s[1..], name);
      ReadDeclaratorIsSpelled(strict, s[1..], name);
      if d.Some? && Behind(d.value.1, ")").Some? {
        ReadSuffixesAreSpelled(strict, Group(d.value.0), Behind(d.value.1, ")").value);
      }
    } else {
      ReadSuffixesAreSpelled(strict, Hole, After(s));
      ReadSuffixesAreSpelled(strict, Hole, s);
    }
  }

  lemma {:induction false} ReadSuffixesAreSpelled(strict: bool, d: Declarator, s: string)
    requires SpelledDeclarator(d)
    ensures ReadSuffixes(strict, d, s).Some? ==> SpelledDeclarator(ReadSuffixes(strict, d, s).value.0)
    decreases |s|, 0
  {
    hide ReadBound;
    hide ReadParameters;
    if s != "" && s[0] == '[' {
      var bound := ReadBound(s[1..]);
      if bound.Some? {
        ReadSuffixesAreSpelled(strict, Suffixed(d, ArraySuffix(bound.value.0)), bound.value.1);
      }
    } else if s != "" && s[0] == '(' {
      var params := ReadParameters(strict, s[1..]);
      ReadParametersAreSpelled(strict, s[1..]);
      if params.Some? {
        ReadSuffixesAreSpelled(strict, Suffixed(d, CallSuffix(params.value.0)), params.value.1);
      }
    }
  }

  lemma {:induction false} ReadParametersAreSpelled(strict: bool, s: string)
    ensures ReadParameters(strict, s).Some? ==> SpelledParameters(ReadParameters(strict, s).value.0)
    decreases |s|, 6
  {
    hide ReadList;
    ReadListIsSpelled(strict, s);
  }

  lemma {:induction false} ReadListIsSpelled(strict: bool, s: string)
    ensures ReadList(strict, s).Some? ==> forall u <- ReadList(strict, s).value.0 :: Spelled(u)
    decreases |s|, 5
  {
    hide ReadType;
    var first := ReadType(strict, s, "");
    ReadTypeIsSpelled(strict, s, "");
    if first.Some? && Behind(first.value.1, ", ").Some? {
      ReadListIsSpelled(strict, Behind(first.value.1, ", ").value);
    }
  }

  lemma {:induction false} SpelledAsC(t: CType)
    ensures Spelled(AsC(t)) <==> Spelled(t)
    decreases t
  {
    match t {
      case Base(_, _) =>
      case PointerTo(_, target) => SpelledAsC(target);
      case ArrayOf(_, element) => SpelledAsC(element);
      case FunctionOf(params, result) =>
        SpelledAsC(result);
        if params.Listed? && !IsVoidAlone(params.types, params.isVariadic) {
          var us := AllAsC(params.types);
          forall i | 0 <= i < |us| ensures Spelled(us[i]) <==> Spelled(params.types[i]) {
            SpelledAsC(params.types[i]);
          }
        }
    }
  }

  // ---------------------------------------------------------------- what C refuses

  // In front of a parenthesis the last qualifier `_Atomic` of a pointer is left unread.
  lemma AtomicStops(q: Qualifiers, x: string)
    requires IsAtomicLast(q) && EndsWord(x) && OpensParenthesis(Skip(x))
    ensures Word(ReadQualifiers(true, Skip(PointerQualifiers(q) + x)).1) == "_Atomic"
  {
    hide ReadQualifiers;
    hide Skip;
    hide Mark;
    var x2 := " _Atomic" + x;
    var x1 := (if q.isVolatile then " volatile" else "") + x2;
    FourParts(if q.isConst then " const" else "", if q.isVolatile then " volatile" else "", " _Atomic", "", x);
    assert "" + x == x;
    AtomicStopsHere(x);
    OneQualifier(true, q.isVolatile, "volatile", x2);
    OneQualifier(true, q.isConst, "const", x1);
    assert " " + "volatile" == " volatile" && " " + "const" == " const";
  }

  lemma AtomicStopsHere(x: string)
    requires EndsWord(x) && OpensParenthesis(Skip(x))
    ensures EndsWord(" _Atomic" + x)
    ensures ReadQualifiers(true, Skip(" _Atomic" + x)) == (UNQUALIFIED, "_Atomic" + x) && Word("_Atomic" + x) == "_Atomic"
  {
    hide Word;
    hide After;
    assert " _Atomic" + x == " " + ("_Atomic" + x);
    SkipBlank("_Atomic" + x);
    WordThen("_Atomic", x);
  }

  // A suffix that C does not read.
  lemma SuffixIsRefused(d: Declarator, suffix: Suffix, x: string, n: nat)
    requires suffix.CallSuffix? && ReadableParameters(suffix.params, n) && !ParametersParse(suffix.params)
    ensures ReadSuffixes(true, d, SuffixText(suffix) + x) == None
    decreases n, 3, 0
  {
    hide ReadList;
    hide ListText;
    hide Parses;
    var types, isVariadic := suffix.params.types, suffix.params.isVariadic;
    var s, list := SuffixText(suffix) + x, ListText(types, isVariadic);
    assert s == "(" + (list + ")") + x;
    Assoc("(", list + ")", x);
    Assoc(list, ")", x);
    ListTextFront(types, isVariadic);
    assert s[1..][0] == list[0];
    BehindOther(s[1..], ")");
    NotVoidAlone(types, isVariadic, x, n - 1);
    if types == [] {
      EllipsisText();
      BehindPrefix("...", ")" + x);
    } else {
      ListIsRefused(types, isVariadic, x, n - 1);
    }
  }

  lemma EllipsisText()
    ensures ListText([], true) == "..."
  {}

  lemma {:induction false} ListIsRefused(types: seq<CType>, isVariadic: bool, x: string, n: nat)
    requires types != [] && forall u <- types :: Readable(u, n)
    requires exists u <- types :: !Parses(u, NameEdge, false)
    ensures ReadList(true, ListText(types, isVariadic) + (")" + x)) == None
    decreases n, 8, |types|
  {
    hide ReadType;
    hide ListText;
    hide Readable;
    hide Parses;
    var s, more := ListText(types, isVariadic) + (")" + x), MoreText(types, isVariadic, x);
    MoreStops(types, isVariadic, x);
    ListTextFront(types, isVariadic);
    BehindOther(s, "...)");
    if Parses(types[0], NameEdge, false) {
      ReadTypeBack(true, types[0], "", more, n);
      assert types == [types[0]] + types[1..];
      ListIsRefused(types[1..], isVariadic, x, n);
      BehindPrefix(", ", ListText(types[1..], isVariadic) + (")" + x));
    } else {
      TypeIsRefused(types[0], "", more, n);
    }
  }

  lemma {:induction false} DirectIsRefused(d: Declarator, name: string, x: string, n: nat)
    requires IsMinimal(d) && !d.Pointing? && ReadableDeclarator(d, n) && IsName(name) && Follows(x)
    requires !DeclaratorParses(d, name != "")
    ensures ReadDirect(true, Render(d, name, x), name) == None
    decreases n, 4, d, 0
  {
    hide ReadSuffixes;
    hide ReadDeclarator;
    hide ParametersParse;
    match d {
      case Group(inner) =>
        var s := Render(d, name, x);
        assert s[1..] == Render(inner, name, ")" + x);
        assert s[1] == '*';
        DeclaratorIsRefused(inner, name, ")" + x, n);
      case Suffixed(direct, suffix) =>
        SuffixFollows(suffix, x);
        if DeclaratorParses(direct, name != "") {
          ReadDirectBack(true, direct, name, SuffixText(suffix) + x, n);
          SuffixIsRefused(direct, suffix, x, n);
        } else {
          DirectIsRefused(direct, name, SuffixText(suffix) + x, n);
        }
    }
  }

  lemma {:induction false} DeclaratorIsRefused(d: Declarator, name: string, x: string, n: nat)
    requires IsMinimal(d) && ReadableDeclarator(d, n) && IsName(name) && Stops(x)
    requires !DeclaratorParses(d, name != "")
    ensures ReadDeclarator(true, Render(d, name, x), name) == None
    decreases n, 4, d, 1
  {
    hide ReadDirect;
    hide ReadQualifiers;
    hide ParametersParse;
    var s := Render(d, name, x);
    MinimalIsWellFormed(d);
    RenderFront(d, name, x);
    if d.Pointing? {
      var y := Render(d.inner, name, x);
      RenderFront(d.inner, name, x);
      assert s[1..] == PointerQualifiers(d.quals) + (Blank(d.quals, d.inner, name) + y);
      RenderEdge(d.inner, name, x);
      if IsAtomicLast(d.quals) && EdgeOf(d.inner, name != "").ParenthesisEdge? {
        SkipBlank(y);
        assert "" + y == y;
        AtomicStops(d.quals, Blank(d.quals, d.inner, name) + y);
      } else {
        ReadStar(true, d.quals, d.inner, name, y);
        DeclaratorIsRefused(d.inner, name, x, n);
      }
    } else {
      DirectIsRefused(d, name, x, n);
    }
  }

  lemma TypeIsRefused(t: CType, name: string, x: string, n: nat)
    requires Readable(t, n) && IsName(name) && Stops(x) && !Parses(t, NameEdge, name != "")
    ensures ReadType(true, TypeText(t, name) + x, name) == None
    decreases n, 5, 0, 0
  {
    hide ReadQualifiers;
    hide ReadSpecifier;
    hide ReadDeclarator;
    TypeTextIsRendered(t, name, n);
    PrintedDeclaratorDenotes(t);
    DeclareReadable(t, Hole, n);
    DeclareIsMinimal(t, Hole);
    DeclareParses(t, Hole, name != "");
    var (d, base) := Declare(t, Hole);
    var tail := if d.Hole? && name == "" then x else " " + Render(d, name, x);
    SpecifierEnds(d, name, x);
    ReadSpecifierBack(base.spec, tail);
    SpecifierFront(base.spec, tail);
    ReadLeadingQualifiers(true, base.quals, SpecifierText(base.spec) + tail);
    TypeTextThen(t, name, x, n);
    assert !d.Hole?;
    assert (" " + Render(d, name, x))[1..] == Render(d, name, x);
    DeclaratorIsRefused(d, name, x, n);
  }

  // ---------------------------------------------------------------- exactly when C reads a type back

  // A type is lost when a record or an enumeration in it has no proper tag; when an atomic pointer is
  // printed in front of a parenthesis; and when a list has an ellipsis and no parameters.
  lemma ReadsBackIff(t: CType, name: string, x: string)
    requires IsName(name) && Stops(x)
    ensures
      ReadType(true, TypeText(t, name) + x, name) == Some((AsC(t), x)) <==>
      Spelled(t) && Parses(t, NameEdge, name != "")
  {
    hide TypeText;
    hide ReadType;
    hide Parses;
    SpelledAsC(t);
    ReadTypeIsSpelled(true, TypeText(t, name) + x, name);
    if Spelled(t) {
      if Parses(t, NameEdge, name != "") {
        PrintedTypeReadsBack(true, t, name, x);
      } else {
        AsCIsReadable(t, Depth(t));
        AsCParses(t, NameEdge, name != "");
        TypeTextAsC(t, name);
        TypeIsRefused(AsC(t), name, x, Depth(t));
      }
    }
  }

  // The lenient reader, which only tells texts apart, loses no type with proper tags.
  lemma LenientlyReadBackIffSpelled(t: CType, name: string, x: string)
    requires IsName(name) && Stops(x)
    ensures ReadType(false, TypeText(t, name) + x, name) == Some((AsC(t), x)) <==> Spelled(t)
  {
    hide TypeText;
    hide ReadType;
    SpelledAsC(t);
    ReadTypeIsSpelled(false, TypeText(t, name) + x, name);
    if Spelled(t) {
      PrintedTypeReadsBack(false, t, name, x);
    }
  }

  const INT := Base(UNQUALIFIED, IntegerSpecifier(false, IntWord))

  const ATOMIC := UNQUALIFIED.(isAtomic := true)

  // A pointer to an array of atomic pointers to int.
  const ATOMIC_ROWS := PointerTo(UNQUALIFIED, ArrayOf(NoBound, PointerTo(ATOMIC, INT)))

  const ROWS_DECLARATOR := Suffixed(Group(Pointing(UNQUALIFIED, Hole)), ArraySuffix(NoBound))

  // `typedef int *_Atomic AP; AP (*a)[];` is printed as a text that is no declaration.
  lemma AtomicPointersAreLost()
    ensures TypeText(ATOMIC_ROWS, "a") == "int * _Atomic (*a)[]"
    ensures ReadType(true, "int * _Atomic (*a)[]", "a") == None
  {
    hide *;
    AtomicRowsText();
    RowsDeclared();
    RowsParse();
    TypeIsRefused(ATOMIC_ROWS, "a", "", 0);
    assert TypeText(ATOMIC_ROWS, "a") + "" == TypeText(ATOMIC_ROWS, "a");
  }

  lemma RowsParse()
    ensures !Parses(ATOMIC_ROWS, NameEdge, "a" != "") && IsName("a") && Stops("")
  {}

  lemma AtomicRowsText()
    ensures TypeText(ATOMIC_ROWS, "a") == "int * _Atomic (*a)[]"
  {
    hide *;
    RowsDeclared();
    TypeTextIsRendered(ATOMIC_ROWS, "a", 0);
    RowsText();
    IntText();
    assert "int" + (" " + "* _Atomic (*a)[]") == "int * _Atomic (*a)[]";
  }

  lemma RowsDeclared()
    ensures Readable(ATOMIC_ROWS, 0) && Declare(ATOMIC_ROWS, Hole) == (Pointing(ATOMIC, ROWS_DECLARATOR), INT)
  {
    hide IsSpelled;
    assert Readable(INT, 0) by {
      assert IsSpelled(INT.spec) by { IntIsSpelled(); }
    }
  }

  lemma IntIsSpelled()
    ensures IsSpelled(INT.spec)
  {}

  lemma RowsText()
    ensures Render(Pointing(ATOMIC, ROWS_DECLARATOR), "a", "") == "* _Atomic (*a)[]"
  {
    RowsInside();
    AtomicText();
    hide PointerQualifiers;
    hide Blank;
    assert Render(Pointing(ATOMIC, ROWS_DECLARATOR), "a", "") == "*" + (" _Atomic" + (" " + "(*a)[]"));
    hide *;
    assert "*" + (" _Atomic" + (" " + "(*a)[]")) == "* _Atomic (*a)[]";
  }

  lemma AtomicText()
    ensures PointerQualifiers(ATOMIC) == " _Atomic" && Blank(ATOMIC, ROWS_DECLARATOR, "a") == " "
  {}

  lemma RowsInside()
    ensures Render(ROWS_DECLARATOR, "a", "") == "(*a)[]"
  {
    var d := Pointing(UNQUALIFIED, Hole);
    assert Render(d, "a", ")[]") == "*a)[]" by {
      assert "" + ("" + ("a" + ")[]")) == "a)[]";
    }
    assert ")" + ("[]" + "") == ")[]";
  }

  lemma IntText()
    ensures BaseText(INT) == "int"
  {}

  const ELLIPSIS_ONLY := FunctionOf(Listed([], true), INT)

  // `int (...)`: a list with an ellipsis and nothing in front of it.
  lemma BareEllipsisIsLost()
    ensures TypeText(ELLIPSIS_ONLY, "") == "int (...)" && ReadType(true, "int (...)", "") == None
  {
    hide *;
    BareEllipsisText();
    BareEllipsisParses();
    TypeIsRefused(ELLIPSIS_ONLY, "", "", 1);
    assert TypeText(ELLIPSIS_ONLY, "") + "" == TypeText(ELLIPSIS_ONLY, "");
  }

  lemma BareEllipsisParses()
    ensures Readable(ELLIPSIS_ONLY, 1) && !Parses(ELLIPSIS_ONLY, NameEdge, "" != "") && IsName("") && Stops("")
  {
    hide IsSpelled;
    hide IsVoidAlone;
    IntIsSpelled();
    NoParametersReadable(Listed([], true));
  }

  lemma NoParametersReadable(params: Parameters)
    requires params == Listed([], true)
    ensures ReadableParameters(params, 1) && !ParametersParse(params)
  {}

  lemma BareEllipsisText()
    ensures TypeText(ELLIPSIS_ONLY, "") == "int (...)"
  {
    var params := Listed([], true);
    var d := Suffixed(Hole, CallSuffix(params));
    TypeTextIsRendered(ELLIPSIS_ONLY, "", 1);
    assert Declare(ELLIPSIS_ONLY, Hole) == (d, INT);
    IntText();
    assert ParametersText(params) == "(...)" by {
      EllipsisText();
    }
    assert Render(d, "", "") == "" + (ParametersText(params) + "");
    hide *;
    assert "" + ("(...)" + "") == "(...)" && "int" + (" " + "(...)") == "int (...)";
  }
}
