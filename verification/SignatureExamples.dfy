/**
 Signatures as the writer prints them on the host, letter by letter: the scalars, and one type of every
 other shape.
 */
module SignatureExamples {
  import opened Decimals
  import opened Options
  import opened Signatures
  import opened TargetInfo
  import opened TypeGraph

  // ---------------------------------------------------------------- terms of examples

  lemma {:induction false} TermsFromEach(g: Table, qs: seq<QualType>, path: seq<TypeId>, ts: seq<Term>)
    requires |ts| == |qs| && forall i :: 0 <= i < |qs| ==> TermOf(g, qs[i], path) == Some(ts[i])
    ensures TermsOf(g, qs, path) == Some(ts)
    decreases |qs|
  {
    hide TermOf;
    if qs != [] {
      TermsFromEach(g, qs[1..], path, ts[1..]);
      assert ts == [ts[0]] + ts[1..];
    }
  }

  lemma Built(g: Table, q: QualType, path: seq<TypeId>, ts: seq<Term>)
    requires Known(g, q.id) && q.id !in path && IsPrintable(g.types[q.id])
    requires
      var cs := ChildrenOf(g.types[q.id]);
      |ts| == |cs| && forall i :: 0 <= i < |cs| ==> TermOf(g, cs[i], [q.id] + path) == Some(ts[i])
    ensures
      var l := LabelOf(g.layout, g.types[q.id]);
      Fits(l, |ts|) && TermOf(g, q, path) == Some(Term(QualifierText(q.quals), Build(l, ts)))
  {
    hide LabelOf;
    hide Build;
    LabelFits(g.layout, g.types[q.id]);
    TermsFromEach(g, ChildrenOf(g.types[q.id]), [q.id] + path, ts);
  }

  lemma Numerals()
    ensures Decimal(0) == "0" && Decimal(1) == "1" && Decimal(2) == "2" && Decimal(3) == "3" && Decimal(4) == "4"
    ensures Decimal(5) == "5" && Decimal(6) == "6" && Decimal(8) == "8"
    ensures Decimal(13) == "13" && Decimal(16) == "16" && Decimal(32) == "32" && Decimal(64) == "64"
    ensures Decimal(128) == "128"
  {
    assert Decimal(12) == "12";
  }

  function Bare(id: TypeId): QualType {
    QualType(id, UNQUALIFIED)
  }

  lemma NoLetters()
    ensures QualifierText(UNQUALIFIED) == ""
  {}

  // The text of a leaf alone.
  lemma LeafSignature(g: Table, id: TypeId, leaf: Leaf)
    requires Known(g, id) && IsPrintable(g.types[id]) && ChildrenOf(g.types[id]) == []
    requires LabelOf(g.layout, g.types[id]) == LeafLabel(leaf)
    ensures Signature(g, Bare(id)) == Some(LeafText(leaf, ""))
  {
    hide LabelOf;
    hide LeafText;
    hide TermOf;
    NoLetters();
    Built(g, Bare(id), [], []);
    assert TermOf(g, Bare(id), []) == Some(Term("", LeafNode(leaf)));
    assert Text(Term("", LeafNode(leaf)), "") == "" + LeafText(leaf, "");
    assert "" + LeafText(leaf, "") == LeafText(leaf, "");
  }

  // ---------------------------------------------------------------- scalars

  lemma IntegerSignatures(g: Table, id: TypeId, kind: IntegerKind, isUnsigned: bool)
    requires Known(g, id) && g.layout == HOST && g.types[id] == IntegerType(kind, isUnsigned, false, "")
    ensures
      var s := Signature(g, Bare(id));
      match kind
      case CharKind => s == Some(if isUnsigned then "u8C" else "i8C")
      case ShortKind => s == Some(if isUnsigned then "u16S" else "i16S")
      case IntKind => s == Some(if isUnsigned then "u32I" else "i32I")
      case LongKind => s == Some(if isUnsigned then "ul64" else "l64")
      case LongLongKind => s == Some(if isUnsigned then "ull64" else "ll64")
      case _ => true
  {
    hide Signature;
    hide LeafText;
    var leaf := IntegerLeaf(HOST, kind, isUnsigned, false, "");
    LeafSignature(g, id, leaf);
    IntegerTexts(kind, isUnsigned);
  }

  lemma IntegerTexts(kind: IntegerKind, isUnsigned: bool)
    ensures
      var s := LeafText(IntegerLeaf(HOST, kind, isUnsigned, false, ""), "");
      match kind
      case CharKind => s == if isUnsigned then "u8C" else "i8C"
      case ShortKind => s == if isUnsigned then "u16S" else "i16S"
      case IntKind => s == if isUnsigned then "u32I" else "i32I"
      case LongKind => s == if isUnsigned then "ul64" else "l64"
      case LongLongKind => s == if isUnsigned then "ull64" else "ll64"
      case _ => true
  {
    hide *;
    IntegerLeaves(kind, isUnsigned);
    SuffixLetters();
    SmallTexts();
    match kind {
      case CharKind => IntegerText(isUnsigned, 8, CharSuffix, "8", "C");
      case ShortKind => IntegerText(isUnsigned, 16, ShortSuffix, "16", "S");
      case IntKind => IntegerText(isUnsigned, 32, IntSuffix, "32", "I");
      case LongKind => LongText(isUnsigned);
      case LongLongKind => LongLongText(isUnsigned);
      case _ =>
    }
  }

  lemma IntegerLeaves(kind: IntegerKind, isUnsigned: bool)
    ensures
      var leaf := IntegerLeaf(HOST, kind, isUnsigned, false, "");
      match kind
      case CharKind => leaf == Integer(isUnsigned, 8, CharSuffix)
      case ShortKind => leaf == Integer(isUnsigned, 16, ShortSuffix)
      case IntKind => leaf == Integer(isUnsigned, 32, IntSuffix)
      case LongKind => leaf == Long(isUnsigned, 64)
      case LongLongKind => leaf == LongLong(isUnsigned, 64)
      case _ => true
  {
    HostSizes();
    hide ScalarSize;
  }

  lemma HostSizes()
    ensures ScalarSize(HOST, CharScalar) == 1 && ScalarSize(HOST, ShortScalar) == 2 && ScalarSize(HOST, IntScalar) == 4
    ensures ScalarSize(HOST, LongScalar) == 8 && ScalarSize(HOST, LongLongScalar) == 8
    ensures ScalarSize(HOST, FloatScalar) == 4 && ScalarSize(HOST, DoubleScalar) == 8 && ScalarSize(HOST, LongDoubleScalar) == 8
    ensures ScalarSize(HOST, FloatComplexScalar) == 8 && ScalarSize(HOST, DoubleComplexScalar) == 16
    ensures ScalarSize(HOST, LongDoubleComplexScalar) == 16
  {}

  lemma IntegerText(isUnsigned: bool, bits: nat, suffix: IntegerSuffix, digits: string, letter: string)
    requires (bits, digits) in {(8, "8"), (16, "16"), (32, "32")} && letter == SuffixText(suffix)
    ensures LeafText(Integer(isUnsigned, bits, suffix), "") == (if isUnsigned then "u" else "i") + digits + letter
  {
    Numerals();
    hide Decimal;
    assert letter + "" == letter;
    Assoc(if isUnsigned then "u" else "i", digits, letter);
  }

  lemma SuffixLetters()
    ensures SuffixText(CharSuffix) == "C" && SuffixText(ShortSuffix) == "S" && SuffixText(IntSuffix) == "I"
  {}

  lemma SmallTexts()
    ensures "u" + "8" + "C" == "u8C" && "i" + "8" + "C" == "i8C"
    ensures "u" + "16" + "S" == "u16S" && "i" + "16" + "S" == "i16S"
    ensures "u" + "32" + "I" == "u32I" && "i" + "32" + "I" == "i32I"
  {}

  lemma LongText(isUnsigned: bool)
    ensures LeafText(Long(isUnsigned, 64), "") == if isUnsigned then "ul64" else "l64"
  {
    Numerals();
    hide Decimal;
  }

  lemma LongLongText(isUnsigned: bool)
    ensures LeafText(LongLong(isUnsigned, 64), "") == if isUnsigned then "ull64" else "ll64"
  {
    Numerals();
    hide Decimal;
  }

  lemma OtherScalarSignatures(g: Table, id: TypeId)
    requires Known(g, id) && g.layout == HOST
    ensures g.types[id] == VoidType ==> Signature(g, Bare(id)) == Some("v")
    ensures g.types[id] == BoolType ==> Signature(g, Bare(id)) == Some("b")
    ensures g.types[id] == IntegerType(CharKind, false, true, "") ==> Signature(g, Bare(id)) == Some("c8")
  {
    hide Signature;
    OtherTexts();
    if g.types[id] == VoidType {
      LeafSignature(g, id, Void);
    } else if g.types[id] == BoolType {
      LeafSignature(g, id, Bool);
    } else if g.types[id] == IntegerType(CharKind, false, true, "") {
      HostSizes();
      LeafSignature(g, id, PlainChar(8));
    }
  }

  lemma OtherTexts()
    ensures LeafText(Void, "") == "v" && LeafText(Bool, "") == "b" && LeafText(PlainChar(8), "") == "c8"
  {
    Numerals();
    hide Decimal;
  }

  lemma FloatingSignatures(g: Table, id: TypeId, kind: FloatingKind, isComplex: bool)
    requires Known(g, id) && g.layout == HOST && g.types[id] == FloatingType(kind, isComplex)
    ensures
      var s := Signature(g, Bare(id));
      match kind
      case FloatKind => s == Some(if isComplex then "x64F" else "f32F")
      case DoubleKind => s == Some(if isComplex then "x128D" else "f64D")
      case LongDoubleKind => s == Some(if isComplex then "x128L" else "f64L")
      case NoFloatingKind => s == None
  {
    hide Signature;
    hide LeafText;
    HostSizes();
    hide ScalarSize;
    match kind {
      case FloatKind =>
        FloatTexts();
        LeafSignature(g, id, Floating(isComplex, if isComplex then 64 else 32, FloatF));
      case DoubleKind =>
        DoubleTexts();
        LeafSignature(g, id, Floating(isComplex, if isComplex then 128 else 64, FloatD));
      case LongDoubleKind =>
        LongDoubleTexts();
        LeafSignature(g, id, Floating(isComplex, if isComplex then 128 else 64, FloatL));
      case NoFloatingKind => NothingPrinted(g, id);
    }
  }

  lemma NothingPrinted(g: Table, id: TypeId)
    requires Known(g, id) && !IsPrintable(g.types[id])
    ensures Signature(g, Bare(id)) == None
  {
    assert Distance([], id) < 0;
    assert NodeOf(g, id, []) == None;
    assert TermOf(g, Bare(id), []) == None;
  }

  lemma FloatTexts()
    ensures LeafText(Floating(false, 32, FloatF), "") == "f32F" && LeafText(Floating(true, 64, FloatF), "") == "x64F"
  {
    Numerals();
    hide Decimal;
  }

  lemma DoubleTexts()
    ensures LeafText(Floating(false, 64, FloatD), "") == "f64D" && LeafText(Floating(true, 128, FloatD), "") == "x128D"
  {
    Numerals();
    hide Decimal;
  }

  lemma LongDoubleTexts()
    ensures LeafText(Floating(false, 64, FloatL), "") == "f64L" && LeafText(Floating(true, 128, FloatL), "") == "x128L"
  {
    Numerals();
    hide Decimal;
  }

  // An enumeration: by its tag, unless the tag was generated.
  lemma EnumSignatures(g: Table, id: TypeId, isUnsigned: bool, tag: string)
    requires Known(g, id) && g.layout == HOST && g.types[id] == IntegerType(EnumKind, isUnsigned, false, tag)
    ensures Signature(g, Bare(id)) ==
      if IsGeneratedTag(tag) then Some(if isUnsigned then "e<u32I>" else "e<i32I>")
      else Some("e{" + (Decimal(|tag|) + (":" + (tag + if isUnsigned then ":u32I}" else ":i32I}"))))
  {
    hide Signature;
    HostSizes();
    hide ScalarSize;
    hide IsGeneratedTag;
    if IsGeneratedTag(tag) {
      LeafSignature(g, id, AnonymousEnum(isUnsigned, 32));
      AnonymousEnumTexts();
    } else {
      LeafSignature(g, id, TaggedEnum(tag, isUnsigned, 32));
      TaggedEnumText(tag, isUnsigned);
    }
  }

  lemma AnonymousEnumTexts()
    ensures LeafText(AnonymousEnum(false, 32), "") == "e<i32I>" && LeafText(AnonymousEnum(true, 32), "") == "e<u32I>"
  {
    Numerals();
    hide Decimal;
  }

  lemma TaggedEnumText(tag: string, isUnsigned: bool)
    ensures LeafText(TaggedEnum(tag, isUnsigned, 32), "") ==
      "e{" + (Decimal(|tag|) + (":" + (tag + if isUnsigned then ":u32I}" else ":i32I}")))
  {
    Numerals();
    EnumTail(isUnsigned);
    hide Decimal;
  }

  lemma EnumTail(isUnsigned: bool)
    ensures (if isUnsigned then ":u" else ":i") + ("32" + ("I}" + "")) == if isUnsigned then ":u32I}" else ":i32I}"
  {}

  // ---------------------------------------------------------------- one type of every other shape

  const INT := IntegerType(IntKind, false, false, "")

  const CHAR := IntegerType(CharKind, false, true, "")

  const INT_TERM := Term("", LeafNode(Integer(false, 32, IntSuffix)))

  const CHAR_TERM := Term("", LeafNode(PlainChar(8)))

  // A table for the host in which 1 is `int` and 2 is `char`.
  predicate HasScalars(g: Table) {
    g.layout == HOST && Known(g, 1) && g.types[1] == INT && Known(g, 2) && g.types[2] == CHAR
  }

  lemma ScalarTerms(g: Table, path: seq<TypeId>)
    requires HasScalars(g) && 1 !in path && 2 !in path
    ensures TermOf(g, Bare(1), path) == Some(INT_TERM) && TermOf(g, Bare(2), path) == Some(CHAR_TERM)
  {
    NoLetters();
    IntegerLeaves(IntKind, false);
    HostSizes();
    hide ScalarSize;
    Built(g, Bare(1), path, []);
    Built(g, Bare(2), path, []);
  }

  lemma ScalarsBefore(rest: string)
    ensures Text(INT_TERM, rest) == "i32I" + rest && Text(CHAR_TERM, rest) == "c8" + rest
  {
    Numerals();
    hide Decimal;
    assert "i" + ("32" + ("I" + rest)) == "i32I" + rest;
    assert "c" + ("8" + rest) == "c8" + rest;
  }

  // What is printed for a type whose term is known.
  lemma SignatureOf(g: Table, q: QualType, t: Term, text: string)
    requires TermOf(g, q, []) == Some(t) && Text(t, "") == text
    ensures Signature(g, q) == Some(text)
  {}

  lemma PointerSignature(g: Table, id: TypeId)
    requires HasScalars(g) && Known(g, id) && id > 2
    requires g.types[id] == PointerType(QualType(1, Qualifiers(true, false, true, false)))
    ensures Signature(g, QualType(id, Qualifiers(false, true, false, true))) == Some("VRp<kAi32I>")
  {
    var q, inner := QualType(id, Qualifiers(false, true, false, true)), QualType(1, Qualifiers(true, false, true, false));
    QualifiedInt(g, id);
    assert QualifierText(q.quals) == "VR";
    PointerText();
    hide Text;
    assert [id] + [] == [id];
    Built(g, q, [], [Term("kA", INT_TERM.node)]);
    SignatureOf(g, q, Term("VR", Pointer(Term("kA", INT_TERM.node))), "VRp<kAi32I>");
  }

  lemma QualifiedInt(g: Table, id: TypeId)
    requires HasScalars(g) && id > 2
    ensures TermOf(g, QualType(1, Qualifiers(true, false, true, false)), [id]) == Some(Term("kA", INT_TERM.node))
  {
    var q := QualType(1, Qualifiers(true, false, true, false));
    IntegerLeaves(IntKind, false);
    assert QualifierText(q.quals) == "kA";
    hide IntegerLeaf;
    Built(g, q, [id], []);
  }

  lemma PointerText()
    ensures Text(Term("VR", Pointer(Term("kA", INT_TERM.node))), "") == "VRp<kAi32I>"
  {
    ScalarsBefore(">");
    assert Text(INT_TERM, ">") == "" + NodeText(INT_TERM.node, ">");
    hide NodeText;
    var inner := Text(Term("kA", INT_TERM.node), ">");
    assert inner == "kA" + "i32I>";
    PointerAround(Term("kA", INT_TERM.node));
    assert "VR" + ("p<" + "kAi32I>") == "VRp<kAi32I>";
  }

  lemma PointerAround(t: Term)
    ensures Text(Term("VR", Pointer(t)), "") == "VR" + ("p<" + Text(t, ">"))
  {
    assert ">" + "" == ">";
  }

  lemma ArraySignature(g: Table, id: TypeId, isVla: bool)
    requires HasScalars(g) && Known(g, id) && id > 2 && g.types[id] == ArrayType(3, isVla, Bare(2))
    ensures Signature(g, Bare(id)) == Some("a3<c8>")
  {
    NoLetters();
    ScalarTerms(g, [id]);
    ArrayText();
    hide Text;
    assert [id] + [] == [id];
    Built(g, Bare(id), [], [CHAR_TERM]);
    SignatureOf(g, Bare(id), Term("", Array(3, CHAR_TERM)), "a3<c8>");
  }

  lemma ArrayText()
    ensures Text(Term("", Array(3, CHAR_TERM)), "") == "a3<c8>"
  {
    Numerals();
    hide Decimal;
    ScalarsBefore(">");
    assert ">" + "" == ">";
    assert "" + ("a" + ("3" + ("<" + ("c8" + ">")))) == "a3<c8>";
  }

  // The result stands in front, the parameters in their order behind it.
  lemma FunctionSignature(g: Table, id: TypeId, hasPrototype: bool, isVariadic: bool)
    requires HasScalars(g) && Known(g, id) && id > 2
    requires g.types[id] == FunctionType(Bare(1), [Bare(1), Bare(2)], hasPrototype, isVariadic)
    ensures Signature(g, Bare(id)) == Some(if isVariadic then "i32I(i32I,c8,...)" else "i32I(i32I,c8)")
  {
    NoLetters();
    ScalarTerms(g, [id]);
    FunctionText(isVariadic);
    hide Text;
    assert [id] + [] == [id];
    var ts := [INT_TERM, INT_TERM, CHAR_TERM];
    assert ts[1..] == [INT_TERM, CHAR_TERM];
    Built(g, Bare(id), [], ts);
    SignatureOf(g, Bare(id), Term("", Function(INT_TERM, Call([INT_TERM, CHAR_TERM], isVariadic))),
      if isVariadic then "i32I(i32I,c8,...)" else "i32I(i32I,c8)");
  }

  lemma FunctionText(isVariadic: bool)
    ensures Text(Term("", Function(INT_TERM, Call([INT_TERM, CHAR_TERM], isVariadic))), "") ==
      if isVariadic then "i32I(i32I,c8,...)" else "i32I(i32I,c8)"
  {
    hide *;
    var end := ")" + "";
    assert end == ")";
    TwoArguments(isVariadic, end);
    FunctionAround(INT_TERM, Call([INT_TERM, CHAR_TERM], isVariadic));
    ScalarsBefore("(" + if isVariadic then "i32I,c8,...)" else "i32I,c8)");
    assert "" + ("i32I" + ("(" + "i32I,c8,...)")) == "i32I(i32I,c8,...)";
    assert "" + ("i32I" + ("(" + "i32I,c8)")) == "i32I(i32I,c8)";
  }

  lemma FunctionAround(result: Term, call: Call)
    ensures Text(Term("", Function(result, call)), "") ==
      "" + Text(result, "(" + ArgumentsText(call.params, call.isVariadic, ")" + ""))
  {
    hide ArgumentsText;
    assert CallText(call, "") == "(" + ArgumentsText(call.params, call.isVariadic, ")" + "");
    assert NodeText(Function(result, call), "") == Text(result, CallText(call, ""));
  }

  lemma TwoArguments(isVariadic: bool, end: string)
    requires end == ")"
    ensures ArgumentsText([INT_TERM, CHAR_TERM], isVariadic, end) == if isVariadic then "i32I,c8,...)" else "i32I,c8)"
  {
    var params := [INT_TERM, CHAR_TERM];
    assert params[1..] == [CHAR_TERM] && [CHAR_TERM][1..] == [];
    var last := (if isVariadic then "..." else "") + end;
    assert ArgumentsText([], isVariadic, end) == last;
    var behind := if isVariadic then "," + last else last;
    ScalarsBefore(behind);
    assert ArgumentsText([CHAR_TERM], isVariadic, end) == Text(CHAR_TERM, behind);
    ScalarsBefore("," + ("c8" + behind));
    assert ArgumentsText(params, isVariadic, end) == Text(INT_TERM, "," + ("c8" + behind));
    hide *;
    assert isVariadic ==> "i32I" + ("," + ("c8" + ("," + ("..." + ")")))) == "i32I,c8,...)";
    assert !isVariadic ==> "i32I" + ("," + ("c8" + ("" + ")"))) == "i32I,c8)";
  }

  // A record: its tag unless it is anonymous, whether it is complete, and its members in order.
  lemma RecordSignatures(g: Table, id: TypeId)
    requires HasScalars(g) && Known(g, id) && id > 2
    ensures
      g.types[id] == RecordType(true, "packet", Some(RecordDecl(false, true, [MemberDecl("value", 0, false, 1, 16, Bare(1))]))) ==>
      Signature(g, Bare(id)) == Some("s{6:packet}[1:1|5:value:0u:m1:16:i32I]")
    ensures
      g.types[id] == RecordType(false, "packet", Some(RecordDecl(false, false, []))) ==>
      Signature(g, Bare(id)) == Some("u{6:packet}[0:0]")
    ensures g.types[id] == RecordType(true, "packet", None) ==> Signature(g, Bare(id)) == Some("s{6:packet}")
  {
    var value := MemberDecl("value", 0, false, 1, 16, Bare(1));
    assert [id] + [] == [id];
    NoLetters();
    ScalarTerms(g, [id]);
    if g.types[id] == RecordType(true, "packet", Some(RecordDecl(false, true, [value]))) {
      PacketIsBuilt(g, id);
    } else if g.types[id] == RecordType(false, "packet", Some(RecordDecl(false, false, []))) {
      IncompleteText();
      hide Text;
      Built(g, Bare(id), [], []);
      SignatureOf(g, Bare(id), Term("", Tagged(false, "packet", Some(Body(false, [])))), "u{6:packet}[0:0]");
    } else if g.types[id] == RecordType(true, "packet", None) {
      UndeclaredText();
      hide Text;
      Built(g, Bare(id), [], []);
      SignatureOf(g, Bare(id), Term("", Tagged(true, "packet", None)), "s{6:packet}");
    }
  }

  lemma PacketIsBuilt(g: Table, id: TypeId)
    requires HasScalars(g) && Known(g, id) && id > 2
    requires g.types[id] == RecordType(true, "packet", Some(RecordDecl(false, true, [MemberDecl("value", 0, false, 1, 16, Bare(1))])))
    ensures Signature(g, Bare(id)) == Some("s{6:packet}[1:1|5:value:0u:m1:16:i32I]")
  {
    var ms := [MemberDecl("value", 0, false, 1, 16, Bare(1))];
    var m := Member("value", 0, false, true, 16, INT_TERM);
    assert [id] + [] == [id] && ms[1..] == [];
    NoLetters();
    ScalarTerms(g, [id]);
    PacketText();
    hide Text;
    assert MemberTypes(ms) == [Bare(1)];
    assert Infos(ms) == [MemberInfo("value", 0, false, true, 16)];
    assert MemberNodes(Infos(ms), [INT_TERM]) == [m] by {
      assert MemberNodes(Infos(ms)[1..], [INT_TERM][1..]) == [];
    }
    Built(g, Bare(id), [], [INT_TERM]);
    SignatureOf(g, Bare(id), Term("", Tagged(true, "packet", Some(Body(true, [m])))), "s{6:packet}[1:1|5:value:0u:m1:16:i32I]");
  }

  lemma TaggedAround(isStruct: bool, shape: Option<Body>)
    ensures Text(Term("", Tagged(isStruct, "packet", shape)), "") ==
      (if isStruct then "s{" else "u{") + ("6" + (":" + ("packet" + ("}" + if shape.Some? then "[" + BodyText(shape.value, "]") else ""))))
  {
    Numerals();
    hide Decimal;
    assert "]" + "" == "]";
  }

  lemma UndeclaredText()
    ensures Text(Term("", Tagged(true, "packet", None)), "") == "s{6:packet}"
  {
    TaggedAround(true, None);
    hide Text;
    assert "s{" + ("6" + (":" + ("packet" + ("}" + "")))) == "s{6:packet}";
  }

  lemma IncompleteText()
    ensures Text(Term("", Tagged(false, "packet", Some(Body(false, [])))), "") == "u{6:packet}[0:0]"
  {
    TaggedAround(false, Some(Body(false, [])));
    hide Text;
    Numerals();
    hide Decimal;
    assert BodyText(Body(false, []), "]") == "0" + (":" + ("0" + "]"));
    hide *;
    assert "u{" + ("6" + (":" + ("packet" + ("}" + ("[" + ("0" + (":" + ("0" + "]")))))))) == "u{6:packet}[0:0]";
  }

  lemma PacketText()
    ensures Text(Term("", Tagged(true, "packet", Some(Body(true, [Member("value", 0, false, true, 16, INT_TERM)])))), "") ==
      "s{6:packet}[1:1|5:value:0u:m1:16:i32I]"
  {
    hide *;
    var m := Member("value", 0, false, true, 16, INT_TERM);
    TaggedAround(true, Some(Body(true, [m])));
    ValueText(m);
    OneMember(m, "]");
    Numerals();
    RecordGlue("|5:value:0u:m1:16:i32I]");
    assert "s{6:packet}[1:1" + "|5:value:0u:m1:16:i32I]" == "s{6:packet}[1:1|5:value:0u:m1:16:i32I]";
  }

  lemma OneMember(m: Member, rest: string)
    ensures BodyText(Body(true, [m]), rest) == "1" + (":" + (Decimal(1) + MemberText(m, rest)))
  {
    hide MemberText;
    hide Decimal;
    assert [m][1..] == [];
    assert MembersText([], rest) == rest;
    assert MembersText([m], rest) == MemberText(m, rest);
  }

  lemma RecordGlue(v: string)
    ensures "s{" + ("6" + (":" + ("packet" + ("}" + ("[" + ("1" + (":" + ("1" + v)))))))) == "s{6:packet}[1:1" + v
  {}

  lemma ValueText(m: Member)
    requires m == Member("value", 0, false, true, 16, INT_TERM)
    ensures MemberText(m, "]") == "|5:value:0u:m1:16:i32I]"
  {
    Numerals();
    hide Decimal;
    ScalarsBefore("]");
    hide Text;
    assert Signed(0) == "0";
    assert MemberText(m, "]") ==
      "|" + ("5" + (":" + ("value" + (":" + ("0" + ("u:" + ("m" + ("1" + (":" + ("16" + (":" + ("i32I" + "]"))))))))))));
    hide *;
    assert "|" + ("5" + (":" + ("value" + (":" + ("0" + ("u:" + ("m" + ("1" + (":" + ("16" + (":" + ("i32I" + "]")))))))))))) ==
      "|5:value:0u:m1:16:i32I]";
  }

  const BIT_FIELD := MemberDecl("a", 3, true, 0, 0, Bare(1))

  const LETTER := MemberDecl("b", 0, false, 0, 0, Bare(2))

  const BIT_MEMBER := Member("a", 3, true, false, 0, INT_TERM)

  const LETTER_MEMBER := Member("b", 0, false, false, 0, CHAR_TERM)

  // An anonymous union is told without its tag, and its members in their order.
  lemma AnonymousSignature(g: Table, id: TypeId, tag: string)
    requires HasScalars(g) && Known(g, id) && id > 2
    requires g.types[id] == RecordType(false, tag, Some(RecordDecl(true, true, [BIT_FIELD, LETTER])))
    ensures Signature(g, Bare(id)) == Some("u[1:2|1:a:3s:m0:0:i32I|1:b:0u:m0:0:c8]")
  {
    assert [id] + [] == [id];
    NoLetters();
    ScalarTerms(g, [id]);
    UnionMembers();
    hide MemberTypes;
    hide Infos;
    hide MemberNodes;
    hide Text;
    Built(g, Bare(id), [], [INT_TERM, CHAR_TERM]);
    UnionText();
    SignatureOf(g, Bare(id), Term("", Anonymous(false, Body(true, [BIT_MEMBER, LETTER_MEMBER]))),
      "u[1:2|1:a:3s:m0:0:i32I|1:b:0u:m0:0:c8]");
  }

  lemma UnionMembers()
    ensures MemberTypes([BIT_FIELD, LETTER]) == [Bare(1), Bare(2)]
    ensures IsWellFormedMember(BIT_FIELD) && IsWellFormedMember(LETTER)
    ensures
      |Infos([BIT_FIELD, LETTER])| == 2 &&
      MemberNodes(Infos([BIT_FIELD, LETTER]), [INT_TERM, CHAR_TERM]) == [BIT_MEMBER, LETTER_MEMBER]
  {
    var ms := [BIT_FIELD, LETTER];
    assert ms[1..] == [LETTER] && [LETTER][1..] == [];
    assert MemberTypes([LETTER]) == [Bare(2)];
    assert Infos([LETTER]) == [InfoOf(LETTER)];
    var infos, ts := Infos(ms), [INT_TERM, CHAR_TERM];
    assert infos == [InfoOf(BIT_FIELD), InfoOf(LETTER)];
    assert infos[1..] == [InfoOf(LETTER)] && ts[1..] == [CHAR_TERM];
    assert infos[1..][1..] == [] && ts[1..][1..] == [];
    assert MemberNodes(infos[1..], ts[1..]) == [LETTER_MEMBER];
  }

  lemma UnionText()
    ensures Text(Term("", Anonymous(false, Body(true, [BIT_MEMBER, LETTER_MEMBER]))), "") ==
      "u[1:2|1:a:3s:m0:0:i32I|1:b:0u:m0:0:c8]"
  {
    hide *;
    AnonymousAround([BIT_MEMBER, LETTER_MEMBER]);
    TwoMembers("]");
    LetterText("]");
    LetterEnds();
    BitFieldText("|1:b:0u:m0:0:c8]");
    BitFieldEnds();
    Numerals();
    AnonymousGlue("|1:a:3s:m0:0:i32I|1:b:0u:m0:0:c8]");
    UnionEnds();
  }

  lemma LetterEnds()
    ensures "|1:b:0u:m0:0:c8" + "]" == "|1:b:0u:m0:0:c8]"
  {}

  lemma BitFieldEnds()
    ensures "|1:a:3s:m0:0:i32I" + "|1:b:0u:m0:0:c8]" == "|1:a:3s:m0:0:i32I|1:b:0u:m0:0:c8]"
  {}

  lemma UnionEnds()
    ensures "u[1:2" + "|1:a:3s:m0:0:i32I|1:b:0u:m0:0:c8]" == "u[1:2|1:a:3s:m0:0:i32I|1:b:0u:m0:0:c8]"
  {}

  lemma AnonymousGlue(v: string)
    ensures "" + ("u[" + ("1" + (":" + ("2" + v)))) == "u[1:2" + v
  {}

  lemma AnonymousAround(ms: seq<Member>)
    ensures Text(Term("", Anonymous(false, Body(true, ms))), "") ==
      "" + ("u[" + ("1" + (":" + (Decimal(|ms|) + MembersText(ms, "]")))))
  {
    hide *;
    BodyAround(ms);
    AnonymousBody(Body(true, ms));
  }

  lemma AnonymousBody(body: Body)
    ensures Text(Term("", Anonymous(false, body)), "") == "" + ("u[" + BodyText(body, "]"))
  {
    hide BodyText;
    assert "]" + "" == "]";
  }

  lemma BodyAround(ms: seq<Member>)
    ensures BodyText(Body(true, ms), "]") == "1" + (":" + (Decimal(|ms|) + MembersText(ms, "]")))
  {
    hide MembersText;
    hide Decimal;
  }

  lemma TwoMembers(rest: string)
    ensures MembersText([BIT_MEMBER, LETTER_MEMBER], rest) == MemberText(BIT_MEMBER, MemberText(LETTER_MEMBER, rest))
  {
    hide MemberText;
    var ms := [BIT_MEMBER, LETTER_MEMBER];
    assert ms[1..] == [LETTER_MEMBER] && [LETTER_MEMBER][1..] == [];
    assert MembersText([], rest) == rest;
    assert MembersText([LETTER_MEMBER], rest) == MemberText(LETTER_MEMBER, rest);
  }

  lemma BitFieldText(rest: string)
    ensures MemberText(BIT_MEMBER, rest) == "|1:a:3s:m0:0:i32I" + rest
  {
    Numerals();
    hide Decimal;
    ScalarsBefore(rest);
    hide Text;
    assert Signed(3) == "3";
    hide *;
    assert "|" + ("1" + (":" + ("a" + (":" + ("3" + ("s:" + ("m" + ("0" + (":" + ("0" + (":" + ("i32I" + rest)))))))))))) ==
      "|1:a:3s:m0:0:i32I" + rest;
  }

  lemma LetterText(rest: string)
    ensures MemberText(LETTER_MEMBER, rest) == "|1:b:0u:m0:0:c8" + rest
  {
    Numerals();
    hide Decimal;
    ScalarsBefore(rest);
    hide Text;
    assert Signed(0) == "0";
    hide *;
    assert "|" + ("1" + (":" + ("b" + (":" + ("0" + ("u:" + ("m" + ("0" + (":" + ("0" + (":" + ("c8" + rest)))))))))))) ==
      "|1:b:0u:m0:0:c8" + rest;
  }

  const LINK := MemberDecl("value", 0, false, 0, 0, Bare(4))

  const LINK_MEMBER := Member("value", 0, false, false, 0, Term("", Pointer(Term("", LeafNode(Ref(1))))))

  // A list: the pointer in it names the record around it.
  lemma ListSignature(g: Table)
    requires g.layout == HOST && Known(g, 3) && Known(g, 4) && g.types[4] == PointerType(Bare(3))
    requires g.types[3] == RecordType(true, "packet", Some(RecordDecl(false, true, [LINK])))
    ensures Signature(g, Bare(3)) == Some("s{6:packet}[1:1|5:value:0u:m0:0:p<r1>]")
  {
    NoLetters();
    LinkMembers();
    LinkTerm(g);
    hide MemberTypes;
    hide Infos;
    hide MemberNodes;
    hide Text;
    assert [3] + [] == [3];
    Built(g, Bare(3), [], [LINK_MEMBER.term]);
    ListText();
    SignatureOf(g, Bare(3), Term("", Tagged(true, "packet", Some(Body(true, [LINK_MEMBER])))),
      "s{6:packet}[1:1|5:value:0u:m0:0:p<r1>]");
  }

  lemma LinkTerm(g: Table)
    requires Known(g, 3) && Known(g, 4) && g.types[4] == PointerType(Bare(3))
    ensures TermOf(g, Bare(4), [3]) == Some(LINK_MEMBER.term)
  {
    NoLetters();
    assert [4] + [3] == [4, 3] && [4, 3][1..] == [3];
    assert Distance([4, 3], 3) == 1;
    Built(g, Bare(4), [3], [Term("", LeafNode(Ref(1)))]);
  }

  lemma LinkMembers()
    ensures IsWellFormedMember(LINK) && MemberTypes([LINK]) == [Bare(4)] && |Infos([LINK])| == 1
    ensures MemberNodes(Infos([LINK]), [LINK_MEMBER.term]) == [LINK_MEMBER]
  {
    assert [LINK][1..] == [];
    assert Infos([LINK]) == [InfoOf(LINK)];
    assert MemberNodes(Infos([LINK])[1..], [LINK_MEMBER.term][1..]) == [];
  }

  lemma ListText()
    ensures Text(Term("", Tagged(true, "packet", Some(Body(true, [LINK_MEMBER])))), "") ==
      "s{6:packet}[1:1|5:value:0u:m0:0:p<r1>]"
  {
    hide *;
    TaggedAround(true, Some(Body(true, [LINK_MEMBER])));
    LinkText();
    OneMember(LINK_MEMBER, "]");
    Numerals();
    RecordGlue("|5:value:0u:m0:0:p<r1>]");
    assert "s{6:packet}[1:1" + "|5:value:0u:m0:0:p<r1>]" == "s{6:packet}[1:1|5:value:0u:m0:0:p<r1>]";
  }

  lemma LinkText()
    ensures MemberText(LINK_MEMBER, "]") == "|5:value:0u:m0:0:p<r1>]"
  {
    Numerals();
    hide Decimal;
    BackText("]");
    hide Text;
    assert Signed(0) == "0";
    hide *;
    assert "|" + ("5" + (":" + ("value" + (":" + ("0" + ("u:" + ("m" + ("0" + (":" + ("0" + (":" + ("p<r1>" + "]")))))))))))) ==
      "|5:value:0u:m0:0:p<r1>]";
  }

  lemma BackText(rest: string)
    ensures Text(LINK_MEMBER.term, rest) == "p<r1>" + rest
  {
    Numerals();
    hide Decimal;
    var ref := Term("", LeafNode(Ref(1)));
    assert Text(ref, ">" + rest) == "" + ("r" + ("1" + (">" + rest)));
    assert Text(Term("", Pointer(ref)), rest) == "" + ("p<" + Text(ref, ">" + rest));
    hide Text;
    assert "" + ("p<" + ("" + ("r" + ("1" + (">" + rest))))) == "p<r1>" + rest;
  }

  lemma AllLetters()
    ensures QualifierText(Qualifiers(true, true, true, true)) == "kVAR"
  {}
}
