/**
 What a signature tells of a type besides the types it refers to: every field of its shape but the
 prototype flag, whether an array is a VLA, and the tags of anonymous records and enumerations.
 */
module Faces {
  import opened Options
  import opened Signatures
  import opened TargetInfo
  import opened TypeGraph

  // The fields that are told.
  datatype Face =
    | VoidFace
    | BoolFace
    | PlainCharFace(bits: nat)
    | IntegerFace(kind: IntegerKind, isUnsigned: bool, bits: nat)
    | EnumFace(enumTag: Option<string>, isUnsigned: bool, bits: nat)
    | FloatingFace(floating: FloatingKind, isComplex: bool, bits: nat)
    | PointerFace
    | ArrayFace(length: nat)
    | FunctionFace(isVariadic: bool)
    | RecordFace(isStruct: bool, tag: Option<string>, body: Option<BodyFace>)

  datatype BodyFace = BodyFace(isComplete: bool, members: seq<MemberDecl>)

  const NO_TYPE := QualType(INVALID_ID, UNQUALIFIED)

  // A member apart from its type.
  function MemberFaces(ms: seq<MemberDecl>): (fs: seq<MemberDecl>)
    ensures |fs| == |ms| && forall i :: 0 <= i < |ms| ==> fs[i] == ms[i].(memberType := NO_TYPE)
  {
    seq(|ms|, i requires 0 <= i < |ms| => ms[i].(memberType := NO_TYPE))
  }

  // The width the target gives a scalar, as an `unsigned`.
  function WidthOf(layout: DataLayout, scalar: ScalarKind): nat {
    8 * ScalarSize(layout, scalar) % 0x1_0000_0000
  }

  // A kind that is none of these is no integer, and has no width.
  function IntegerFaceOf(layout: DataLayout, kind: IntegerKind, isUnsigned: bool): Face {
    match kind
    case CharKind => IntegerFace(kind, isUnsigned, WidthOf(layout, CharScalar))
    case ShortKind => IntegerFace(kind, isUnsigned, WidthOf(layout, ShortScalar))
    case IntKind => IntegerFace(kind, isUnsigned, WidthOf(layout, IntScalar))
    case LongKind => IntegerFace(kind, isUnsigned, WidthOf(layout, LongScalar))
    case LongLongKind => IntegerFace(kind, isUnsigned, WidthOf(layout, LongLongScalar))
    case _ => IntegerFace(NoIntegerKind, isUnsigned, 0)
  }

  function FloatingFaceOf(layout: DataLayout, kind: FloatingKind, isComplex: bool): Face {
    match kind
    case FloatKind => FloatingFace(kind, isComplex, WidthOf(layout, if isComplex then FloatComplexScalar else FloatScalar))
    case DoubleKind => FloatingFace(kind, isComplex, WidthOf(layout, if isComplex then DoubleComplexScalar else DoubleScalar))
    case LongDoubleKind =>
      FloatingFace(kind, isComplex, WidthOf(layout, if isComplex then LongDoubleComplexScalar else LongDoubleScalar))
    case NoFloatingKind => FloatingFace(kind, isComplex, 0)
  }

  function FaceOf(layout: DataLayout, s: Shape): Face {
    match s
    case VoidType => VoidFace
    case BoolType => BoolFace
    case IntegerType(EnumKind, isUnsigned, isPlainChar, tag) =>
      EnumFace(if IsGeneratedTag(tag) then None else Some(tag), isUnsigned,
        WidthOf(layout, if isPlainChar then CharScalar else IntScalar))
    case IntegerType(kind, isUnsigned, isPlainChar, _) =>
      if isPlainChar then PlainCharFace(WidthOf(layout, CharScalar)) else IntegerFaceOf(layout, kind, isUnsigned)
    case FloatingType(floating, isComplex) => FloatingFaceOf(layout, floating, isComplex)
    case PointerType(_) => PointerFace
    case ArrayType(length, _, _) => ArrayFace(if length > 0 then length else 0)
    case FunctionType(_, _, _, isVariadic) => FunctionFace(isVariadic)
    case RecordType(isStruct, tag, None) => RecordFace(isStruct, Some(tag), None)
    case RecordType(isStruct, tag, Some(decl)) =>
      RecordFace(isStruct, if decl.isAnonymous then None else Some(tag),
        Some(BodyFace(decl.isComplete, MemberFaces(decl.members))))
  }

  // ---------------------------------------------------------------- faces and fields

  // Two shapes that differ in nothing a signature tells.
  predicate Agree(layout: DataLayout, s: Shape, t: Shape) {
    match (s, t)
    case (VoidType, VoidType) => true
    case (BoolType, BoolType) => true
    case (IntegerType(_, _, _, _), IntegerType(_, _, _, _)) => IntegersAgree(layout, s, t)
    case (FloatingType(k, c), FloatingType(l, d)) => k == l && c == d
    case (PointerType(_), PointerType(_)) => true
    case (ArrayType(m, _, _), ArrayType(n, _, _)) => m == n || (m <= 0 && n <= 0)
    case (FunctionType(_, _, _, v), FunctionType(_, _, _, w)) => v == w
    case (RecordType(a, x, d), RecordType(b, y, e)) =>
      a == b && d.Some? == e.Some? &&
      if d.None? then x == y
      else
        && d.value.isAnonymous == e.value.isAnonymous
        && (d.value.isAnonymous || x == y)
        && d.value.isComplete == e.value.isComplete
        && MembersAgree(d.value.members, e.value.members)
    case _ => false
  }

  predicate IntegersAgree(layout: DataLayout, s: Shape, t: Shape)
    requires s.IntegerType? && t.IntegerType?
  {
    if s.kind == EnumKind || t.kind == EnumKind then
      && s.kind == t.kind && s.isUnsigned == t.isUnsigned
      && (s.enumTag == t.enumTag || (IsGeneratedTag(s.enumTag) && IsGeneratedTag(t.enumTag)))
      && (s.isPlainChar == t.isPlainChar || WidthOf(layout, CharScalar) == WidthOf(layout, IntScalar))
    else if s.isPlainChar || t.isPlainChar then s.isPlainChar && t.isPlainChar
    else
      s.isUnsigned == t.isUnsigned &&
      (s.kind == t.kind || (s.kind in {NoIntegerKind, BoolKind} && t.kind in {NoIntegerKind, BoolKind}))
  }

  predicate MembersAgree(ms: seq<MemberDecl>, ns: seq<MemberDecl>) {
    |ms| == |ns| && forall i :: 0 <= i < |ms| ==>
      && ms[i].name == ns[i].name
      && ms[i].bitWidth == ns[i].bitWidth
      && ms[i].bitIsSigned == ns[i].bitIsSigned
      && ms[i].hasAlignmentSpecifier == ns[i].hasAlignmentSpecifier
      && ms[i].requestedAlignment == ns[i].requestedAlignment
  }

  lemma MemberFacesAgreeIff(ms: seq<MemberDecl>, ns: seq<MemberDecl>)
    ensures MemberFaces(ms) == MemberFaces(ns) <==> MembersAgree(ms, ns)
  {
    if MemberFaces(ms) == MemberFaces(ns) {
      forall i | 0 <= i < |ms| ensures ms[i].(memberType := NO_TYPE) == ns[i].(memberType := NO_TYPE) {
        assert MemberFaces(ms)[i] == MemberFaces(ns)[i];
      }
    }
  }

  lemma FacesAgreeIff(layout: DataLayout, s: Shape, t: Shape)
    ensures FaceOf(layout, s) == FaceOf(layout, t) <==> Agree(layout, s, t)
  {
    hide WidthOf;
    hide IsGeneratedTag;
    if s.RecordType? && t.RecordType? && s.decl.Some? && t.decl.Some? {
      hide MembersAgree;
      MemberFacesAgreeIff(s.decl.value.members, t.decl.value.members);
    }
  }

  // ---------------------------------------------------------------- faces and what is printed

  lemma {:induction false} InfosAgreeIff(ms: seq<MemberDecl>, ns: seq<MemberDecl>)
    requires (forall m <- ms :: IsWellFormedMember(m)) && forall n <- ns :: IsWellFormedMember(n)
    ensures Infos(ms) == Infos(ns) <==> MembersAgree(ms, ns)
  {
    if ms != [] && ns != [] {
      InfosAgreeIff(ms[1..], ns[1..]);
      assert Infos(ms)[0] == InfoOf(ms[0]) && Infos(ms)[1..] == Infos(ms[1..]);
      assert Infos(ns)[0] == InfoOf(ns[0]) && Infos(ns)[1..] == Infos(ns[1..]);
      assert IsWellFormedMember(ms[0]) && IsWellFormedMember(ns[0]);
      if Infos(ms) == Infos(ns) {
        assert forall i :: 0 < i < |ms| ==> ms[i] == ms[1..][i - 1] && ns[i] == ns[1..][i - 1];
      }
    }
  }

  lemma WidthsAreBits(layout: DataLayout)
    ensures forall scalar :: WidthOf(layout, scalar) == Bits(ScalarSize(layout, scalar))
    ensures Bits(0) == 0
  {}

  // What is printed about a shape, whatever the targets, is the same exactly for shapes with the
  // same face.
  lemma LabelsAgreeIff(g: DataLayout, s: Shape, h: DataLayout, t: Shape)
    requires IsPrintable(s) && IsPrintable(t)
    ensures LabelOf(g, s) == LabelOf(h, t) <==> FaceOf(g, s) == FaceOf(h, t)
  {
    if s.IntegerType? && t.IntegerType? {
      IntegersPrintAlikeIff(g, s, h, t);
    } else if s.FloatingType? && t.FloatingType? {
      FloatsPrintAlikeIff(g, s, h, t);
    } else if s.RecordType? && t.RecordType? {
      RecordsPrintAlikeIff(g, s, h, t);
    } else {
      OthersPrintAlikeIff(g, s, h, t);
    }
  }

  lemma OthersPrintAlikeIff(g: DataLayout, s: Shape, h: DataLayout, t: Shape)
    requires IsPrintable(s) && IsPrintable(t)
    requires !(s.IntegerType? && t.IntegerType?) && !(s.FloatingType? && t.FloatingType?) && !(s.RecordType? && t.RecordType?)
    ensures LabelOf(g, s) == LabelOf(h, t) <==> FaceOf(g, s) == FaceOf(h, t)
  {
    hide Infos;
    hide MemberFaces;
    hide Bits;
    hide WidthOf;
    hide ScalarSize;
    hide IsGeneratedTag;
    hide IntegerBits;
  }

  lemma RecordsPrintAlikeIff(g: DataLayout, s: Shape, h: DataLayout, t: Shape)
    requires IsPrintable(s) && IsPrintable(t) && s.RecordType? && t.RecordType?
    ensures LabelOf(g, s) == LabelOf(h, t) <==> FaceOf(g, s) == FaceOf(h, t)
  {
    hide MembersAgree;
    hide Infos;
    hide MemberFaces;
    if s.decl.Some? && t.decl.Some? {
      MemberFacesAgreeIff(s.decl.value.members, t.decl.value.members);
      InfosAgreeIff(s.decl.value.members, t.decl.value.members);
    }
  }

  lemma FloatsPrintAlikeIff(g: DataLayout, s: Shape, h: DataLayout, t: Shape)
    requires IsPrintable(s) && IsPrintable(t) && s.FloatingType? && t.FloatingType?
    ensures LabelOf(g, s) == LabelOf(h, t) <==> FaceOf(g, s) == FaceOf(h, t)
  {
    hide WidthOf;
    hide Bits;
    hide ScalarSize;
    WidthsAreBits(g);
    WidthsAreBits(h);
  }

  lemma IntegersPrintAlikeIff(g: DataLayout, s: Shape, h: DataLayout, t: Shape)
    requires s.IntegerType? && t.IntegerType?
    ensures LabelOf(g, s) == LabelOf(h, t) <==> FaceOf(g, s) == FaceOf(h, t)
  {
    hide WidthOf;
    hide Bits;
    hide ScalarSize;
    hide IsGeneratedTag;
    WidthsAreBits(g);
    WidthsAreBits(h);
  }

  // For tables with one target: the same is printed exactly for shapes that differ in nothing told.
  lemma ShapesPrintAlikeIff(layout: DataLayout, s: Shape, t: Shape)
    requires IsPrintable(s) && IsPrintable(t)
    ensures LabelOf(layout, s) == LabelOf(layout, t) <==> Agree(layout, s, t)
  {
    hide LabelOf;
    hide FaceOf;
    hide Agree;
    LabelsAgreeIff(layout, s, layout, t);
    FacesAgreeIff(layout, s, t);
  }

  // A generated tag is the prefix with a number behind it.
  lemma GeneratedTags(tag: string)
    ensures IsGeneratedTag(tag) <==>
      exists digits: string ::
        digits != "" && (forall i :: 0 <= i < |digits| ==> '0' <= digits[i] <= '9') && tag == "__anon_tag_" + digits
  {
    var n := |GENERATED_PREFIX|;
    if IsGeneratedTag(tag) {
      var digits := tag[n..];
      assert tag == "__anon_tag_" + digits;
      assert forall i :: 0 <= i < |digits| ==> digits[i] == tag[n + i];
    }
    if digits: string :| digits != "" && (forall i :: 0 <= i < |digits| ==> '0' <= digits[i] <= '9') && tag == "__anon_tag_" + digits {
      assert tag[..n] == "__anon_tag_" && forall i :: n <= i < |tag| ==> tag[i] == digits[i - n];
    }
  }
}
