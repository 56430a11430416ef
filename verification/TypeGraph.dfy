/**
 The table of semantic types as a graph, what the canonical signature says about a node of it, and
 what equal signatures mean.

 A table maps type ids to shapes; shapes refer to other types by id, so types may be cyclic.
 */
module TypeGraph {
  import opened Options
  import opened Decimals
  import opened Signatures
  import SignatureDecoding
  import opened TargetInfo

  // ---------------------------------------------------------------- the table

  datatype Qualifiers = Qualifiers(isConst: bool, isVolatile: bool, isAtomic: bool, isRestrict: bool)

  const UNQUALIFIED := Qualifiers(false, false, false, false)

  type TypeId = nat

  const INVALID_ID: TypeId := 0

  datatype QualType = QualType(id: TypeId, quals: Qualifiers)

  datatype IntegerKind =
    | NoIntegerKind | BoolKind | CharKind | ShortKind | IntKind | LongKind | LongLongKind | EnumKind

  datatype FloatingKind = NoFloatingKind | FloatKind | DoubleKind | LongDoubleKind

  datatype Shape =
    | VoidType
    | BoolType
    | IntegerType(kind: IntegerKind, isUnsigned: bool, isPlainChar: bool, enumTag: string)
    | FloatingType(floating: FloatingKind, isComplex: bool)
    | PointerType(pointee: QualType)
    | ArrayType(length: CInt, isVla: bool, element: QualType)
    | FunctionType(result: QualType, parameters: seq<QualType>, hasPrototype: bool, isVariadic: bool)
    | RecordType(isStruct: bool, tag: string, decl: Option<RecordDecl>)

  datatype RecordDecl = RecordDecl(isAnonymous: bool, isComplete: bool, members: seq<MemberDecl>)

  datatype MemberDecl = MemberDecl(
    name: string,
    bitWidth: CInt,
    bitIsSigned: bool,
    hasAlignmentSpecifier: CInt,
    requestedAlignment: CInt,
    memberType: QualType)

  datatype Table = Table(types: map<TypeId, Shape>, layout: DataLayout)

  predicate Known(g: Table, id: TypeId) {
    id != INVALID_ID && id in g.types
  }

  function BaseOf(s: Shape): Option<QualType> {
    match s
    case PointerType(pointee) => Some(pointee)
    case ArrayType(_, _, element) => Some(element)
    case FunctionType(result, _, _, _) => Some(result)
    case _ => None
  }

  // The chain of bases of every type ends: `rank` goes down along it.
  ghost predicate Ranked(g: Table, rank: TypeId -> nat) {
    forall id <- g.types :: BaseOf(g.types[id]).Some? ==> rank(BaseOf(g.types[id]).value.id) < rank(id)
  }

  // ---------------------------------------------------------------- what is printed about one type

  function QualifierText(q: Qualifiers): (s: string)
    ensures SignatureDecoding.AllQualifiers(s)
  {
    (if q.isConst then "k" else "") + (if q.isVolatile then "V" else "") +
    (if q.isAtomic then "A" else "") + (if q.isRestrict then "R" else "")
  }

  // The rank psx_integer_conversion_from_shape computes; 0 for a kind that is no integer.
  function Rank(kind: IntegerKind, isPlainChar: bool): nat {
    if isPlainChar then 1
    else
      match kind
      case CharKind => 1
      case ShortKind => 2
      case IntKind => 3
      case EnumKind => 3
      case LongKind => 4
      case LongLongKind => 5
      case _ => 0
  }

  function IntegerScalar(rank: nat): ScalarKind {
    if rank >= 5 then LongLongScalar
    else if rank == 4 then LongScalar
    else if rank == 2 then ShortScalar
    else if rank == 1 then CharScalar
    else IntScalar
  }

  // `(unsigned)(size * 8)`
  function Bits(size: nat): nat {
    size * 8 % 0x1_0000_0000
  }

  function IntegerBits(layout: DataLayout, kind: IntegerKind, isPlainChar: bool): (bits: nat)
    ensures bits <= 0xFFFF_FFFF
  {
    var rank := Rank(kind, isPlainChar);
    Bits(if rank == 0 then 0 else ScalarSize(layout, IntegerScalar(rank)))
  }

  function FloatingScalar(kind: FloatingKind, isComplex: bool): ScalarKind {
    if kind == LongDoubleKind then if isComplex then LongDoubleComplexScalar else LongDoubleScalar
    else if kind == FloatKind then if isComplex then FloatComplexScalar else FloatScalar
    else if isComplex then DoubleComplexScalar else DoubleScalar
  }

  const GENERATED_PREFIX := "__anon_tag_"

  predicate IsGeneratedTag(tag: string) {
    && |tag| > |GENERATED_PREFIX|
    && tag[..|GENERATED_PREFIX|] == GENERATED_PREFIX
    && forall i :: |GENERATED_PREFIX| <= i < |tag| ==> IsDigit(tag[i])
  }

  function IntegerLeaf(layout: DataLayout, kind: IntegerKind, isUnsigned: bool, isPlainChar: bool,
      enumTag: string): Leaf {
    var bits := IntegerBits(layout, kind, isPlainChar);
    if kind == EnumKind then
      if IsGeneratedTag(enumTag) then AnonymousEnum(isUnsigned, bits) else TaggedEnum(enumTag, isUnsigned, bits)
    else if isPlainChar then PlainChar(bits)
    else if kind == LongLongKind then LongLong(isUnsigned, bits)
    else if kind == LongKind then Long(isUnsigned, bits)
    else
      Integer(isUnsigned, bits,
        match kind case CharKind => CharSuffix case ShortKind => ShortSuffix case IntKind => IntSuffix case _ => NoSuffix)
  }

  // What is said about a member besides its type.
  datatype MemberInfo = MemberInfo(name: string, bitWidth: int, bitIsSigned: bool, isAligned: bool, alignment: nat)

  predicate IsWellFormedMember(m: MemberDecl) {
    && m.hasAlignmentSpecifier in {0, 1}
    && m.requestedAlignment >= 0
    && (m.hasAlignmentSpecifier == 0 ==> m.requestedAlignment == 0)
  }

  function InfoOf(m: MemberDecl): MemberInfo
    requires IsWellFormedMember(m)
  {
    MemberInfo(m.name, m.bitWidth, m.bitIsSigned, m.hasAlignmentSpecifier == 1, m.requestedAlignment)
  }

  function Infos(ms: seq<MemberDecl>): (infos: seq<MemberInfo>)
    requires forall m <- ms :: IsWellFormedMember(m)
    ensures |infos| == |ms|
  {
    if ms == [] then [] else [InfoOf(ms[0])] + Infos(ms[1..])
  }

  function MemberTypes(ms: seq<MemberDecl>): (qs: seq<QualType>)
    ensures |qs| == |ms|
  {
    if ms == [] then [] else [ms[0].memberType] + MemberTypes(ms[1..])
  }

  datatype BodyInfo = BodyInfo(isComplete: bool, members: seq<MemberInfo>)

  // Everything a signature prints about a type besides the types it refers to. What is not here
  // is erased: the prototype flag, whether an array is a VLA, the tag of an anonymous record or of
  // an anonymous enumeration.
  datatype Label =
    | LeafLabel(leaf: Leaf)
    | PointerLabel
    | ArrayLabel(length: nat)
    | FunctionLabel(isVariadic: bool)
    | AnonymousLabel(isStruct: bool, info: BodyInfo)
    | TaggedLabel(isStruct: bool, tag: string, shape: Option<BodyInfo>)

  // The writer gives up on the other shapes.
  predicate IsPrintable(s: Shape) {
    match s
    case FloatingType(floating, _) => floating != NoFloatingKind
    case RecordType(_, _, decl) => decl.Some? ==> forall m <- decl.value.members :: IsWellFormedMember(m)
    case _ => true
  }

  function LabelOf(layout: DataLayout, s: Shape): (l: Label)
    requires IsPrintable(s)
    ensures l.LeafLabel? ==> !l.leaf.Ref?
  {
    match s
    case VoidType => LeafLabel(Void)
    case BoolType => LeafLabel(Bool)
    case IntegerType(kind, isUnsigned, isPlainChar, enumTag) =>
      LeafLabel(IntegerLeaf(layout, kind, isUnsigned, isPlainChar, enumTag))
    case FloatingType(floating, isComplex) =>
      var bits := Bits(ScalarSize(layout, FloatingScalar(floating, isComplex)));
      LeafLabel(Floating(isComplex, bits, match floating case FloatKind => FloatF case DoubleKind => FloatD case _ => FloatL))
    case PointerType(_) => PointerLabel
    case ArrayType(length, _, _) => ArrayLabel(if length > 0 then length else 0)
    case FunctionType(_, _, _, isVariadic) => FunctionLabel(isVariadic)
    case RecordType(isStruct, tag, decl) =>
      if decl.None? then TaggedLabel(isStruct, tag, None)
      else
        var info := BodyInfo(decl.value.isComplete, Infos(decl.value.members));
        if decl.value.isAnonymous then AnonymousLabel(isStruct, info) else TaggedLabel(isStruct, tag, Some(info))
  }

  // The types a shape refers to, in the order they are printed.
  function ChildrenOf(s: Shape): seq<QualType> {
    match s
    case PointerType(pointee) => [pointee]
    case ArrayType(_, _, element) => [element]
    case FunctionType(result, parameters, _, _) => [result] + parameters
    case RecordType(_, _, decl) => if decl.Some? then MemberTypes(decl.value.members) else []
    case _ => []
  }

  predicate Fits(l: Label, n: nat) {
    match l
    case LeafLabel(_) => n == 0
    case PointerLabel => n == 1
    case ArrayLabel(_) => n == 1
    case FunctionLabel(_) => n >= 1
    case AnonymousLabel(_, info) => n == |info.members|
    case TaggedLabel(_, _, shape) => n == if shape.Some? then |shape.value.members| else 0
  }

  lemma LabelFits(layout: DataLayout, s: Shape)
    requires IsPrintable(s)
    ensures Fits(LabelOf(layout, s), |ChildrenOf(s)|)
  {}

  // ---------------------------------------------------------------- nodes from labels

  function MemberNode(info: MemberInfo, t: Term): Member {
    Member(info.name, info.bitWidth, info.bitIsSigned, info.isAligned, info.alignment, t)
  }

  function MemberNodes(infos: seq<MemberInfo>, ts: seq<Term>): (ms: seq<Member>)
    requires |infos| == |ts|
    ensures |ms| == |ts|
  {
    if ts == [] then [] else [MemberNode(infos[0], ts[0])] + MemberNodes(infos[1..], ts[1..])
  }

  function Build(l: Label, ts: seq<Term>): Node
    requires Fits(l, |ts|)
  {
    match l
    case LeafLabel(leaf) => LeafNode(leaf)
    case PointerLabel => Pointer(ts[0])
    case ArrayLabel(length) => Array(length, ts[0])
    case FunctionLabel(isVariadic) => Function(ts[0], Call(ts[1..], isVariadic))
    case AnonymousLabel(isStruct, info) => Anonymous(isStruct, Body(info.isComplete, MemberNodes(info.members, ts)))
    case TaggedLabel(isStruct, tag, shape) =>
      Tagged(isStruct, tag, if shape.Some? then Some(Body(shape.value.isComplete, MemberNodes(shape.value.members, ts))) else None)
  }

  lemma {:induction false} MemberNodesInjective(infos: seq<MemberInfo>, jnfos: seq<MemberInfo>, ts: seq<Term>,
      us: seq<Term>)
    requires |infos| == |ts| && |jnfos| == |us|
    requires MemberNodes(infos, ts) == MemberNodes(jnfos, us)
    ensures infos == jnfos && ts == us
  {
    if ts != [] {
      var x, y := MemberNodes(infos, ts), MemberNodes(jnfos, us);
      assert x[0] == y[0] && x[1..] == y[1..];
      assert x[1..] == MemberNodes(infos[1..], ts[1..]) && y[1..] == MemberNodes(jnfos[1..], us[1..]);
      MemberNodesInjective(infos[1..], jnfos[1..], ts[1..], us[1..]);
      assert infos == [infos[0]] + infos[1..] && ts == [ts[0]] + ts[1..];
      assert jnfos == [jnfos[0]] + jnfos[1..] && us == [us[0]] + us[1..];
    }
  }

  // A node tells its label and its children.
  lemma BuildInjective(l: Label, m: Label, ts: seq<Term>, us: seq<Term>)
    requires Fits(l, |ts|) && Fits(m, |us|) && Build(l, ts) == Build(m, us)
    ensures l == m && ts == us
  {
    match l {
      case FunctionLabel(_) => assert ts == [ts[0]] + ts[1..] && us == [us[0]] + us[1..];
      case AnonymousLabel(_, info) => MemberNodesInjective(info.members, m.info.members, ts, us);
      case TaggedLabel(_, _, shape) =>
        if shape.Some? {
          MemberNodesInjective(shape.value.members, m.shape.value.members, ts, us);
        }
      case _ =>
    }
  }

  // ---------------------------------------------------------------- the term of a type

  // path_distance: how far up the path a type is, -1 if it is not on it.
  function Distance(path: seq<TypeId>, id: TypeId): (d: int)
    ensures d < 0 <==> id !in path
    ensures d >= 0 ==> d < |path| && path[d] == id && id !in path[..d]
  {
    if path == [] then -1
    else if path[0] == id then 0
    else
      var d := Distance(path[1..], id);
      if d < 0 then -1 else d + 1
  }

  // The types not yet on the path; every descent takes one away, whatever the cycles.
  ghost function Unvisited(g: Table, path: seq<TypeId>): set<TypeId> {
    g.types.Keys - (set id | id in path)
  }

  function TermOf(g: Table, q: QualType, path: seq<TypeId>): Option<Term>
    decreases Unvisited(g, path), 1, 0
  {
    if !Known(g, q.id) then None
    else if Distance(path, q.id) >= 0 then
      Some(Term(QualifierText(q.quals), LeafNode(Ref(Distance(path, q.id)))))
    else
      var node := NodeOf(g, q.id, path);
      if node.None? then None else Some(Term(QualifierText(q.quals), node.value))
  }

  function NodeOf(g: Table, id: TypeId, path: seq<TypeId>): Option<Node>
    requires Known(g, id) && id !in path
    decreases Unvisited(g, path), 0, 0
  {
    var shape := g.types[id];
    if !IsPrintable(shape) then None
    else
      assert id in Unvisited(g, path) && id !in Unvisited(g, [id] + path);
      assert Unvisited(g, [id] + path) <= Unvisited(g, path);
      var ts := TermsOf(g, ChildrenOf(shape), [id] + path);
      LabelFits(g.layout, shape);
      if ts.None? then None else Some(Build(LabelOf(g.layout, shape), ts.value))
  }

  function TermsOf(g: Table, qs: seq<QualType>, path: seq<TypeId>): (ts: Option<seq<Term>>)
    ensures ts.Some? ==> |ts.value| == |qs|
    decreases Unvisited(g, path), 2, |qs|
  {
    if qs == [] then Some([])
    else
      var first := TermOf(g, qs[0], path);
      var rest := TermsOf(g, qs[1..], path);
      if first.None? || rest.None? then None else Some([first.value] + rest.value)
  }

  // The signature of a type, None where the formatter fails for another reason than size.
  function Signature(g: Table, q: QualType): Option<string> {
    var t := TermOf(g, q, []);
    if t.None? then None else Some(Text(t.value, ""))
  }

  lemma {:induction false} TermsOfAt(g: Table, qs: seq<QualType>, path: seq<TypeId>, i: nat)
    requires i < |qs| && TermsOf(g, qs, path).Some?
    ensures TermOf(g, qs[i], path) == Some(TermsOf(g, qs, path).value[i])
  {
    if i > 0 {
      TermsOfAt(g, qs[1..], path, i - 1);
    }
  }
}
