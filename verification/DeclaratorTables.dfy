/**
 What a printed type tells of the table it was printed from: at every step down the bases pointer,
 array or function with what belongs to it, and the specifier at the end.
 */
module DeclaratorTables {
  import opened DeclaratorEdges
  import opened DeclaratorGrammar
  import opened DeclaratorReading
  import opened DeclaratorRefusals
  import opened DeclaratorWriter
  import opened Declarators
  import opened Options
  import opened TargetInfo
  import opened TypeGraph

  // ---------------------------------------------------------------- a C type and a table

  // `t` says of the use `q` what the table says; the qualifiers of arrays and functions, and the
  // sign of a plain char, are not spelled.
  ghost predicate Describes(t: CType, g: Table, q: QualType)
    decreases t, 1
  {
    Known(g, q.id) &&
    match t
    case Base(quals, spec) => quals == q.quals && SpecifierDescribes(spec, g.types[q.id])
    case PointerTo(quals, target) =>
      g.types[q.id].PointerType? && quals == q.quals && Describes(target, g, g.types[q.id].pointee)
    case ArrayOf(bound, element) =>
      && g.types[q.id].ArrayType?
      && BoundDescribes(bound, g.types[q.id].length, g.types[q.id].isVla)
      && Describes(element, g, g.types[q.id].element)
    case FunctionOf(params, result) =>
      && g.types[q.id].FunctionType?
      && ParametersDescribe(params, g, g.types[q.id].parameters, g.types[q.id].hasPrototype, g.types[q.id].isVariadic)
      && Describes(result, g, g.types[q.id].result)
  }

  predicate SpecifierDescribes(spec: Specifier, s: Shape) {
    match spec
    case VoidSpecifier => s.VoidType?
    case BoolSpecifier => s.BoolType?
    case EnumSpecifier(tag) => s.IntegerType? && s.kind == EnumKind && s.enumTag == tag
    case IntegerSpecifier(isUnsigned, word) =>
      s.IntegerType? && s.kind != EnumKind && s.isUnsigned == isUnsigned &&
      (match word
       case CharWord => s.kind == CharKind
       case ShortWord => s.kind == ShortKind
       case LongWord => s.kind == LongKind
       case LongLongWord => s.kind == LongLongKind
       case IntWord => s.kind in {IntKind, BoolKind, NoIntegerKind})
    case FloatingSpecifier(word, isComplex) =>
      s.FloatingType? && s.isComplex == isComplex &&
      (match word
       case FloatWord => s.floating == FloatKind
       case LongDoubleWord => s.floating == LongDoubleKind
       case DoubleWord => s.floating in {DoubleKind, NoFloatingKind})
    case RecordSpecifier(isStruct, tag) => s.RecordType? && s.isStruct == isStruct && s.tag == tag
  }

  predicate BoundDescribes(bound: Bound, length: CInt, isVla: bool) {
    match bound
    case Star => isVla
    case Fixed(n) => !isVla && n == length && length > 0
    case NoBound => !isVla && length <= 0
  }

  // Without parameters and ellipsis, the list says whether there is a prototype.
  ghost predicate ParametersDescribe(params: Parameters, g: Table, qs: seq<QualType>, hasPrototype: bool, isVariadic: bool)
    decreases params, 0
  {
    match params
    case Unspecified => qs == [] && !isVariadic && !hasPrototype
    case Listed(types, dots) =>
      && dots == isVariadic && (qs == [] && !isVariadic ==> hasPrototype)
      && |types| == |qs| && forall i :: 0 <= i < |qs| ==> Describes(types[i], g, qs[i])
  }

  // How deep parameters are nested in parameters.
  function Nesting(t: CType): nat {
    match t
    case Base(_, _) => 0
    case PointerTo(_, target) => Nesting(target)
    case ArrayOf(_, element) => Nesting(element)
    case FunctionOf(params, result) => Larger(if params.Listed? then NestingOfAll(params.types) else 0, Nesting(result))
  }

  function NestingOfAll(types: seq<CType>): nat {
    if types == [] then 0 else Larger(1 + Nesting(types[0]), NestingOfAll(types[1..]))
  }

  // ---------------------------------------------------------------- the type the printer prints

  lemma SpecifierIs(s: Shape, spec: Specifier)
    requires BaseOf(s).None?
    ensures SpecifierDescribes(spec, s) <==> spec == SpecifierOf(s)
  {}

  lemma BoundIs(length: CInt, isVla: bool, bound: Bound)
    ensures BoundDescribes(bound, length, isVla) <==> bound == BoundOf(length, isVla)
  {}

  // What is printed is the one type that describes the use, if it is not nested too deep.
  lemma {:induction false} TypeOfDescribes(g: Table, rank: TypeId -> nat, q: QualType, depth: nat, t: CType)
    requires Ranked(g, rank) && depth <= MAX_DEPTH
    ensures TypeOf(g, rank, q, depth) == Some(t) <==> Describes(t, g, q) && depth + Nesting(t) <= MAX_DEPTH
    decreases MAX_DEPTH + 1 - depth, 0, rank(q.id), 0
  {
    hide SpecifierDescribes;
    hide SpecifierOf;
    hide BoundDescribes;
    hide BoundOf;
    hide ParametersDescribe;
    hide ParametersOf;
    if Known(g, q.id) {
      if t.Base? {
        NoBase(t.spec, g.types[q.id]);
      }
      match g.types[q.id] {
        case PointerType(pointee) =>
          if t.PointerTo? {
            TypeOfDescribes(g, rank, pointee, depth, t.target);
          }
        case ArrayType(length, isVla, element) =>
          if t.ArrayOf? {
            TypeOfDescribes(g, rank, element, depth, t.element);
            BoundIs(length, isVla, t.bound);
          }
        case FunctionType(result, parameters, hasPrototype, isVariadic) =>
          if t.FunctionOf? {
            TypeOfDescribes(g, rank, result, depth, t.result);
            ParametersOfDescribe(g, rank, parameters, hasPrototype, isVariadic, depth, t.params);
          }
        case _ =>
          if t.Base? {
            SpecifierIs(g.types[q.id], t.spec);
          }
      }
    }
  }

  lemma {:induction false} ParametersOfDescribe(
    g: Table, rank: TypeId -> nat, qs: seq<QualType>, hasPrototype: bool, isVariadic: bool, depth: nat, params: Parameters)
    requires Ranked(g, rank) && depth <= MAX_DEPTH
    ensures ParametersOf(g, rank, qs, hasPrototype, isVariadic, depth + 1) == Some(params) <==>
      ParametersDescribe(params, g, qs, hasPrototype, isVariadic) &&
      (params.Listed? ==> depth + NestingOfAll(params.types) <= MAX_DEPTH)
    decreases MAX_DEPTH + 1 - depth - 1, 1, |qs|, 1
  {
    hide TypesOf;
    hide NestingOfAll;
    if params.Listed? {
      TypesOfDescribe(g, rank, qs, depth, params.types);
    }
  }

  lemma {:induction false} TypesOfDescribe(
    g: Table, rank: TypeId -> nat, qs: seq<QualType>, depth: nat, ts: seq<CType>)
    requires Ranked(g, rank) && depth <= MAX_DEPTH
    ensures TypesOf(g, rank, qs, depth + 1) == Some(ts) <==>
      |ts| == |qs| && (forall i :: 0 <= i < |qs| ==> Describes(ts[i], g, qs[i])) && depth + NestingOfAll(ts) <= MAX_DEPTH
    decreases MAX_DEPTH + 1 - depth - 1, 1, |qs|, 0
  {
    hide TypeOf;
    hide Describes;
    if qs != [] && ts != [] {
      if depth < MAX_DEPTH {
        TypeOfDescribes(g, rank, qs[0], depth + 1, ts[0]);
      } else {
        TooDeep(g, rank, qs[0], depth + 1);
      }
      TypesOfDescribe(g, rank, qs[1..], depth, ts[1..]);
      assert ts == [ts[0]] + ts[1..];
    }
  }

  lemma TooDeep(g: Table, rank: TypeId -> nat, q: QualType, depth: nat)
    requires Ranked(g, rank) && depth == MAX_DEPTH + 1
    ensures TypeOf(g, rank, q, depth) == None
  {}

  // ---------------------------------------------------------------- what the text tells

  // A use is formatted exactly when some type describes it that is nested at most 64 lists deep and
  // whose texts are not too long.
  lemma FormattedIff(g: Table, rank: TypeId -> nat, q: QualType, name: string)
    requires Ranked(g, rank)
    ensures Formatted(g, rank, q, 0, name).Some? <==> exists t :: Describes(t, g, q) && Nesting(t) <= 64 && TypeFits(t, name)
  {
    hide TypeFits;
    hide TypeOf;
    hide Describes;
    var t := TypeOf(g, rank, q, 0);
    if t.Some? {
      TypeOfDescribes(g, rank, q, 0, t.value);
    }
    forall u | Describes(u, g, q) && Nesting(u) <= 64 ensures t == Some(u) {
      TypeOfDescribes(g, rank, q, 0, u);
    }
  }

  // What is formatted is the text of every type that describes the use, and C reads it as that type
  // exactly when its tags are words, no atomic pointer in it stands in front of a parenthesis, and no
  // list has an ellipsis only.
  lemma FormattedTells(g: Table, rank: TypeId -> nat, q: QualType, name: string, t: CType)
    requires Ranked(g, rank) && IsName(name) && Formatted(g, rank, q, 0, name).Some? && Describes(t, g, q)
    ensures
      var s := Formatted(g, rank, q, 0, name).value;
      && s == TypeText(t, name)
      && (ReadType(true, s, name) == Some((AsC(t), "")) <==> Spelled(t) && Parses(t, NameEdge, name != ""))
  {
    hide TypeFits;
    hide TypeOf;
    hide TypeText;
    hide ReadType;
    hide Parses;
    hide Spelled;
    var u := TypeOf(g, rank, q, 0).value;
    TypeOfDescribes(g, rank, q, 0, u);
    DescribedOnce(t, u, g, q);
    FormattedReadsBack(g, rank, q, name);
  }

  // A table describes one type only.
  lemma {:induction false} DescribedOnce(t: CType, u: CType, g: Table, q: QualType)
    requires Describes(t, g, q) && Describes(u, g, q)
    ensures t == u
    decreases t
  {
    match t {
      case Base(_, spec) =>
        NoBase(spec, g.types[q.id]);
        SpecifierOnce(spec, u, g, q);
      case PointerTo(_, target) =>
        NoBaseAt(u, g, q);
        DescribedOnce(target, u.target, g, g.types[q.id].pointee);
      case ArrayOf(bound, element) =>
        NoBaseAt(u, g, q);
        BoundIs(g.types[q.id].length, g.types[q.id].isVla, bound);
        BoundIs(g.types[q.id].length, g.types[q.id].isVla, u.bound);
        DescribedOnce(element, u.element, g, g.types[q.id].element);
      case FunctionOf(params, result) =>
        NoBaseAt(u, g, q);
        DescribedOnce(result, u.result, g, g.types[q.id].result);
        if params.Listed? && u.params.Listed? {
          var types, qs := params.types, g.types[q.id].parameters;
          forall i | 0 <= i < |types| ensures types[i] == u.params.types[i] {
            DescribedOnce(types[i], u.params.types[i], g, qs[i]);
          }
          assert types == u.params.types;
        }
    }
  }

  lemma NoBase(spec: Specifier, s: Shape)
    ensures SpecifierDescribes(spec, s) ==> BaseOf(s).None?
  {}

  lemma NoBaseAt(u: CType, g: Table, q: QualType)
    requires Describes(u, g, q)
    ensures g.types[q.id].PointerType? <==> u.PointerTo?
    ensures g.types[q.id].ArrayType? <==> u.ArrayOf?
    ensures g.types[q.id].FunctionType? <==> u.FunctionOf?
  {}

  lemma SpecifierOnce(spec: Specifier, u: CType, g: Table, q: QualType)
    requires Describes(u, g, q) && SpecifierDescribes(spec, g.types[q.id]) && BaseOf(g.types[q.id]).None?
    ensures u == Base(q.quals, spec)
  {
    SpecifierIs(g.types[q.id], spec);
    if u.Base? {
      SpecifierIs(g.types[q.id], u.spec);
    }
  }

  // Two uses, of whatever tables, are formatted alike exactly when C takes what the tables say of them
  // for the same type.
  lemma FormattedAlikeIff(
    g: Table, rank: TypeId -> nat, p: QualType, t: CType, h: Table, sank: TypeId -> nat, q: QualType, u: CType, name: string)
    requires Ranked(g, rank) && Ranked(h, sank) && IsName(name) && Describes(t, g, p) && Describes(u, h, q)
    requires Formatted(g, rank, p, 0, name).Some? && Formatted(h, sank, q, 0, name).Some? && Spelled(t) && Spelled(u)
    ensures Formatted(g, rank, p, 0, name) == Formatted(h, sank, q, 0, name) <==> AsC(t) == AsC(u)
  {
    hide Formatted;
    hide TypeText;
    FormattedTells(g, rank, p, name, t);
    FormattedTells(h, sank, q, name, u);
    SameTextIffSameType(t, u, name);
  }
}
