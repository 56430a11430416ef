/**
 C type names and the declarators that spell them (section 6.7.6 of C11).

 A type is printed inside out: the printer keeps a declarator with a hole '@' in it and wraps
 pointers, arrays and parameter lists around the hole while it walks from the type to its base.
 The declarator it ends with declares exactly the type it started from.
 */
module Declarators {
  import opened Decimals
  import opened TypeGraph

  // ---------------------------------------------------------------- types as C spells them

  datatype Specifier =
    | VoidSpecifier
    | BoolSpecifier
    | EnumSpecifier(tag: string)
    | IntegerSpecifier(isUnsigned: bool, kind: IntegerSpelling)
    | FloatingSpecifier(floating: FloatingSpelling, isComplex: bool)
    | RecordSpecifier(isStruct: bool, tag: string)

  datatype IntegerSpelling = CharWord | ShortWord | IntWord | LongWord | LongLongWord

  datatype FloatingSpelling = FloatWord | DoubleWord | LongDoubleWord

  datatype Bound = NoBound | Star | Fixed(size: nat)

  // A parameter list: none at all, or the types with or without an ellipsis.
  datatype Parameters = Unspecified | Listed(types: seq<CType>, isVariadic: bool)

  datatype CType =
    | Base(quals: Qualifiers, spec: Specifier)
    | PointerTo(quals: Qualifiers, target: CType)
    | ArrayOf(bound: Bound, element: CType)
    | FunctionOf(params: Parameters, result: CType)

  // ---------------------------------------------------------------- declarators

  datatype Suffix = ArraySuffix(bound: Bound) | CallSuffix(params: Parameters)

  datatype Declarator =
    | Hole
    | Group(inner: Declarator)
    | Pointing(quals: Qualifiers, inner: Declarator)
    | Suffixed(direct: Declarator, suffix: Suffix)

  // What a suffix is applied to is a direct declarator.
  predicate IsWellFormed(d: Declarator) {
    match d
    case Hole => true
    case Group(inner) => IsWellFormed(inner)
    case Pointing(_, inner) => IsWellFormed(inner)
    case Suffixed(direct, _) => !direct.Pointing? && IsWellFormed(direct)
  }

  function Apply(suffix: Suffix, t: CType): CType {
    match suffix
    case ArraySuffix(bound) => ArrayOf(bound, t)
    case CallSuffix(params) => FunctionOf(params, t)
  }

  // The type a declaration `t d` gives to what stands in the hole (sections 6.7.6.1 to 6.7.6.3 of
  // C11).
  function Meaning(d: Declarator, t: CType): CType {
    match d
    case Hole => t
    case Group(inner) => Meaning(inner, t)
    case Pointing(quals, inner) => Meaning(inner, PointerTo(quals, t))
    case Suffixed(direct, suffix) => Meaning(direct, Apply(suffix, t))
  }

  // ---------------------------------------------------------------- the printer

  // Parentheses go around a declarator that starts with a pointer, and only there.
  function Wrap(d: Declarator): Declarator {
    if d.Pointing? then Group(d) else d
  }

  // The printer's walk: the declarator around `d` and the base it ends at.
  function Declare(t: CType, d: Declarator): (Declarator, CType) {
    match t
    case Base(_, _) => (d, t)
    case PointerTo(quals, target) => Declare(target, Pointing(quals, d))
    case ArrayOf(bound, element) => Declare(element, Suffixed(Wrap(d), ArraySuffix(bound)))
    case FunctionOf(params, result) => Declare(result, Suffixed(Wrap(d), CallSuffix(params)))
  }

  // The walk keeps what is declared.
  lemma {:induction false} DeclareKeepsMeaning(t: CType, d: Declarator)
    requires IsWellFormed(d)
    ensures Declare(t, d).1.Base? && IsWellFormed(Declare(t, d).0)
    ensures Meaning(Declare(t, d).0, Declare(t, d).1) == Meaning(d, t)
    decreases t
  {
    match t {
      case Base(_, _) =>
      case PointerTo(quals, target) => DeclareKeepsMeaning(target, Pointing(quals, d));
      case ArrayOf(bound, element) => DeclareKeepsMeaning(element, Suffixed(Wrap(d), ArraySuffix(bound)));
      case FunctionOf(params, result) => DeclareKeepsMeaning(result, Suffixed(Wrap(d), CallSuffix(params)));
    }
  }

  // The finished declarator, applied to the base type, denotes the type that was printed.
  lemma PrintedDeclaratorDenotes(t: CType)
    ensures IsWellFormed(Declare(t, Hole).0) && Declare(t, Hole).1.Base?
    ensures Meaning(Declare(t, Hole).0, Declare(t, Hole).1) == t
  {
    DeclareKeepsMeaning(t, Hole);
  }

  // No parentheses but the needed ones.
  predicate IsMinimal(d: Declarator) {
    match d
    case Hole => true
    case Group(inner) => inner.Pointing? && IsMinimal(inner)
    case Pointing(_, inner) => !inner.Group? && IsMinimal(inner)
    case Suffixed(direct, _) => !direct.Pointing? && IsMinimal(direct)
  }

  lemma {:induction false} MinimalIsWellFormed(d: Declarator)
    requires IsMinimal(d)
    ensures IsWellFormed(d)
  {
    match d {
      case Hole =>
      case Group(inner) => MinimalIsWellFormed(inner);
      case Pointing(_, inner) => MinimalIsWellFormed(inner);
      case Suffixed(direct, _) => MinimalIsWellFormed(direct);
    }
  }

  lemma {:induction false} DeclareIsMinimal(t: CType, d: Declarator)
    requires IsMinimal(d) && !d.Group?
    ensures IsMinimal(Declare(t, d).0) && !Declare(t, d).0.Group?
    decreases t
  {
    match t {
      case Base(_, _) =>
      case PointerTo(quals, target) => DeclareIsMinimal(target, Pointing(quals, d));
      case ArrayOf(bound, element) => DeclareIsMinimal(element, Suffixed(Wrap(d), ArraySuffix(bound)));
      case FunctionOf(params, result) => DeclareIsMinimal(result, Suffixed(Wrap(d), CallSuffix(params)));
    }
  }

  // ---------------------------------------------------------------- text

  predicate AnyQualifier(q: Qualifiers) {
    q != UNQUALIFIED
  }

  function LeadingQualifiers(q: Qualifiers): string {
    (if q.isConst then "const " else "") + ((if q.isVolatile then "volatile " else "") +
    ((if q.isAtomic then "_Atomic " else "") + (if q.isRestrict then "restrict " else "")))
  }

  function PointerQualifiers(q: Qualifiers): string {
    (if q.isConst then " const" else "") + ((if q.isVolatile then " volatile" else "") +
    ((if q.isAtomic then " _Atomic" else "") + (if q.isRestrict then " restrict" else "")))
  }

  function PointerText(q: Qualifiers): string {
    "*" + (PointerQualifiers(q) + if AnyQualifier(q) then " " else "")
  }

  function IntegerText(kind: IntegerSpelling): string {
    match kind
    case CharWord => "char"
    case ShortWord => "short"
    case IntWord => "int"
    case LongWord => "long"
    case LongLongWord => "long long"
  }

  function FloatingText(kind: FloatingSpelling): string {
    match kind
    case FloatWord => "float"
    case DoubleWord => "double"
    case LongDoubleWord => "long double"
  }

  function TagText(keyword: string, tag: string): string {
    if tag == "" then keyword else keyword + (" " + tag)
  }

  function SpecifierText(spec: Specifier): string {
    match spec
    case VoidSpecifier => "void"
    case BoolSpecifier => "_Bool"
    case EnumSpecifier(tag) => TagText("enum", tag)
    case IntegerSpecifier(isUnsigned, kind) => (if isUnsigned then "unsigned " else "") + IntegerText(kind)
    case FloatingSpecifier(kind, isComplex) => FloatingText(kind) + if isComplex then " _Complex" else ""
    case RecordSpecifier(isStruct, tag) => TagText(if isStruct then "struct" else "union", tag)
  }

  function BoundText(bound: Bound): string {
    match bound
    case NoBound => "[]"
    case Star => "[*]"
    case Fixed(size) => "[" + (Decimal(size) + "]")
  }

  // The text around the hole, as the printer extends it; `prefix` says that it starts with a
  // pointer.
  function Around(t: CType, fragment: string, prefix: bool): (r: (string, CType))
    ensures r.1.Base?
    decreases t, 0
  {
    match t
    case Base(_, _) => (fragment, t)
    case PointerTo(quals, target) => Around(target, PointerText(quals) + fragment, true)
    case ArrayOf(bound, element) => Around(element, Wrapped(fragment, prefix) + BoundText(bound), false)
    case FunctionOf(params, result) => Around(result, Wrapped(fragment, prefix) + ParametersText(params), false)
  }

  function Wrapped(fragment: string, prefix: bool): string {
    if prefix then "(" + fragment + ")" else fragment
  }

  function ParametersText(params: Parameters): string
    decreases params, 2
  {
    match params
    case Unspecified => "()"
    case Listed(types, isVariadic) =>
      if types == [] && !isVariadic then "(void)" else "(" + (ListText(types, isVariadic) + ")")
  }

  function ListText(types: seq<CType>, isVariadic: bool): string
    decreases types, 2
  {
    if types == [] then if isVariadic then "..." else ""
    else
      TypeText(types[0], "") + ((if |types| > 1 || isVariadic then ", " else "") + ListText(types[1..], isVariadic))
  }

  // What is put in the place of the hole; without a name the blank in front of it goes too.
  function Fill(s: string, name: string): string {
    if s == "" then ""
    else if name == "" && s[0] == ' ' && |s| > 1 && s[1] == '@' then Fill(s[1..], name)
    else (if s[0] == '@' then name else [s[0]]) + Fill(s[1..], name)
  }

  function BaseText(t: CType): string
    requires t.Base?
  {
    LeadingQualifiers(t.quals) + SpecifierText(t.spec)
  }

  // A type name (`name` empty) or a declaration of `name`.
  function TypeText(t: CType, name: string): string
    decreases t, 1
  {
    var (fragment, base) := Around(t, "@", false);
    BaseText(base) + if |fragment| > 1 || name != "" then " " + Fill(fragment, name) else ""
  }

  // ---------------------------------------------------------------- the text is that of the declarator

  function SuffixText(s: Suffix): string {
    match s
    case ArraySuffix(bound) => BoundText(bound)
    case CallSuffix(params) => ParametersText(params)
  }

  // Nothing but suffixes stand between the hole and the front.
  predicate OpensWithHole(d: Declarator) {
    d.Hole? || (d.Suffixed? && OpensWithHole(d.direct))
  }

  // The blank behind the qualifiers of a pointer, left out where nothing but the missing name follows.
  function Blank(q: Qualifiers, inner: Declarator, name: string): string {
    if AnyQualifier(q) && !(name == "" && OpensWithHole(inner)) then " " else ""
  }

  // A declarator with its hole filled, in front of `rest`.
  function Render(d: Declarator, name: string, rest: string): string {
    match d
    case Hole => name + rest
    case Group(inner) => "(" + Render(inner, name, ")" + rest)
    case Pointing(quals, inner) =>
      "*" + (PointerQualifiers(quals) + (Blank(quals, inner, name) + Render(inner, name, rest)))
    case Suffixed(direct, suffix) => Render(direct, name, SuffixText(suffix) + rest)
  }

  lemma {:induction false} RenderAppends(d: Declarator, name: string, a: string, b: string)
    ensures Render(d, name, a + b) == Render(d, name, a) + b
    decreases d
  {
    hide BoundText;
    hide ParametersText;
    hide PointerQualifiers;
    match d {
      case Hole => Assoc(name, a, b);
      case Group(inner) =>
        Assoc(")", a, b);
        RenderAppends(inner, name, ")" + a, b);
        Assoc("(", Render(inner, name, ")" + a), b);
      case Pointing(quals, inner) =>
        RenderAppends(inner, name, a, b);
        var x, y := PointerQualifiers(quals), Blank(quals, inner, name);
        Assoc(y, Render(inner, name, a), b);
        Assoc(x, y + Render(inner, name, a), b);
        Assoc("*", x + (y + Render(inner, name, a)), b);
      case Suffixed(direct, suffix) =>
        Assoc(SuffixText(suffix), a, b);
        RenderAppends(direct, name, SuffixText(suffix) + a, b);
    }
  }

  // The printer's fragment is the declarator with '@' in the hole.
  lemma {:induction false} AroundIsRendered(t: CType, d: Declarator)
    requires IsWellFormed(d)
    ensures Around(t, Render(d, "@", ""), d.Pointing?) == (Render(Declare(t, d).0, "@", ""), Declare(t, d).1)
    decreases t
  {
    hide Render;
    hide BoundText;
    hide ParametersText;
    match t {
      case Base(_, _) =>
      case PointerTo(quals, target) =>
        PointerIsRendered(quals, d);
        AroundIsRendered(target, Pointing(quals, d));
      case ArrayOf(bound, element) =>
        SuffixIsRendered(d, ArraySuffix(bound));
        AroundIsRendered(element, Suffixed(Wrap(d), ArraySuffix(bound)));
      case FunctionOf(params, result) =>
        SuffixIsRendered(d, CallSuffix(params));
        AroundIsRendered(result, Suffixed(Wrap(d), CallSuffix(params)));
    }
  }

  lemma PointerIsRendered(quals: Qualifiers, d: Declarator)
    ensures Render(Pointing(quals, d), "@", "") == PointerText(quals) + Render(d, "@", "")
  {
    hide PointerQualifiers;
    var x, y, r := PointerQualifiers(quals), if AnyQualifier(quals) then " " else "", Render(d, "@", "");
    Assoc("*", x + y, r);
    Assoc(x, y, r);
  }

  lemma SuffixIsRendered(d: Declarator, suffix: Suffix)
    ensures Render(Suffixed(Wrap(d), suffix), "@", "") == Wrapped(Render(d, "@", ""), d.Pointing?) + SuffixText(suffix)
  {
    hide SuffixText;
    var s := SuffixText(suffix);
    assert s + "" == s && "" + s == s;
    if d.Pointing? {
      RenderAppends(d, "@", "", ")" + s);
      assert "" + (")" + s) == ")" + s;
      Assoc("(", Render(d, "@", ""), ")" + s);
      Assoc("(" + Render(d, "@", ""), ")", s);
    } else {
      RenderAppends(d, "@", "", s);
    }
  }
}
