/** The JSON value that says what an analysis snapshot says. */
module SnapshotJson {
  import opened Json
  import opened Options
  import opened Snapshots

  // The members of the document.
  datatype Key =
    | NameKey | KindKey | NameSpaceKey | TypeKey | SignatureKey | StorageClassKey | ScopeDepthKey
    | DeclarationOrderKey | DeclarationKey | DocumentationKey | DocumentationRangeKey
    | DefinitionKey | DefinitionConflictKey | DefinitionCandidatesKey | InitializerKey | FunctionKey | MacroKey
    | StateKey | ConstantValueKey | RangeKey | ReturnTypeKey | HasPrototypeKey | VariadicKey
    | ParametersKey | FunctionLikeKey | ReplacementKey
    | LineKey | ColumnKey | OffsetKey | SourceNameKey | StartKey | EndKey
    | SeverityKey | CodeKey | MessageKey | SourceIdKey | NotesKey
    | DiagnosticsKey | CompletionItemsKey | HoverKey | DependenciesKey | PartialKey

  predicate IsPlain(name: string) {
    forall i :: 0 <= i < |name| ==> 'a' <= name[i] <= 'z' || 'A' <= name[i] <= 'Z'
  }

  function KeyName(key: Key): (name: CString)
    ensures IsPlain(name)
  {
    SymbolName(key)
  }

  function SymbolName(key: Key): (name: string)
    ensures IsPlain(name)
  {
    match key
    case NameKey => "name"
    case KindKey => "kind"
    case NameSpaceKey => "nameSpace"
    case TypeKey => "type"
    case SignatureKey => "signature"
    case StorageClassKey => "storageClass"
    case ScopeDepthKey => "scopeDepth"
    case _ => DeclarationName(key)
  }

  function DeclarationName(key: Key): (name: string)
    ensures IsPlain(name)
  {
    match key
    case DeclarationOrderKey => "declarationOrder"
    case DeclarationKey => "declaration"
    case DocumentationKey => "documentation"
    case DocumentationRangeKey => "documentationRange"
    case _ => DefinitionName(key)
  }

  function DefinitionName(key: Key): (name: string)
    ensures IsPlain(name)
  {
    match key
    case DefinitionKey => "definition"
    case DefinitionConflictKey => "definitionConflict"
    case DefinitionCandidatesKey => "definitionCandidates"
    case InitializerKey => "initializer"
    case FunctionKey => "function"
    case MacroKey => "macro"
    case _ => DetailName(key)
  }

  function DetailName(key: Key): (name: string)
    ensures IsPlain(name)
  {
    match key
    case StateKey => "state"
    case ConstantValueKey => "constantValue"
    case RangeKey => "range"
    case ReturnTypeKey => "returnType"
    case HasPrototypeKey => "hasPrototype"
    case VariadicKey => "variadic"
    case _ => PlaceName(key)
  }

  function PlaceName(key: Key): (name: string)
    ensures IsPlain(name)
  {
    match key
    case ParametersKey => "parameters"
    case FunctionLikeKey => "functionLike"
    case ReplacementKey => "replacement"
    case LineKey => "line"
    case ColumnKey => "column"
    case OffsetKey => "offset"
    case SourceNameKey => "sourceName"
    case StartKey => "start"
    case EndKey => "end"
    case _ => DocumentName(key)
  }

  function DocumentName(key: Key): (name: string)
    ensures IsPlain(name)
  {
    match key
    case SeverityKey => "severity"
    case CodeKey => "code"
    case MessageKey => "message"
    case SourceIdKey => "sourceId"
    case NotesKey => "notes"
    case DiagnosticsKey => "diagnostics"
    case CompletionItemsKey => "completionItems"
    case HoverKey => "hover"
    case DependenciesKey => "dependencies"
    case _ => "partial"
  }

  function KindName(kind: SymbolKind): CString {
    match kind
    case ObjectKind => "object"
    case ParameterKind => "parameter"
    case FunctionKind => "function"
    case TypedefKind => "typedef"
    case EnumConstantKind => "enumConstant"
    case TagKind => "tag"
    case MemberKind => "member"
    case MacroKind => "macro"
    case LabelKind => "label"
  }

  function NameSpaceName(space: NameSpace): CString {
    match space
    case OrdinarySpace => "ordinary"
    case TagSpace => "tag"
    case LabelSpace => "label"
    case MemberSpace => "member"
    case MacroSpace => "macro"
  }

  function InitializerName(state: InitializerState): CString {
    match state
    case ExplicitConstant => "explicitConstant"
    case ZeroInitialized => "zero"
    case Indeterminate => "indeterminate"
    case RuntimeInitialized => "runtime"
    case NoInitializer => "none"
  }

  function SeverityName(severity: int): CString {
    if severity == 1 then "error" else if severity == 2 then "warning" else "note"
  }

  function PositionJson(p: Position): JsonValue {
    Object([
      Member(KeyName(LineKey), Number(p.line)),
      Member(KeyName(ColumnKey), Number(p.column)),
      Member(KeyName(OffsetKey), Number(p.offset))])
  }

  function RangeJson(r: Range): JsonValue {
    Object([
      Member(KeyName(SourceNameKey), String(r.sourceName)),
      Member(KeyName(StartKey), PositionJson(r.start)),
      Member(KeyName(EndKey), PositionJson(r.end))])
  }

  function RangeOrNull(r: Option<Range>): JsonValue {
    if r.Some? then RangeJson(r.value) else Null
  }

  function StringOrNull(s: CString): JsonValue {
    if s != "" then String(s) else Null
  }

  function ParameterJson(p: Parameter): JsonValue {
    Object([Member(KeyName(NameKey), String(p.name)), Member(KeyName(TypeKey), String(p.typeText))])
  }

  function RangesJson(rs: seq<Range>): (vs: seq<JsonValue>)
    ensures |vs| == |rs|
  {
    if rs == [] then [] else RangesJson(rs[..|rs| - 1]) + [RangeJson(rs[|rs| - 1])]
  }

  function ParametersJson(ps: seq<Parameter>): (vs: seq<JsonValue>)
    ensures |vs| == |ps|
  {
    if ps == [] then [] else ParametersJson(ps[..|ps| - 1]) + [ParameterJson(ps[|ps| - 1])]
  }

  function StringsJson(ss: seq<CString>): (vs: seq<JsonValue>)
    ensures |vs| == |ss|
  {
    if ss == [] then [] else StringsJson(ss[..|ss| - 1]) + [String(ss[|ss| - 1])]
  }

  function InitializerJson(s: Symbol): JsonValue {
    Object([
      Member(KeyName(StateKey), String(InitializerName(s.initializer))),
      Member(KeyName(ConstantValueKey), StringOrNull(s.constantValue)),
      Member(KeyName(RangeKey), RangeOrNull(s.initializerRange))])
  }

  function FunctionJson(s: Symbol): JsonValue {
    if s.kind == FunctionKind then
      Object([
        Member(KeyName(ReturnTypeKey), String(s.returnType)),
        Member(KeyName(HasPrototypeKey), Boolean(s.hasPrototype)),
        Member(KeyName(VariadicKey), Boolean(s.isVariadic)),
        Member(KeyName(ParametersKey), List(ParametersJson(s.parameters)))])
    else Null
  }

  function MacroJson(s: Symbol): JsonValue {
    if s.kind == MacroKind then
      Object([
        Member(KeyName(FunctionLikeKey), Boolean(s.macroIsFunctionLike)),
        Member(KeyName(VariadicKey), Boolean(s.macroIsVariadic)),
        Member(KeyName(ParametersKey), List(StringsJson(s.macroParameters))),
        Member(KeyName(ReplacementKey), String(s.macroReplacement))])
    else Null
  }

  // What a symbol is called, where it is declared, and where it is defined.
  function NamingMembers(s: Symbol): seq<Member> {
    [Member(KeyName(NameKey), String(s.name)),
     Member(KeyName(KindKey), String(KindName(s.kind))),
     Member(KeyName(NameSpaceKey), String(NameSpaceName(s.nameSpace))),
     Member(KeyName(TypeKey), String(s.typeText)),
     Member(KeyName(SignatureKey), String(s.signature)),
     Member(KeyName(StorageClassKey), String(s.storageClass))]
  }

  function DeclarationMembers(s: Symbol): seq<Member> {
    NamingMembers(s) +
    [Member(KeyName(ScopeDepthKey), Number(s.scopeDepth)),
     Member(KeyName(DeclarationOrderKey), Number(s.declarationOrder)),
     Member(KeyName(DeclarationKey), RangeJson(s.declaration))]
  }

  function DefinitionMembers(s: Symbol): seq<Member> {
    [Member(KeyName(DocumentationKey), String(s.documentation)),
     Member(KeyName(DocumentationRangeKey), RangeOrNull(s.documentationRange)),
     Member(KeyName(DefinitionKey), RangeOrNull(s.definition)),
     Member(KeyName(DefinitionConflictKey), Boolean(s.definitionConflict)),
     Member(KeyName(DefinitionCandidatesKey), List(RangesJson(s.candidates)))]
  }

  function DetailMembers(s: Symbol): seq<Member> {
    [Member(KeyName(InitializerKey), InitializerJson(s)),
     Member(KeyName(FunctionKey), FunctionJson(s)),
     Member(KeyName(MacroKey), MacroJson(s))]
  }

  function SymbolJson(s: Symbol): JsonValue {
    Object(DeclarationMembers(s) + DefinitionMembers(s) + DetailMembers(s))
  }

  function SymbolsJson(ss: seq<Symbol>): (vs: seq<JsonValue>)
    ensures |vs| == |ss|
  {
    if ss == [] then [] else SymbolsJson(ss[..|ss| - 1]) + [SymbolJson(ss[|ss| - 1])]
  }

  function DiagnosticHead(d: Diagnostic): seq<Member> {
    [Member(KeyName(SeverityKey), String(SeverityName(d.severity))),
     Member(KeyName(CodeKey), String(d.code)),
     Member(KeyName(MessageKey), String(d.message)),
     Member(KeyName(SourceIdKey), Number(0))]
  }

  function DiagnosticJson(d: Diagnostic): JsonValue {
    Object(DiagnosticHead(d) +
      [Member(KeyName(SourceNameKey), String(d.range.sourceName)),
       Member(KeyName(StartKey), PositionJson(d.range.start)),
       Member(KeyName(EndKey), PositionJson(d.range.end)),
       Member(KeyName(NotesKey), List([]))])
  }

  function DiagnosticsJson(ds: seq<Diagnostic>): (vs: seq<JsonValue>)
    ensures |vs| == |ds|
  {
    if ds == [] then [] else DiagnosticsJson(ds[..|ds| - 1]) + [DiagnosticJson(ds[|ds| - 1])]
  }

  function HoverJson(s: Snapshot): JsonValue {
    if 0 <= s.hoverIndex < |s.items| then SymbolJson(s.items[s.hoverIndex]) else Null
  }

  function DocumentJson(s: Snapshot): JsonValue {
    Object([
      Member(KeyName(DiagnosticsKey), List(DiagnosticsJson(s.diagnostics))),
      Member(KeyName(CompletionItemsKey), List(SymbolsJson(s.items))),
      Member(KeyName(HoverKey), HoverJson(s)),
      Member(KeyName(DependenciesKey), List(StringsJson(s.dependencies))),
      Member(KeyName(PartialKey), Boolean(s.isPartial))])
  }
}
