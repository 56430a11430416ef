/** The result of analyzing one source: diagnostics, symbols and what they say. */
module Snapshots {
  import opened Options
  import opened TargetInfo

  type CString = s: string | '\0' !in s

  datatype Position = Position(line: CInt, column: CInt, offset: CInt)

  datatype Range = Range(sourceName: CString, start: Position, end: Position)

  datatype SymbolKind =
    | ObjectKind | ParameterKind | FunctionKind | TypedefKind | EnumConstantKind
    | TagKind | MemberKind | MacroKind | LabelKind

  datatype NameSpace = OrdinarySpace | TagSpace | LabelSpace | MemberSpace | MacroSpace

  datatype InitializerState = NoInitializer | ExplicitConstant | ZeroInitialized | Indeterminate | RuntimeInitialized

  datatype Parameter = Parameter(name: CString, typeText: CString)

  // The analysis copies every text into its snapshot and makes a missing one empty, so that a snapshot
  // has all its texts.
  datatype Symbol = Symbol(
    name: CString,
    kind: SymbolKind,
    nameSpace: NameSpace,
    typeText: CString,
    signature: CString,
    returnType: CString,
    storageClass: CString,
    scopeDepth: CInt,
    declarationOrder: nat,
    declaration: Range,
    documentation: CString,
    documentationRange: Option<Range>,
    definition: Option<Range>,
    definitionConflict: bool,
    candidates: seq<Range>,
    initializer: InitializerState,
    constantValue: CString,
    initializerRange: Option<Range>,
    hasPrototype: bool,
    isVariadic: bool,
    parameters: seq<Parameter>,
    macroIsFunctionLike: bool,
    macroIsVariadic: bool,
    macroParameters: seq<CString>,
    macroReplacement: CString)

  datatype Diagnostic = Diagnostic(severity: CInt, code: CString, message: CString, range: Range)

  datatype Snapshot = Snapshot(
    diagnostics: seq<Diagnostic>,
    items: seq<Symbol>,
    dependencies: seq<CString>,
    hoverIndex: CInt,
    isPartial: bool)
}
