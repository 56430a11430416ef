/**
 What a reader of the JSON document finds under its names: the fields of the snapshot.
 */
module SnapshotFields {
  import opened Json
  import opened JsonWriter
  import opened Options
  import opened SnapshotJson
  import opened Snapshots

  // ---------------------------------------------------------------- looking up

  function Find(ms: seq<Member>, key: string): Option<JsonValue> {
    if ms == [] then None else if ms[0].key == key then Some(ms[0].value) else Find(ms[1..], key)
  }

  // What an object has under a name, Null for nothing.
  function Under(v: JsonValue, key: string): JsonValue {
    match v
    case Object(members) => if Find(members, key).Some? then Find(members, key).value else Null
    case _ => Null
  }

  lemma {:induction false} FindAt(ms: seq<Member>, key: string, i: nat)
    requires i < |ms| && ms[i].key == key && forall j :: 0 <= j < i ==> ms[j].key != key
    ensures Find(ms, key) == Some(ms[i].value)
    decreases i
  {
    if i > 0 {
      FindAt(ms[1..], key, i - 1);
    }
  }

  lemma ObjectAt(ms: seq<Member>, key: string, i: nat)
    requires i < |ms| && ms[i].key == key && forall j :: 0 <= j < i ==> ms[j].key != key
    ensures Under(Object(ms), key) == ms[i].value
  {
    FindAt(ms, key, i);
  }

  // ---------------------------------------------------------------- names

  lemma SymbolNames()
    ensures SymbolName(NameKey) == "name"
    ensures SymbolName(KindKey) == "kind"
    ensures SymbolName(NameSpaceKey) == "nameSpace"
    ensures SymbolName(TypeKey) == "type"
    ensures SymbolName(SignatureKey) == "signature"
    ensures SymbolName(StorageClassKey) == "storageClass"
    ensures SymbolName(ScopeDepthKey) == "scopeDepth"
  {
    hide IsPlain;
    hide DeclarationName;
  }

  lemma DeclarationNames()
    ensures DeclarationName(DeclarationOrderKey) == "declarationOrder"
    ensures DeclarationName(DeclarationKey) == "declaration"
    ensures DeclarationName(DocumentationKey) == "documentation"
    ensures DeclarationName(DocumentationRangeKey) == "documentationRange"
  {
    hide IsPlain;
    hide DefinitionName;
  }

  lemma DefinitionNames()
    ensures DefinitionName(DefinitionKey) == "definition"
    ensures DefinitionName(DefinitionConflictKey) == "definitionConflict"
    ensures DefinitionName(DefinitionCandidatesKey) == "definitionCandidates"
    ensures DefinitionName(InitializerKey) == "initializer"
    ensures DefinitionName(FunctionKey) == "function"
    ensures DefinitionName(MacroKey) == "macro"
  {
    hide IsPlain;
    hide DetailName;
  }

  lemma DetailNames()
    ensures DetailName(StateKey) == "state"
    ensures DetailName(ConstantValueKey) == "constantValue"
    ensures DetailName(RangeKey) == "range"
    ensures DetailName(ReturnTypeKey) == "returnType"
    ensures DetailName(HasPrototypeKey) == "hasPrototype"
    ensures DetailName(VariadicKey) == "variadic"
  {
    hide IsPlain;
    hide PlaceName;
  }

  lemma PlaceNames()
    ensures PlaceName(ParametersKey) == "parameters" && PlaceName(FunctionLikeKey) == "functionLike"
    ensures PlaceName(ReplacementKey) == "replacement" && PlaceName(LineKey) == "line" && PlaceName(ColumnKey) == "column"
  {
    hide IsPlain;
    hide DocumentName;
  }

  lemma EndNames()
    ensures PlaceName(OffsetKey) == "offset" && PlaceName(SourceNameKey) == "sourceName"
    ensures PlaceName(StartKey) == "start" && PlaceName(EndKey) == "end"
  {
    hide IsPlain;
    hide DocumentName;
  }

  lemma DocumentNames()
    ensures DocumentName(SeverityKey) == "severity" && DocumentName(CodeKey) == "code" && DocumentName(MessageKey) == "message"
    ensures DocumentName(SourceIdKey) == "sourceId" && DocumentName(NotesKey) == "notes"
  {
    hide IsPlain;
  }

  lemma TopNames()
    ensures DocumentName(DiagnosticsKey) == "diagnostics" && DocumentName(CompletionItemsKey) == "completionItems"
    ensures DocumentName(HoverKey) == "hover" && DocumentName(DependenciesKey) == "dependencies"
    ensures DocumentName(PartialKey) == "partial"
  {
    hide IsPlain;
  }

  lemma Chain0(key: Key)
    ensures KeyName(key) == SymbolName(key)
  {
    hide IsPlain;
    hide SymbolName;
  }

  lemma Chain1(key: Key)
    requires key in {DeclarationOrderKey, DeclarationKey, DocumentationKey, DocumentationRangeKey}
    ensures KeyName(key) == DeclarationName(key)
  {
    hide IsPlain;
    hide DeclarationName;
  }

  lemma Chain2(key: Key)
    requires key in {DefinitionKey, DefinitionConflictKey, DefinitionCandidatesKey, InitializerKey, FunctionKey, MacroKey}
    ensures KeyName(key) == DefinitionName(key)
  {
    hide IsPlain;
    hide DefinitionName;
  }

  lemma Chain3(key: Key)
    requires key in {StateKey, ConstantValueKey, RangeKey, ReturnTypeKey, HasPrototypeKey, VariadicKey}
    ensures KeyName(key) == DetailName(key)
  {
    hide IsPlain;
    hide DetailName;
  }

  lemma Chain4(key: Key)
    requires key in {ParametersKey, FunctionLikeKey, ReplacementKey, LineKey, ColumnKey, OffsetKey, SourceNameKey, StartKey, EndKey}
    ensures KeyName(key) == PlaceName(key)
  {
    hide IsPlain;
    hide PlaceName;
  }

  lemma Chain5(key: Key)
    requires key in {SeverityKey, CodeKey, MessageKey, SourceIdKey, NotesKey, DiagnosticsKey, CompletionItemsKey, HoverKey, DependenciesKey, PartialKey}
    ensures KeyName(key) == DocumentName(key)
  {
    hide IsPlain;
    hide DocumentName;
  }

  lemma SymbolKeys()
    ensures KeyName(NameKey) == "name"
    ensures KeyName(KindKey) == "kind"
    ensures KeyName(NameSpaceKey) == "nameSpace"
    ensures KeyName(TypeKey) == "type"
    ensures KeyName(SignatureKey) == "signature"
    ensures KeyName(StorageClassKey) == "storageClass"
    ensures KeyName(ScopeDepthKey) == "scopeDepth"
  {
    hide *;
    SymbolNames();
    Chain0(NameKey);
    Chain0(KindKey);
    Chain0(NameSpaceKey);
    Chain0(TypeKey);
    Chain0(SignatureKey);
    Chain0(StorageClassKey);
    Chain0(ScopeDepthKey);
  }

  lemma DeclarationKeys()
    ensures KeyName(DeclarationOrderKey) == "declarationOrder"
    ensures KeyName(DeclarationKey) == "declaration"
    ensures KeyName(DocumentationKey) == "documentation"
    ensures KeyName(DocumentationRangeKey) == "documentationRange"
  {
    hide *;
    DeclarationNames();
    Chain1(DeclarationOrderKey);
    Chain1(DeclarationKey);
    Chain1(DocumentationKey);
    Chain1(DocumentationRangeKey);
  }

  lemma DefinitionKeys()
    ensures KeyName(DefinitionKey) == "definition"
    ensures KeyName(DefinitionConflictKey) == "definitionConflict"
    ensures KeyName(DefinitionCandidatesKey) == "definitionCandidates"
    ensures KeyName(InitializerKey) == "initializer"
    ensures KeyName(FunctionKey) == "function"
    ensures KeyName(MacroKey) == "macro"
  {
    hide *;
    DefinitionNames();
    Chain2(DefinitionKey);
    Chain2(DefinitionConflictKey);
    Chain2(DefinitionCandidatesKey);
    Chain2(InitializerKey);
    Chain2(FunctionKey);
    Chain2(MacroKey);
  }

  lemma DetailKeys()
    ensures KeyName(StateKey) == "state"
    ensures KeyName(ConstantValueKey) == "constantValue"
    ensures KeyName(RangeKey) == "range"
    ensures KeyName(ReturnTypeKey) == "returnType"
    ensures KeyName(HasPrototypeKey) == "hasPrototype"
    ensures KeyName(VariadicKey) == "variadic"
  {
    hide *;
    DetailNames();
    Chain3(StateKey);
    Chain3(ConstantValueKey);
    Chain3(RangeKey);
    Chain3(ReturnTypeKey);
    Chain3(HasPrototypeKey);
    Chain3(VariadicKey);
  }

  lemma PlaceKeys()
    ensures KeyName(ParametersKey) == "parameters"
    ensures KeyName(FunctionLikeKey) == "functionLike"
    ensures KeyName(ReplacementKey) == "replacement"
    ensures KeyName(LineKey) == "line"
    ensures KeyName(ColumnKey) == "column"
    ensures KeyName(OffsetKey) == "offset"
    ensures KeyName(SourceNameKey) == "sourceName"
    ensures KeyName(StartKey) == "start"
    ensures KeyName(EndKey) == "end"
  {
    hide *;
    PlaceNames();
    EndNames();
    Chain4(ParametersKey);
    Chain4(FunctionLikeKey);
    Chain4(ReplacementKey);
    Chain4(LineKey);
    Chain4(ColumnKey);
    Chain4(OffsetKey);
    Chain4(SourceNameKey);
    Chain4(StartKey);
    Chain4(EndKey);
  }

  lemma DocumentKeys()
    ensures KeyName(SeverityKey) == "severity"
    ensures KeyName(CodeKey) == "code"
    ensures KeyName(MessageKey) == "message"
    ensures KeyName(SourceIdKey) == "sourceId"
    ensures KeyName(NotesKey) == "notes"
    ensures KeyName(DiagnosticsKey) == "diagnostics"
    ensures KeyName(CompletionItemsKey) == "completionItems"
    ensures KeyName(HoverKey) == "hover"
    ensures KeyName(DependenciesKey) == "dependencies"
    ensures KeyName(PartialKey) == "partial"
  {
    hide *;
    DocumentNames();
    TopNames();
    Chain5(SeverityKey);
    Chain5(CodeKey);
    Chain5(MessageKey);
    Chain5(SourceIdKey);
    Chain5(NotesKey);
    Chain5(DiagnosticsKey);
    Chain5(CompletionItemsKey);
    Chain5(HoverKey);
    Chain5(DependenciesKey);
    Chain5(PartialKey);
  }

  // ---------------------------------------------------------------- values

  lemma PositionSays(p: Position)
    ensures
      var v := PositionJson(p);
      Under(v, "line") == Number(p.line) && Under(v, "column") == Number(p.column) && Under(v, "offset") == Number(p.offset)
  {
    PlaceKeys();
    hide KeyName;
    var ms := PositionJson(p).members;
    ObjectAt(ms, "line", 0);
    ObjectAt(ms, "column", 1);
    ObjectAt(ms, "offset", 2);
  }

  lemma RangeSays(r: Range)
    ensures
      var v := RangeJson(r);
      && Under(v, "sourceName") == String(r.sourceName)
      && Under(v, "start") == PositionJson(r.start) && Under(v, "end") == PositionJson(r.end)
  {
    PlaceKeys();
    hide KeyName;
    hide PositionJson;
    var ms := RangeJson(r).members;
    ObjectAt(ms, "sourceName", 0);
    ObjectAt(ms, "start", 1);
    ObjectAt(ms, "end", 2);
  }

  lemma DiagnosticSays(d: Diagnostic)
    ensures
      var v := DiagnosticJson(d);
      && Under(v, "severity") == String(if d.severity == 1 then "error" else if d.severity == 2 then "warning" else "note")
      && Under(v, "code") == String(d.code)
      && Under(v, "message") == String(d.message)
      && Under(v, "sourceName") == String(d.range.sourceName)
      && Under(v, "start") == PositionJson(d.range.start)
      && Under(v, "end") == PositionJson(d.range.end)
  {
    PlaceKeys();
    DocumentKeys();
    hide KeyName;
    hide PositionJson;
    var ms := DiagnosticJson(d).members;
    ObjectAt(ms, "severity", 0);
    ObjectAt(ms, "code", 1);
    ObjectAt(ms, "message", 2);
    ObjectAt(ms, "sourceName", 4);
    ObjectAt(ms, "start", 5);
    ObjectAt(ms, "end", 6);
  }

  lemma InitializerSays(s: Symbol)
    ensures
      var v := InitializerJson(s);
      && Under(v, "state") == String(InitializerName(s.initializer))
      && Under(v, "constantValue") == (if s.constantValue == "" then Null else String(s.constantValue))
      && Under(v, "range") == (if s.initializerRange.Some? then RangeJson(s.initializerRange.value) else Null)
  {
    DetailKeys();
    hide KeyName;
    hide RangeJson;
    hide InitializerName;
    var ms := InitializerJson(s).members;
    ObjectAt(ms, "state", 0);
    ObjectAt(ms, "constantValue", 1);
    ObjectAt(ms, "range", 2);
  }

  lemma ParameterSays(p: Parameter)
    ensures Under(ParameterJson(p), "name") == String(p.name) && Under(ParameterJson(p), "type") == String(p.typeText)
  {
    SymbolKeys();
    hide KeyName;
    var ms := ParameterJson(p).members;
    ObjectAt(ms, "name", 0);
    ObjectAt(ms, "type", 1);
  }

  lemma FunctionSays(s: Symbol)
    ensures s.kind != FunctionKind ==> FunctionJson(s) == Null
    ensures s.kind == FunctionKind ==>
      var v := FunctionJson(s);
      && Under(v, "returnType") == String(s.returnType)
      && Under(v, "hasPrototype") == Boolean(s.hasPrototype)
      && Under(v, "variadic") == Boolean(s.isVariadic)
      && Under(v, "parameters") == List(ParametersJson(s.parameters))
  {
    DetailKeys();
    PlaceKeys();
    hide KeyName;
    hide ParametersJson;
    if s.kind == FunctionKind {
      var ms := FunctionJson(s).members;
      ObjectAt(ms, "returnType", 0);
      ObjectAt(ms, "hasPrototype", 1);
      ObjectAt(ms, "variadic", 2);
      ObjectAt(ms, "parameters", 3);
    }
  }

  lemma MacroSays(s: Symbol)
    ensures s.kind != MacroKind ==> MacroJson(s) == Null
    ensures s.kind == MacroKind ==>
      var v := MacroJson(s);
      && Under(v, "functionLike") == Boolean(s.macroIsFunctionLike)
      && Under(v, "variadic") == Boolean(s.macroIsVariadic)
      && Under(v, "parameters") == List(StringsJson(s.macroParameters))
      && Under(v, "replacement") == String(s.macroReplacement)
  {
    DetailKeys();
    PlaceKeys();
    hide KeyName;
    hide StringsJson;
    if s.kind == MacroKind {
      var ms := MacroJson(s).members;
      ObjectAt(ms, "functionLike", 0);
      ObjectAt(ms, "variadic", 1);
      ObjectAt(ms, "parameters", 2);
      ObjectAt(ms, "replacement", 3);
    }
  }

  // What a list of values says, one by one.
  lemma {:induction false} ListsSay(rs: seq<Range>, ps: seq<Parameter>, ss: seq<CString>, i: nat)
    ensures i < |rs| ==> RangesJson(rs)[i] == RangeJson(rs[i])
    ensures i < |ps| ==> ParametersJson(ps)[i] == ParameterJson(ps[i])
    ensures i < |ss| ==> StringsJson(ss)[i] == String(ss[i])
    decreases |rs| + |ps| + |ss|
  {
    hide RangeJson;
    hide ParameterJson;
    var qs := if i + 1 < |rs| then rs[..|rs| - 1] else [];
    var us := if i + 1 < |ps| then ps[..|ps| - 1] else [];
    var ts := if i + 1 < |ss| then ss[..|ss| - 1] else [];
    if |qs| + |us| + |ts| < |rs| + |ps| + |ss| {
      ListsSay(qs, us, ts, i);
    }
  }

  lemma {:induction false} EntriesSay(ds: seq<Diagnostic>, ss: seq<Symbol>, i: nat)
    ensures i < |ds| ==> DiagnosticsJson(ds)[i] == DiagnosticJson(ds[i])
    ensures i < |ss| ==> SymbolsJson(ss)[i] == SymbolJson(ss[i])
    decreases |ds| + |ss|
  {
    hide DiagnosticJson;
    hide SymbolJson;
    var es := if i + 1 < |ds| then ds[..|ds| - 1] else [];
    var ts := if i + 1 < |ss| then ss[..|ss| - 1] else [];
    if |es| + |ts| < |ds| + |ss| {
      EntriesSay(es, ts, i);
    }
  }

  // ---------------------------------------------------------------- a symbol, a document

  lemma SymbolMembers(s: Symbol)
    ensures
      var ms := SymbolJson(s).members;
      && |ms| == 17
      && ms[..9] == DeclarationMembers(s) && ms[9..14] == DefinitionMembers(s) && ms[14..] == DetailMembers(s)
  {
    hide KeyName;
    hide RangeJson;
    hide RangesJson;
  }

  // The names of a symbol's members, in order.
  const SYMBOL_NAMES: seq<string> := [
    "name", "kind", "nameSpace", "type", "signature", "storageClass", "scopeDepth", "declarationOrder", "declaration",
    "documentation", "documentationRange", "definition", "definitionConflict", "definitionCandidates",
    "initializer", "function", "macro"]

  // And their values.
  function SymbolValues(s: Symbol): seq<JsonValue> {
    [String(s.name), String(KindName(s.kind)), String(NameSpaceName(s.nameSpace)), String(s.typeText), String(s.signature),
     String(s.storageClass), Number(s.scopeDepth), Number(s.declarationOrder), RangeJson(s.declaration),
     String(s.documentation), if s.documentationRange.Some? then RangeJson(s.documentationRange.value) else Null,
     if s.definition.Some? then RangeJson(s.definition.value) else Null, Boolean(s.definitionConflict),
     List(RangesJson(s.candidates)), InitializerJson(s), FunctionJson(s), MacroJson(s)]
  }

  // A symbol has every value under its name.
  lemma SymbolSays(s: Symbol, i: nat)
    requires i < 17
    ensures Under(SymbolJson(s), SYMBOL_NAMES[i]) == SymbolValues(s)[i]
  {
    hide KeyName;
    hide RangeJson;
    hide RangesJson;
    hide InitializerJson;
    hide FunctionJson;
    hide MacroJson;
    hide KindName;
    hide NameSpaceName;
    var ms := SymbolJson(s).members;
    SymbolMembers(s);
    MembersNamed(s);
    NamesDiffer();
    ObjectAt(ms, SYMBOL_NAMES[i], i);
    MembersValued(s, i);
  }

  lemma NamesDiffer()
    ensures |SYMBOL_NAMES| == 17 && forall i, j :: 0 <= i < j < 17 ==> SYMBOL_NAMES[i] != SYMBOL_NAMES[j]
  {
  }

  lemma MembersNamed(s: Symbol)
    ensures
      var ms := SymbolJson(s).members;
      |ms| == 17 && forall i :: 0 <= i < 17 ==> ms[i].key == SYMBOL_NAMES[i]
  {
    SymbolKeys();
    DeclarationKeys();
    DefinitionKeys();
    hide KeyName;
    hide RangeJson;
    hide RangesJson;
    hide InitializerJson;
    hide FunctionJson;
    hide MacroJson;
    hide KindName;
    hide NameSpaceName;
  }

  lemma MembersValued(s: Symbol, i: nat)
    requires i < 17
    ensures |SymbolJson(s).members| == 17 && SymbolJson(s).members[i].value == SymbolValues(s)[i]
  {
    hide KeyName;
    hide RangeJson;
    hide RangesJson;
    hide InitializerJson;
    hide FunctionJson;
    hide MacroJson;
    hide KindName;
    hide NameSpaceName;
  }

  // The document that is written is read as a value that has the diagnostics, the symbols and the rest
  // under their names.
  lemma DocumentSays(s: Snapshot)
    ensures
      var r := Read(Text(DocumentJson(s)));
      && r.Some? && r.value.1 == ""
      && var v := r.value.0;
      && Under(v, "diagnostics") == List(DiagnosticsJson(s.diagnostics))
      && Under(v, "completionItems") == List(SymbolsJson(s.items))
      && Under(v, "hover") == (if 0 <= s.hoverIndex < |s.items| then SymbolJson(s.items[s.hoverIndex]) else Null)
      && Under(v, "dependencies") == List(StringsJson(s.dependencies))
      && Under(v, "partial") == Boolean(s.isPartial)
  {
    DocumentKeys();
    DocumentReadsBack(s);
    hide KeyName;
    hide Text;
    hide Read;
    hide SymbolJson;
    hide DiagnosticsJson;
    hide SymbolsJson;
    hide StringsJson;
    var ms := DocumentJson(s).members;
    ObjectAt(ms, "diagnostics", 0);
    ObjectAt(ms, "completionItems", 1);
    ObjectAt(ms, "hover", 2);
    ObjectAt(ms, "dependencies", 3);
    ObjectAt(ms, "partial", 4);
  }

  // ---------------------------------------------------------------- names of kinds

  // Different names stand for different kinds, name spaces, states and severities.
  lemma KindsDiffer(k: SymbolKind, l: SymbolKind)
    ensures KindName(k) == KindName(l) <==> k == l
    ensures KindName(ObjectKind) == "object" && KindName(ParameterKind) == "parameter" && KindName(FunctionKind) == "function"
    ensures KindName(TypedefKind) == "typedef" && KindName(EnumConstantKind) == "enumConstant" && KindName(TagKind) == "tag"
    ensures KindName(MemberKind) == "member" && KindName(MacroKind) == "macro" && KindName(LabelKind) == "label"
  {}

  lemma NameSpacesDiffer(m: NameSpace, n: NameSpace)
    ensures NameSpaceName(m) == NameSpaceName(n) <==> m == n
    ensures NameSpaceName(OrdinarySpace) == "ordinary" && NameSpaceName(TagSpace) == "tag"
    ensures NameSpaceName(LabelSpace) == "label" && NameSpaceName(MemberSpace) == "member"
    ensures NameSpaceName(MacroSpace) == "macro"
  {}

  lemma StatesDiffer(a: InitializerState, b: InitializerState)
    ensures InitializerName(a) == InitializerName(b) <==> a == b
    ensures InitializerName(ExplicitConstant) == "explicitConstant" && InitializerName(ZeroInitialized) == "zero"
    ensures InitializerName(Indeterminate) == "indeterminate" && InitializerName(RuntimeInitialized) == "runtime"
    ensures InitializerName(NoInitializer) == "none"
  {}
}
