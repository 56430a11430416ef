/**
 What a project index says about the functions of a project, given the symbols its sources export:
 one entry a name in order of appearance, every definition once, and the documentation of the
 first symbol of the highest priority.
 */
module ProjectEntries {
  import opened Options
  import opened Snapshots

  datatype Documentation = Documentation(text: CString, range: Option<Range>, priority: nat)

  datatype Entry = Entry(name: CString, declaration: Range, documentation: Documentation, definitions: seq<Range>)

  const UNDOCUMENTED := Documentation("", None, 0)

  // Functions visible to other sources.
  predicate IsExported(s: Symbol) {
    s.kind == FunctionKind && s.scopeDepth == 0 && s.storageClass != "static"
  }

  function Exported(items: seq<Symbol>): seq<Symbol> {
    if items == [] then []
    else
      var before := Exported(items[..|items| - 1]);
      if IsExported(items[|items| - 1]) then before + [items[|items| - 1]] else before
  }

  predicate SameRange(a: Range, b: Range) {
    a.sourceName == b.sourceName && a.start.offset == b.start.offset && a.end.offset == b.end.offset
  }

  // ---------------------------------------------------------------- documentation

  predicate IsDocumentedByDefinition(s: Symbol) {
    && s.kind == FunctionKind && s.documentation != "" && s.documentationRange.Some? && s.definition.Some?
    && var (range, definition) := (s.documentationRange.value, s.definition.value);
       (SameRange(s.declaration, definition) ||
        (range.sourceName == definition.sourceName &&
         (s.declaration.sourceName != definition.sourceName || range.start.offset >= s.declaration.end.offset)))
  }

  // 2 for the documentation of a prototype, 1 for that of a definition, 0 for none.
  function Priority(s: Symbol): nat {
    if s.documentation == "" then 0 else if IsDocumentedByDefinition(s) then 1 else 2
  }

  function Document(d: Documentation, s: Symbol): Documentation {
    if s.documentation == "" || d.priority >= Priority(s) then d
    else Documentation(s.documentation, s.documentationRange, Priority(s))
  }

  // ---------------------------------------------------------------- definitions

  function DefinitionsOf(s: Symbol): seq<Range> {
    if s.candidates == [] && s.definition.Some? then [s.definition.value] else s.candidates
  }

  predicate Contains(ds: seq<Range>, r: Range) {
    exists i :: 0 <= i < |ds| && SameRange(ds[i], r)
  }

  function AddDefinition(ds: seq<Range>, r: Range): (es: seq<Range>)
    ensures |es| <= |ds| + 1 && ds <= es
  {
    if Contains(ds, r) then ds else ds + [r]
  }

  function AddDefinitions(ds: seq<Range>, rs: seq<Range>): (es: seq<Range>)
    ensures ds <= es
  {
    if rs == [] then ds else AddDefinition(AddDefinitions(ds, rs[..|rs| - 1]), rs[|rs| - 1])
  }

  // ---------------------------------------------------------------- what the symbols amount to

  function Names(symbols: seq<Symbol>): seq<CString> {
    if symbols == [] then []
    else
      var before, name := Names(symbols[..|symbols| - 1]), symbols[|symbols| - 1].name;
      if name in before then before else before + [name]
  }

  function DeclarationFor(symbols: seq<Symbol>, name: CString): Range
    requires name in Names(symbols)
  {
    if name in Names(symbols[..|symbols| - 1]) then DeclarationFor(symbols[..|symbols| - 1], name)
    else symbols[|symbols| - 1].declaration
  }

  function DocumentationFor(symbols: seq<Symbol>, name: CString): Documentation {
    if symbols == [] then UNDOCUMENTED
    else
      var before, s := DocumentationFor(symbols[..|symbols| - 1], name), symbols[|symbols| - 1];
      if s.name == name then Document(before, s) else before
  }

  function DefinitionsFor(symbols: seq<Symbol>, name: CString): seq<Range> {
    if symbols == [] then []
    else
      var before, s := DefinitionsFor(symbols[..|symbols| - 1], name), symbols[|symbols| - 1];
      if s.name == name then AddDefinitions(before, DefinitionsOf(s)) else before
  }

  function EntryFor(symbols: seq<Symbol>, name: CString): Entry
    requires name in Names(symbols)
  {
    Entry(name, DeclarationFor(symbols, name), DocumentationFor(symbols, name), DefinitionsFor(symbols, name))
  }

  function EntriesFor(symbols: seq<Symbol>, names: seq<CString>): (es: seq<Entry>)
    requires forall n <- names :: n in Names(symbols)
    ensures |es| == |names| && forall i :: 0 <= i < |es| ==> es[i] == EntryFor(symbols, names[i])
  {
    seq(|names|, i requires 0 <= i < |names| => EntryFor(symbols, names[i]))
  }

  // The index of a project: one entry a name, in order of appearance.
  function Entries(symbols: seq<Symbol>): seq<Entry> {
    EntriesFor(symbols, Names(symbols))
  }

  function DefinitionCount(functions: seq<Entry>): nat {
    if functions == [] then 0
    else DefinitionCount(functions[..|functions| - 1]) + |functions[|functions| - 1].definitions|
  }

  // ---------------------------------------------------------------- what an index is

  lemma {:induction false} NamesAreTheExported(symbols: seq<Symbol>, name: CString)
    ensures name in Names(symbols) <==> exists s <- symbols :: s.name == name
  {
    if symbols != [] {
      NamesAreTheExported(symbols[..|symbols| - 1], name);
      assert symbols == symbols[..|symbols| - 1] + [symbols[|symbols| - 1]];
    }
  }

  // Names do not repeat.
  lemma {:induction false} NamesAreDistinct(symbols: seq<Symbol>, i: nat, j: nat)
    requires i < j < |Names(symbols)|
    ensures Names(symbols)[i] != Names(symbols)[j]
  {
    if j < |Names(symbols[..|symbols| - 1])| {
      NamesAreDistinct(symbols[..|symbols| - 1], i, j);
    }
  }

  predicate AreDistinct(ds: seq<Range>) {
    forall i, j :: 0 <= i < j < |ds| ==> !SameRange(ds[i], ds[j])
  }

  lemma {:induction false} AddedDefinitions(ds: seq<Range>, rs: seq<Range>, r: Range)
    requires AreDistinct(ds)
    ensures AreDistinct(AddDefinitions(ds, rs))
    ensures Contains(AddDefinitions(ds, rs), r) <==> Contains(ds, r) || Contains(rs, r)
  {
    if rs != [] {
      var init, last := rs[..|rs| - 1], rs[|rs| - 1];
      AddedDefinitions(ds, init, r);
      ContainsBehind(init, last, r);
      ContainsBehind(AddDefinitions(ds, init), last, r);
      assert rs == init + [last];
      if SameRange(last, r) && Contains(AddDefinitions(ds, init), last) {
        ContainsSame(AddDefinitions(ds, init), last, r);
      }
    }
  }

  lemma ContainsBehind(ds: seq<Range>, x: Range, r: Range)
    ensures Contains(ds + [x], r) <==> Contains(ds, r) || SameRange(x, r)
  {
    var es := ds + [x];
    assert es[|ds|] == x;
    if Contains(ds, r) {
      var i :| 0 <= i < |ds| && SameRange(ds[i], r);
      assert SameRange(es[i], r);
    }
  }

  lemma ContainsSame(ds: seq<Range>, x: Range, r: Range)
    requires Contains(ds, x) && SameRange(x, r)
    ensures Contains(ds, r)
  {
    var i :| 0 <= i < |ds| && SameRange(ds[i], x);
    assert SameRange(ds[i], r);
  }

  // Every definition a symbol of the name brings is in the entry, no other is, and none twice.
  lemma {:induction false} DefinitionsAreTheUnion(symbols: seq<Symbol>, name: CString, r: Range)
    ensures AreDistinct(DefinitionsFor(symbols, name))
    ensures Contains(DefinitionsFor(symbols, name), r) <==> exists s <- symbols :: s.name == name && Contains(DefinitionsOf(s), r)
  {
    if symbols != [] {
      var init, last := symbols[..|symbols| - 1], symbols[|symbols| - 1];
      DefinitionsAreTheUnion(init, name, r);
      AddedDefinitions(DefinitionsFor(init, name), DefinitionsOf(last), r);
      assert symbols == init + [last];
    }
  }

  predicate IsFirstBest(symbols: seq<Symbol>, name: CString, i: nat)
    requires i < |symbols|
  {
    var s, d := symbols[i], DocumentationFor(symbols, name);
    && s.name == name
    && d == Documentation(s.documentation, s.documentationRange, Priority(s))
    && forall j :: 0 <= j < i && symbols[j].name == name ==> Priority(symbols[j]) < Priority(s)
  }

  // No symbol of the name has a higher priority than what is kept.
  lemma {:induction false} DocumentationIsBest(symbols: seq<Symbol>, name: CString)
    ensures forall s <- symbols :: s.name == name ==> Priority(s) <= DocumentationFor(symbols, name).priority
  {
    hide IsDocumentedByDefinition;
    if symbols != [] {
      var init, last := symbols[..|symbols| - 1], symbols[|symbols| - 1];
      DocumentationIsBest(init, name);
      assert symbols == init + [last];
    }
  }

  // The documentation is that of the first symbol of the name with the highest priority, if any
  // symbol of the name is documented.
  lemma {:induction false} DocumentationIsTheFirstBest(symbols: seq<Symbol>, name: CString)
    ensures forall s <- symbols :: s.name == name ==> Priority(s) <= DocumentationFor(symbols, name).priority
    ensures DocumentationFor(symbols, name) == UNDOCUMENTED || exists i :: 0 <= i < |symbols| && IsFirstBest(symbols, name, i)
  {
    hide Document;
    hide Priority;
    DocumentationIsBest(symbols, name);
    if symbols != [] {
      var init, last := symbols[..|symbols| - 1], symbols[|symbols| - 1];
      DocumentationIsTheFirstBest(init, name);
      if DocumentationFor(symbols, name) != DocumentationFor(init, name) {
        LastIsBest(symbols, name);
        assert IsFirstBest(symbols, name, |init|);
      } else if DocumentationFor(init, name) != UNDOCUMENTED {
        var i :| 0 <= i < |init| && IsFirstBest(init, name, i);
        assert IsFirstBest(symbols, name, i);
      }
    }
  }

  // A symbol that changes the documentation has a higher priority than all before it.
  lemma LastIsBest(symbols: seq<Symbol>, name: CString)
    requires symbols != [] && DocumentationFor(symbols, name) != DocumentationFor(symbols[..|symbols| - 1], name)
    ensures IsFirstBest(symbols, name, |symbols| - 1)
  {
    hide IsDocumentedByDefinition;
    var init := symbols[..|symbols| - 1];
    DocumentationIsBest(init, name);
    forall j | 0 <= j < |init| && symbols[j].name == name ensures Priority(symbols[j]) < Priority(symbols[|init|]) {
      assert symbols[j] == init[j] && init[j] in init;
    }
  }

  // ---------------------------------------------------------------- the same on the symbols

  // Every function visible to other sources is exported, and nothing else; no static function is.
  lemma {:induction false} ExportedIff(items: seq<Symbol>, s: Symbol)
    ensures s in Exported(items) <==>
      s in items && s.kind == FunctionKind && s.scopeDepth == 0 && s.storageClass != "static"
  {
    if items != [] {
      ExportedIff(items[..|items| - 1], s);
      assert items == items[..|items| - 1] + [items[|items| - 1]];
    }
  }

  // Two ranges are one where source, start and end are; lines and columns follow from these.
  lemma SameRangeIff(a: Range, b: Range)
    ensures SameRange(a, b) <==>
      a.sourceName == b.sourceName && a.start.offset == b.start.offset && a.end.offset == b.end.offset
  {}

  // An entry has the candidates of its symbols, and the single definition of a symbol without any.
  lemma DefinitionsAreThose(symbols: seq<Symbol>, name: CString, r: Range)
    ensures Contains(DefinitionsFor(symbols, name), r) <==>
      exists s <- symbols :: s.name == name &&
        (Contains(s.candidates, r) || (s.candidates == [] && s.definition.Some? && SameRange(s.definition.value, r)))
  {
    DefinitionsAreTheUnion(symbols, name, r);
    forall s: Symbol
      ensures Contains(DefinitionsOf(s), r) <==>
        Contains(s.candidates, r) || (s.candidates == [] && s.definition.Some? && SameRange(s.definition.value, r))
    {
      if s.candidates == [] && s.definition.Some? {
        ContainsBehind([], s.definition.value, r);
        assert [] + [s.definition.value] == [s.definition.value];
      }
    }
  }

  // The function is declared where it is defined, and documented there.
  predicate IsDefinedInPlace(s: Symbol) {
    && s.kind == FunctionKind && s.documentationRange.Some? && s.definition.Some?
    && s.declaration.sourceName == s.definition.value.sourceName
    && s.declaration.start.offset == s.definition.value.start.offset
    && s.declaration.end.offset == s.definition.value.end.offset
  }

  // The documentation of a prototype wins over that of a definition, wherever the two are found; the
  // first prototype wins over later ones.
  lemma PrototypeWins(symbols: seq<Symbol>, name: CString, i: nat) returns (k: nat)
    requires i < |symbols| && symbols[i].name == name && symbols[i].documentation != "" && symbols[i].definition.None?
    ensures k <= i && symbols[k].name == name && symbols[k].documentation != "" && !IsDefinedInPlace(symbols[k])
    ensures var d := DocumentationFor(symbols, name); d.text == symbols[k].documentation && d.range == symbols[k].documentationRange
    ensures forall j :: 0 <= j < k && symbols[j].name == name ==> symbols[j].documentation == "" || symbols[j].definition.Some?
  {
    DocumentationIsTheFirstBest(symbols, name);
    assert symbols[i] in symbols && Priority(symbols[i]) == 2;
    k :| k < |symbols| && IsFirstBest(symbols, name, k);
  }

  // Where nothing but definitions is documented, the first of them is kept; where nothing is, none.
  lemma DefinitionIsKept(symbols: seq<Symbol>, name: CString, i: nat)
    requires i < |symbols| && symbols[i].name == name && symbols[i].documentation != "" && IsDefinedInPlace(symbols[i])
    requires forall j :: 0 <= j < |symbols| && symbols[j].name == name && j != i ==>
      symbols[j].documentation == "" || (j > i && IsDefinedInPlace(symbols[j]))
    ensures
      var d := DocumentationFor(symbols, name);
      d.text == symbols[i].documentation && d.range == symbols[i].documentationRange
  {
    DocumentationIsTheFirstBest(symbols, name);
    assert symbols[i] in symbols && Priority(symbols[i]) == 1;
    var k :| 0 <= k < |symbols| && IsFirstBest(symbols, name, k);
    assert DocumentationFor(symbols, name).priority >= 1;
  }

  lemma {:induction false} UndocumentedStaysSo(symbols: seq<Symbol>, name: CString)
    requires forall s <- symbols :: s.name == name ==> s.documentation == ""
    ensures DocumentationFor(symbols, name) == UNDOCUMENTED
  {
    if symbols != [] {
      UndocumentedStaysSo(symbols[..|symbols| - 1], name);
      assert symbols[|symbols| - 1] in symbols;
    }
  }

  // The declaration of an entry is that of the first symbol of its name.
  lemma {:induction false} DeclarationIsTheFirst(symbols: seq<Symbol>, name: CString, i: nat)
    requires i < |symbols| && symbols[i].name == name && forall j :: 0 <= j < i ==> symbols[j].name != name
    ensures name in Names(symbols) && DeclarationFor(symbols, name) == symbols[i].declaration
    decreases |symbols|
  {
    var init := symbols[..|symbols| - 1];
    NamesAreTheExported(init, name);
    if i < |init| {
      DeclarationIsTheFirst(init, name, i);
    }
  }

  // ---------------------------------------------------------------- one more symbol

  // The entry of the name changes, or a new one comes last; the others stay.
  lemma OneMoreSymbol(symbols: seq<Symbol>, s: Symbol)
    ensures
      var name, after := s.name, Entries(symbols + [s]);
      if name in Names(symbols) then
        |after| == |Entries(symbols)| &&
        forall i :: 0 <= i < |after| ==>
          var e := Entries(symbols)[i];
          after[i] == if e.name != name then e
                      else
                        e.(documentation := Document(e.documentation, s),
                           definitions := AddDefinitions(e.definitions, DefinitionsOf(s)))
      else
        after == Entries(symbols) + [Entry(name, s.declaration, Document(UNDOCUMENTED, s), AddDefinitions([], DefinitionsOf(s)))]
  {
    hide Document;
    hide AddDefinitions;
    hide DefinitionsOf;
    var all := symbols + [s];
    assert all[..|all| - 1] == symbols && all[|all| - 1] == s;
    if s.name !in Names(symbols) {
      UnknownName(symbols, s.name);
    }
  }

  lemma {:induction false} UnknownName(symbols: seq<Symbol>, name: CString)
    requires name !in Names(symbols)
    ensures DocumentationFor(symbols, name) == UNDOCUMENTED && DefinitionsFor(symbols, name) == []
  {
    if symbols != [] {
      UnknownName(symbols[..|symbols| - 1], name);
    }
  }
}
