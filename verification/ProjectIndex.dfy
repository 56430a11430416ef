/**
 The project index: rebuilt as a whole for every new revision, and replaced only when every source
 was analyzed without an error and everything fits the limits.
 */
module ProjectIndexes {
  import opened Options
  import opened ProjectEntries
  import opened Snapshots
  import opened TargetInfo

  // ---------------------------------------------------------------- when merging fails

  datatype Outcome = Merged | OverLimit | NoMemory

  function DefinitionsOutcome(ds: seq<Range>, total: nat, rs: seq<Range>, max: nat): Outcome {
    if rs == [] then Merged
    else
      var before, es, r := DefinitionsOutcome(ds, total, rs[..|rs| - 1], max), AddDefinitions(ds, rs[..|rs| - 1]), rs[|rs| - 1];
      if before != Merged then before
      else if !Contains(es, r) && total + |es| - |ds| >= max then OverLimit
      else Merged
  }

  function FindEntry(functions: seq<Entry>, name: CString): (i: int)
    ensures i < 0 ==> forall e <- functions :: e.name != name
    ensures i >= 0 ==> i < |functions| && functions[i].name == name && forall e <- functions[..i] :: e.name != name
  {
    if functions == [] then -1
    else
      var i := FindEntry(functions[..|functions| - 1], name);
      if i >= 0 then i else if functions[|functions| - 1].name == name then |functions| - 1 else -1
  }

  function SymbolOutcome(functions: seq<Entry>, s: Symbol, max: nat): Outcome {
    var i := FindEntry(functions, s.name);
    if i < 0 && |functions| >= max then OverLimit
    else DefinitionsOutcome(if i < 0 then [] else functions[i].definitions, DefinitionCount(functions), DefinitionsOf(s), max)
  }

  // The first thing that goes wrong when `more` is merged behind `symbols`, memory left aside.
  function MergeOutcome(symbols: seq<Symbol>, more: seq<Symbol>, max: nat): Outcome {
    if more == [] then Merged
    else
      var before := MergeOutcome(symbols, more[..|more| - 1], max);
      if before != Merged then before
      else SymbolOutcome(Entries(symbols + more[..|more| - 1]), more[|more| - 1], max)
  }

  // ---------------------------------------------------------------- requests

  const SIZE_MAX := 0xFFFF_FFFF_FFFF_FFFF

  datatype Source = Source(name: Option<CString>, text: Option<string>)

  datatype Limits = Limits(maxSources: CInt, maxSourceBytes: nat, maxTotalSourceBytes: nat, maxSymbols: CInt)

  datatype Request = Request(revision: nat, sources: seq<Source>, limits: Limits)

  datatype Status = InvalidRequest | OutOfMemory | ResourceLimit | AnalysisFailure

  datatype Failure = Failure(status: Status, code: string, limit: string, max: nat, actual: nat)

  // What the analysis of one source comes to.
  datatype Analysis = NotAnalyzed(failure: Failure) | Analyzed(snapshot: Snapshot)

  const NO_MEMORY := Failure(OutOfMemory, "AGC_LANGUAGE_ANALYSIS_OUT_OF_MEMORY", "", 0, 0)

  function Invalid(code: string): Option<Failure> {
    Some(Failure(InvalidRequest, code, "", 0, 0))
  }

  function OverSize(code: string, limit: string, max: nat, actual: nat): Option<Failure> {
    Some(Failure(ResourceLimit, code, limit, max, actual))
  }

  // A limit of zero stands for the default.
  function WithDefaults(l: Limits): (m: Limits)
    ensures m.maxSources > 0 && m.maxSourceBytes > 0 && m.maxTotalSourceBytes > 0 && m.maxSymbols > 0
  {
    Limits(
      if l.maxSources <= 0 then 4096 else l.maxSources,
      if l.maxSourceBytes == 0 then 0x7FFF_FFFE else l.maxSourceBytes,
      if l.maxTotalSourceBytes == 0 then 0x7FFF_FFFF else l.maxTotalSourceBytes,
      if l.maxSymbols <= 0 then 4096 else l.maxSymbols)
  }

  predicate IsUsable(s: Source) {
    s.name.Some? && s.name.value != "" && s.text.Some? && '\0' !in s.text.value
  }

  function CheckSource(sources: seq<Source>, l: Limits, i: nat): Option<Failure>
    requires i < |sources|
  {
    if !IsUsable(sources[i]) then Invalid("AGC_LANGUAGE_ANALYSIS_INVALID_PROJECT_SOURCE")
    else if exists j :: 0 <= j < i && sources[j].name == sources[i].name then
      Invalid("AGC_LANGUAGE_ANALYSIS_DUPLICATE_PROJECT_SOURCE")
    else if |sources[i].text.value| > l.maxSourceBytes then
      OverSize("AGC_LIMIT_MAX_SOURCE_BYTES", "maxSourceBytes", l.maxSourceBytes, |sources[i].text.value|)
    else None
  }

  // Checking the sources from the `i`th on, `total` bytes behind.
  function CheckSources(sources: seq<Source>, l: Limits, i: nat, total: nat): Option<Failure>
    requires i <= |sources|
    decreases |sources| - i
  {
    if i < |sources| && CheckSource(sources, l, i).Some? then CheckSource(sources, l, i)
    else if i < |sources| && total + |sources[i].text.value| <= SIZE_MAX then
      CheckSources(sources, l, i + 1, total + |sources[i].text.value|)
    else
      var actual := if i < |sources| then SIZE_MAX else total;
      if actual > l.maxTotalSourceBytes then
        OverSize("AGC_LIMIT_MAX_TOTAL_SOURCE_BYTES", "maxTotalSourceBytes", l.maxTotalSourceBytes, actual)
      else None
  }

  function CheckRequest(r: Request): Option<Failure> {
    var l := WithDefaults(r.limits);
    if |r.sources| > l.maxSources then OverSize("AGC_LIMIT_MAX_SOURCES", "maxSources", l.maxSources, |r.sources|)
    else CheckSources(r.sources, l, 0, 0)
  }

  predicate IsUnique(sources: seq<Source>, i: nat)
    requires i < |sources|
  {
    forall j :: 0 <= j < i ==> sources[j].name != sources[i].name
  }

  function TotalBytes(sources: seq<Source>): nat {
    if sources == [] then 0 else (if sources[0].text.Some? then |sources[0].text.value| else 0) + TotalBytes(sources[1..])
  }

  // Sources pass exactly when they are usable, have different names, and are small enough one by
  // one and together; as long as the sum of their sizes is a size.
  lemma {:induction false} SourcesPassIff(sources: seq<Source>, l: Limits, i: nat, total: nat)
    requires i <= |sources| && total + TotalBytes(sources[i..]) <= SIZE_MAX
    ensures CheckSources(sources, l, i, total).None? <==>
      (forall j :: i <= j < |sources| ==>
        IsUsable(sources[j]) && IsUnique(sources, j) && |sources[j].text.value| <= l.maxSourceBytes) &&
      total + TotalBytes(sources[i..]) <= l.maxTotalSourceBytes
    decreases |sources| - i
  {
    hide IsUsable;
    if i < |sources| {
      assert sources[i..][1..] == sources[i + 1..];
      UsableText(sources[i]);
      assert CheckSource(sources, l, i).None? <==>
        IsUsable(sources[i]) && IsUnique(sources, i) && |sources[i].text.value| <= l.maxSourceBytes;
      if CheckSource(sources, l, i).None? {
        SourcesPassIff(sources, l, i + 1, total + |sources[i].text.value|);
      }
    }
  }

  lemma UsableText(s: Source)
    ensures IsUsable(s) ==> s.text.Some?
  {}

  // Few enough sources, all usable and of different names, and small enough one by one and together.
  predicate RequestPasses(r: Request) {
    var l := WithDefaults(r.limits);
    && |r.sources| <= l.maxSources && TotalBytes(r.sources) <= l.maxTotalSourceBytes
    && forall j :: 0 <= j < |r.sources| ==> SourcePasses(r.sources, l, j)
  }

  // A source has a name that no other before it has, and a text without a NUL that is not too long.
  predicate SourcePasses(sources: seq<Source>, l: Limits, i: nat)
    requires i < |sources|
  {
    var s := sources[i];
    && s.name.Some? && |s.name.value| > 0
    && s.text.Some? && (forall k :: 0 <= k < |s.text.value| ==> s.text.value[k] != '\0')
    && (forall j :: 0 <= j < i ==> sources[j].name != s.name)
    && |s.text.value| <= l.maxSourceBytes
  }

  // The limits that stand for zero or less.
  lemma DefaultsAre(l: Limits)
    ensures WithDefaults(Limits(0, 0, 0, 0)) == Limits(4096, 0x7FFF_FFFE, 0x7FFF_FFFF, 4096)
    ensures l.maxSources > 0 && l.maxSourceBytes > 0 && l.maxTotalSourceBytes > 0 && l.maxSymbols > 0 ==> WithDefaults(l) == l
  {}

  // What is reported of a request that does not pass: the first source that is unusable, has the name
  // of an earlier one, or is too long; else the sum of the sizes, and the number of sources before all.
  lemma RequestFailsAtFirst(r: Request, i: nat)
    requires TotalBytes(r.sources) <= SIZE_MAX && i <= |r.sources|
    requires forall j :: 0 <= j < i ==> SourcePasses(r.sources, WithDefaults(r.limits), j)
    ensures
      var l := WithDefaults(r.limits);
      if |r.sources| > l.maxSources then
        CheckRequest(r) == Some(Failure(ResourceLimit, "AGC_LIMIT_MAX_SOURCES", "maxSources", l.maxSources, |r.sources|))
      else if i == |r.sources| then
        CheckRequest(r) ==
        if TotalBytes(r.sources) > l.maxTotalSourceBytes then
          Some(Failure(ResourceLimit, "AGC_LIMIT_MAX_TOTAL_SOURCE_BYTES", "maxTotalSourceBytes", l.maxTotalSourceBytes,
            TotalBytes(r.sources)))
        else None
      else if !SourcePasses(r.sources, l, i) then
        var s := r.sources[i];
        CheckRequest(r) ==
        if s.name.None? || s.name.value == "" || s.text.None? || '\0' in s.text.value then
          Some(Failure(InvalidRequest, "AGC_LANGUAGE_ANALYSIS_INVALID_PROJECT_SOURCE", "", 0, 0))
        else if exists j :: 0 <= j < i && r.sources[j].name == s.name then
          Some(Failure(InvalidRequest, "AGC_LANGUAGE_ANALYSIS_DUPLICATE_PROJECT_SOURCE", "", 0, 0))
        else
          Some(Failure(ResourceLimit, "AGC_LIMIT_MAX_SOURCE_BYTES", "maxSourceBytes", l.maxSourceBytes, |s.text.value|))
      else true
  {
    var l := WithDefaults(r.limits);
    hide WithDefaults;
    hide SourcePasses;
    assert r.sources[0..] == r.sources;
    if |r.sources| <= l.maxSources {
      PassedSources(r.sources, l, 0, i, 0);
      var total := TotalBytes(r.sources) - TotalBytes(r.sources[i..]);
      if i == |r.sources| {
        assert r.sources[i..] == [];
      } else if !SourcePasses(r.sources, l, i) {
        hide CheckSources;
        hide TotalBytes;
        CheckHere(r.sources, l, i, total);
      }
    }
  }

  // Sources that pass are passed over.
  lemma {:induction false} PassedSources(sources: seq<Source>, l: Limits, i: nat, n: nat, total: nat)
    requires i <= n <= |sources| && total + TotalBytes(sources[i..]) <= SIZE_MAX
    requires forall j :: i <= j < n ==> SourcePasses(sources, l, j)
    ensures TotalBytes(sources[i..]) >= TotalBytes(sources[n..])
    ensures CheckSources(sources, l, i, total) == CheckSources(sources, l, n, total + TotalBytes(sources[i..]) - TotalBytes(sources[n..]))
    decreases n - i
  {
    hide SourcePasses;
    if i < n {
      assert sources[i..][1..] == sources[i + 1..];
      PassedHere(sources, l, i);
      assert sources[i..][0] == sources[i];
      assert TotalBytes(sources[i..]) == |sources[i].text.value| + TotalBytes(sources[i + 1..]);
      PassedSources(sources, l, i + 1, n, total + |sources[i].text.value|);
    }
  }

  lemma PassedHere(sources: seq<Source>, l: Limits, i: nat)
    requires i < |sources| && SourcePasses(sources, l, i)
    ensures CheckSource(sources, l, i) == None && sources[i].text.Some?
  {}

  lemma CheckHere(sources: seq<Source>, l: Limits, i: nat, total: nat)
    requires i < |sources| && !SourcePasses(sources, l, i)
    ensures CheckSources(sources, l, i, total) ==
      var s := sources[i];
      if s.name.None? || s.name.value == "" || s.text.None? || '\0' in s.text.value then
        Some(Failure(InvalidRequest, "AGC_LANGUAGE_ANALYSIS_INVALID_PROJECT_SOURCE", "", 0, 0))
      else if exists j :: 0 <= j < i && sources[j].name == s.name then
        Some(Failure(InvalidRequest, "AGC_LANGUAGE_ANALYSIS_DUPLICATE_PROJECT_SOURCE", "", 0, 0))
      else
        Some(Failure(ResourceLimit, "AGC_LIMIT_MAX_SOURCE_BYTES", "maxSourceBytes", l.maxSourceBytes, |s.text.value|))
  {}

  lemma RequestPassesIff(r: Request)
    requires TotalBytes(r.sources) <= SIZE_MAX
    ensures CheckRequest(r).None? <==> RequestPasses(r)
  {
    assert r.sources[0..] == r.sources;
    SourcesPassIff(r.sources, WithDefaults(r.limits), 0, 0);
    forall j | 0 <= j < |r.sources|
      ensures SourcePasses(r.sources, WithDefaults(r.limits), j) <==>
        IsUsable(r.sources[j]) && IsUnique(r.sources, j) && |r.sources[j].text.value| <= WithDefaults(r.limits).maxSourceBytes
    {
    }
  }

  // The loop that checks the sources.
  method CheckAll(r: Request) returns (failure: Option<Failure>)
    ensures failure == CheckRequest(r)
  {
    hide IsUsable;
    hide CheckSource;
    var l := WithDefaults(r.limits);
    if |r.sources| > l.maxSources {
      return OverSize("AGC_LIMIT_MAX_SOURCES", "maxSources", l.maxSources, |r.sources|);
    }
    var total: nat, i: nat := 0, 0;
    while i < |r.sources|
      invariant 0 <= i <= |r.sources| && total <= SIZE_MAX
      invariant CheckSources(r.sources, l, i, total) == CheckSources(r.sources, l, 0, 0)
    {
      failure := CheckOne(r.sources, l, i);
      if failure.Some? {
        return;
      }
      PassedHasText(r.sources, l, i);
      var length := |r.sources[i].text.value|;
      if length > SIZE_MAX - total {
        total := SIZE_MAX;
        break;
      }
      total := total + length;
      i := i + 1;
    }
    if total > l.maxTotalSourceBytes {
      return OverSize("AGC_LIMIT_MAX_TOTAL_SOURCE_BYTES", "maxTotalSourceBytes", l.maxTotalSourceBytes, total);
    }
    failure := None;
  }

  lemma PassedHasText(sources: seq<Source>, l: Limits, i: nat)
    requires i < |sources| && CheckSource(sources, l, i).None?
    ensures sources[i].text.Some?
  {}

  // One source, compared with all before it.
  method CheckOne(sources: seq<Source>, l: Limits, i: nat) returns (failure: Option<Failure>)
    requires i < |sources|
    ensures failure == CheckSource(sources, l, i)
  {
    hide IsUsable;
    UsableText(sources[i]);
    if !IsUsable(sources[i]) {
      return Invalid("AGC_LANGUAGE_ANALYSIS_INVALID_PROJECT_SOURCE");
    }
    var previous := 0;
    while previous < i
      invariant 0 <= previous <= i
      invariant forall j :: 0 <= j < previous ==> sources[j].name != sources[i].name
    {
      if sources[previous].name == sources[i].name {
        return Invalid("AGC_LANGUAGE_ANALYSIS_DUPLICATE_PROJECT_SOURCE");
      }
      previous := previous + 1;
    }
    var length := |sources[i].text.value|;
    if length > l.maxSourceBytes {
      return OverSize("AGC_LIMIT_MAX_SOURCE_BYTES", "maxSourceBytes", l.maxSourceBytes, length);
    }
    failure := None;
  }

  // ---------------------------------------------------------------- a whole rebuild

  // The code of the first error.
  function FirstErrorCode(ds: seq<Diagnostic>): Option<CString> {
    if ds == [] then None else if ds[0].severity == 1 then Some(ds[0].code) else FirstErrorCode(ds[1..])
  }

  // A code goes into a field of 48 characters.
  function CodeField(code: string): string {
    if |code| < 48 then code else code[..47]
  }

  // The exported symbols of all sources.
  function AllExported(analyses: seq<Analysis>): seq<Symbol> {
    if analyses == [] then []
    else
      var last := analyses[|analyses| - 1];
      AllExported(analyses[..|analyses| - 1]) + if last.Analyzed? then Exported(last.snapshot.items) else []
  }

  function SourceFailure(symbols: seq<Symbol>, a: Analysis, max: nat): Option<Failure> {
    match a
    case NotAnalyzed(failure) => Some(failure)
    case Analyzed(snapshot) =>
      var code := FirstErrorCode(snapshot.diagnostics);
      if code.Some? then Some(Failure(AnalysisFailure, CodeField(code.value), "", 0, 0))
      else
        match MergeOutcome(symbols, Exported(snapshot.items), max)
        case Merged => None
        case OverLimit => OverSize("AGC_LIMIT_MAX_ANALYSIS_SYMBOLS", "maxAnalysisSymbols", max, max + 1)
        case NoMemory => Some(NO_MEMORY)
  }

  function RebuildFailure(analyses: seq<Analysis>, max: nat): Option<Failure> {
    if analyses == [] then None
    else
      var before := RebuildFailure(analyses[..|analyses| - 1], max);
      if before.Some? then before
      else SourceFailure(AllExported(analyses[..|analyses| - 1]), analyses[|analyses| - 1], max)
  }

  // The failure of an update, none when it succeeds, as far as memory is granted.
  function UpdateFailure(r: Request, analyses: seq<Analysis>, committed: nat): Option<Failure> {
    if r.revision == 0 || r.sources == [] then Invalid("AGC_LANGUAGE_ANALYSIS_INVALID_PROJECT")
    else if committed == r.revision then None
    else if CheckRequest(r).Some? then CheckRequest(r)
    else RebuildFailure(analyses, WithDefaults(r.limits).maxSymbols)
  }

  // What an update comes to when no request for memory is refused.
  predicate UpdateSucceeds(r: Request, analyses: seq<Analysis>, committed: nat) {
    && r.revision != 0 && r.sources != []
    && (committed == r.revision ||
        (RequestPasses(r) && (forall a <- analyses :: a.Analyzed? && !HasError(a.snapshot.diagnostics)) &&
         WithinLimit(AllExported(analyses), WithDefaults(r.limits).maxSymbols)))
  }

  // ---------------------------------------------------------------- memory

  // Some request from the `from`th on is refused in front of the `to`th.
  ghost predicate Refused(grants: nat -> bool, from: nat, to: nat) {
    exists k: nat :: from <= k < to && !grants(k)
  }

  lemma RefusedInParts(grants: nat -> bool, a: nat, b: nat, c: nat)
    requires a <= b <= c
    ensures Refused(grants, a, c) <==> Refused(grants, a, b) || Refused(grants, b, c)
    ensures !Refused(grants, a, a) && (Refused(grants, a, a + 1) <==> !grants(a))
    ensures (forall k :: grants(k)) ==> !Refused(grants, a, c)
  {}

  // The allocator: `grants` says of every request for memory, in order, whether it is granted.
  class Memory {
    const grants: nat -> bool
    var asked: nat

    constructor (grants: nat -> bool)
      ensures this.grants == grants && asked == 0
    {
      this.grants, asked := grants, 0;
    }

    // Some request was refused since the first `from`.
    ghost predicate RefusedSince(from: nat)
      reads this
    {
      Refused(grants, from, asked)
    }

    method Allocate() returns (granted: bool)
      modifies this`asked
      ensures asked == old(asked) + 1 && granted == grants(old(asked))
    {
      granted := grants(asked);
      asked := asked + 1;
    }
  }

  // ---------------------------------------------------------------- the index

  class ProjectIndex {
    var revision: nat
    var functions: seq<Entry>
    var definitionCount: nat
    var valid: bool
    var pending: ProjectIndex?
    ghost var symbols: seq<Symbol>  // the exported symbols merged so far

    ghost predicate Holds(all: seq<Symbol>)
      reads this
    {
      symbols == all && functions == Entries(all) && definitionCount == DefinitionCount(functions)
    }

    constructor ()
      ensures Holds([]) && !valid && revision == 0 && pending == null
    {
      revision, functions, definitionCount, valid, pending, symbols := 0, [], 0, false, null, [];
    }

    method Clear()
      modifies this
      ensures Holds([]) && !valid && revision == old(revision) && pending == old(pending)
    {
      functions, definitionCount, valid, symbols := [], 0, false, [];
    }

    method AbortPending()
      modifies this`pending, pending
      requires pending != this
      ensures pending == null
    {
      if pending == null {
        return;
      }
      var p := pending;
      pending := null;
      p.Clear();
    }

    // The revision of a committed index, 0 before the first.
    function Revision(): nat
      reads this
    {
      if valid then revision else 0
    }

    method Find(name: CString) returns (i: int)
      ensures i == FindEntry(functions, name)
    {
      i := 0;
      while i < |functions|
        invariant 0 <= i <= |functions| && FindEntry(functions[..i], name) < 0
      {
        assert functions[..i + 1][..i] == functions[..i];
        if functions[i].name == name {
          FoundInPrefix(functions, name, i + 1);
          return;
        }
        i := i + 1;
      }
      assert functions[..i] == functions;
      i := -1;
    }

    // One definition of the `at`th function, unless it is there already.
    method AddDefinition(m: Memory, at: nat, r: Range, max: nat) returns (outcome: Outcome)
      requires at < |functions| && definitionCount == DefinitionCount(functions)
      modifies this`functions, this`definitionCount, m`asked
      ensures old(m.asked) <= m.asked && (m.RefusedSince(old(m.asked)) <==> outcome == NoMemory)
      ensures outcome != NoMemory ==>
        outcome == if !Contains(old(functions[at].definitions), r) && old(definitionCount) >= max then OverLimit else Merged
      ensures outcome == Merged ==>
        var entry := old(functions[at]);
        functions == old(functions)[at := entry.(definitions := ProjectEntries.AddDefinition(entry.definitions, r))]
      ensures outcome == Merged ==> definitionCount == DefinitionCount(functions)
      ensures outcome == Merged ==>
        definitionCount == old(definitionCount) + |functions[at].definitions| - |old(functions[at].definitions)|
    {
      var entry := functions[at];
      var i := 0;
      while i < |entry.definitions|
        invariant 0 <= i <= |entry.definitions|
        invariant forall j :: 0 <= j < i ==> !SameRange(entry.definitions[j], r)
      {
        if SameRange(entry.definitions[i], r) {
          assert functions == functions[at := entry];
          return Merged;
        }
        i := i + 1;
      }
      if definitionCount >= max {
        return OverLimit;
      }
      var granted := m.Allocate();
      if !granted {
        return NoMemory;
      }
      CountChanged(functions, at, entry.(definitions := entry.definitions + [r]));
      functions := functions[at := entry.(definitions := entry.definitions + [r])];
      definitionCount := definitionCount + 1;
      outcome := Merged;
    }

    method AddAll(m: Memory, at: nat, rs: seq<Range>, max: nat) returns (outcome: Outcome)
      requires at < |functions| && definitionCount == DefinitionCount(functions)
      modifies this`functions, this`definitionCount, m`asked
      ensures old(m.asked) <= m.asked && (m.RefusedSince(old(m.asked)) <==> outcome == NoMemory)
      ensures outcome != NoMemory ==> outcome == DefinitionsOutcome(old(functions[at].definitions), old(definitionCount), rs, max)
      ensures outcome == Merged ==>
        functions == old(functions)[at := old(functions[at]).(definitions := AddDefinitions(old(functions[at].definitions), rs))]
      ensures outcome == Merged ==> definitionCount == DefinitionCount(functions)
    {
      hide Refused;
      hide Contains;
      hide DefinitionCount;
      ghost var was, ds := functions, functions[at].definitions;
      var k := 0;
      RefusedInParts(m.grants, m.asked, m.asked, m.asked);
      assert rs[..0] == [] && functions == was[at := was[at].(definitions := ds)];
      while k < |rs|
        invariant 0 <= k <= |rs| && |functions| == |was|
        invariant functions == was[at := was[at].(definitions := AddDefinitions(ds, rs[..k]))]
        invariant DefinitionsOutcome(ds, old(definitionCount), rs[..k], max) == Merged
        invariant definitionCount == DefinitionCount(functions)
        invariant old(m.asked) <= m.asked && !m.RefusedSince(old(m.asked))
        invariant definitionCount == old(definitionCount) + |functions[at].definitions| - |ds|
      {
        assert rs[..k + 1][..k] == rs[..k] && rs[..k + 1][k] == rs[k];
        ghost var asked := m.asked;
        outcome := AddDefinition(m, at, rs[k], max);
        RefusedInParts(m.grants, old(m.asked), asked, m.asked);
        if outcome == NoMemory {
          return;
        }
        if outcome != Merged {
          StaysUnmerged(ds, old(definitionCount), rs, k + 1, max);
          return;
        }
        k := k + 1;
      }
      assert rs[..k] == rs;
      outcome := Merged;
    }

    // project_store_documentation
    method StoreDocumentation(m: Memory, at: nat, s: Symbol) returns (ok: bool)
      requires at < |functions| && definitionCount == DefinitionCount(functions)
      modifies this`functions, m`asked
      ensures old(m.asked) <= m.asked && (m.RefusedSince(old(m.asked)) <==> !ok)
      ensures ok ==>
        functions == old(functions)[at := old(functions[at]).(documentation := Document(old(functions[at].documentation), s))]
      ensures !ok ==> functions == old(functions)
      ensures definitionCount == DefinitionCount(functions)
    {
      hide IsDocumentedByDefinition;
      var entry := functions[at];
      if s.documentation == "" || entry.documentation.priority >= Priority(s) {
        assert functions == functions[at := entry];
        return true;
      }
      var granted := m.Allocate();
      if !granted {
        return false;
      }
      var documented := entry.(documentation := Documentation(s.documentation, s.documentationRange, Priority(s)));
      CountChanged(functions, at, documented);
      functions := functions[at := documented];
      ok := true;
    }

    // project_add_function, behind its limit
    method AddEntry(m: Memory, s: Symbol) returns (ok: bool)
      requires definitionCount == DefinitionCount(functions)
      modifies this`functions, m`asked
      ensures old(m.asked) <= m.asked && (m.RefusedSince(old(m.asked)) <==> !ok)
      ensures ok ==>
        functions == old(functions) + [Entry(s.name, s.declaration, Document(UNDOCUMENTED, s), [])]
      ensures !ok ==> functions == old(functions)
      ensures definitionCount == DefinitionCount(functions)
    {
      var granted := m.Allocate();
      if !granted {
        return false;
      }
      ghost var was := functions;
      functions := functions + [Entry(s.name, s.declaration, UNDOCUMENTED, [])];
      assert functions[..|functions| - 1] == was;
      ok := StoreDocumentation(m, |functions| - 1, s);
      if !ok {
        functions := functions[..|functions| - 1];
        assert functions == was;
      }
    }

    // The entry of the symbol's name, made if there is none.
    method FindOrAdd(m: Memory, s: Symbol, max: nat) returns (outcome: Outcome, at: nat)
      requires definitionCount == DefinitionCount(functions)
      modifies this`functions, m`asked
      ensures old(m.asked) <= m.asked && (m.RefusedSince(old(m.asked)) <==> outcome == NoMemory)
      ensures outcome != NoMemory ==>
        var was, i := old(functions), FindEntry(old(functions), s.name);
        if i >= 0 then outcome == Merged && at == i && functions == was
        else if |was| >= max then outcome == OverLimit
        else
          outcome == Merged && at == |was| &&
          functions == was + [Entry(s.name, s.declaration, Document(UNDOCUMENTED, s), [])]
      ensures definitionCount == DefinitionCount(functions)
    {
      hide Document;
      at := 0;
      var i := Find(s.name);
      if i < 0 && |functions| >= max {
        return OverLimit, at;
      }
      if i < 0 {
        at := |functions|;
        var added := AddEntry(m, s);
        outcome := if added then Merged else NoMemory;
        return;
      }
      return Merged, i;
    }

    // One exported symbol: its entry is found or made, then documented and given its definitions.
    method MergeSymbol(m: Memory, s: Symbol, max: nat) returns (outcome: Outcome)
      requires Holds(symbols)
      modifies this`functions, this`definitionCount, this`symbols, m`asked
      ensures old(m.asked) <= m.asked && (m.RefusedSince(old(m.asked)) <==> outcome == NoMemory)
      ensures outcome != NoMemory ==> outcome == SymbolOutcome(old(functions), s, max)
      ensures outcome == Merged ==> Holds(old(symbols) + [s])
    {
      hide Document;
      hide AddDefinitions;
      hide DefinitionsOutcome;
      hide DefinitionCount;
      hide Entries;
      hide FindEntry;
      DocumentTwice(s);
      ghost var was := functions;
      var at: nat;
      outcome, at := FindOrAdd(m, s, max);
      if outcome != Merged {
        return;
      }
      ghost var found := functions;
      var documented := StoreDocumentation(m, at, s);
      if !documented {
        return NoMemory;
      }
      ghost var withText := functions;
      var rs := if |s.candidates| == 0 && s.definition.Some? then [s.definition.value] else s.candidates;
      outcome := AddAll(m, at, rs, max);
      if outcome == Merged {
        EntryPlaced(symbols, s, found, withText, functions, at);
        symbols := symbols + [s];
      }
    }

    // project_merge_snapshot
    method Merge(m: Memory, items: seq<Symbol>, max: nat) returns (outcome: Outcome)
      requires Holds(symbols)
      modifies this`functions, this`definitionCount, this`symbols, m`asked
      ensures old(m.asked) <= m.asked && (m.RefusedSince(old(m.asked)) <==> outcome == NoMemory)
      ensures outcome != NoMemory ==> outcome == MergeOutcome(old(symbols), Exported(items), max)
      ensures outcome == Merged ==> Holds(old(symbols) + Exported(items))
    {
      hide SymbolOutcome;
      hide MergeOutcome;
      hide Exported;
      hide Entries;
      hide DefinitionCount;
      hide IsExported;
      var i := 0;
      NothingMerged(old(symbols), items, max);
      while i < |items|
        invariant 0 <= i <= |items|
        invariant MergeOutcome(old(symbols), Exported(items[..i]), max) == Merged
        invariant Holds(old(symbols) + Exported(items[..i]))
        invariant old(m.asked) <= m.asked && !m.RefusedSince(old(m.asked))
      {
        var s := items[i];
        MergeStep(old(symbols), items, i, max);
        if !IsExported(s) {
          i := i + 1;
          continue;
        }
        outcome := MergeSymbol(m, s, max);
        if outcome == NoMemory {
          return;
        }
        if outcome != Merged {
          StaysFailed(old(symbols), items, i + 1, max);
          return;
        }
        i := i + 1;
      }
      assert items[..i] == items;
      outcome := Merged;
    }

    // ag_language_project_index_update: all or nothing, whenever memory runs out.
    method Update(m: Memory, r: Request, analyses: seq<Analysis>) returns (failure: Option<Failure>)
      requires Holds(symbols) && pending != this && |analyses| == |r.sources|
      modifies this, pending, m`asked
      ensures pending == null
      ensures old(m.asked) <= m.asked
      ensures failure == if m.RefusedSince(old(m.asked)) then Some(NO_MEMORY) else UpdateFailure(r, analyses, old(Revision()))
      ensures (forall k :: m.grants(k)) ==> failure == UpdateFailure(r, analyses, old(Revision()))
      ensures
        if failure.Some? || old(Revision()) == r.revision then
          functions == old(functions) && definitionCount == old(definitionCount) &&
          revision == old(revision) && valid == old(valid) && Holds(old(symbols))
        else
          valid && revision == r.revision && Holds(AllExported(analyses))
    {
      hide CheckRequest;
      hide RebuildFailure;
      hide AllExported;
      hide WithDefaults;
      hide Entries;
      hide DefinitionCount;
      hide Refused;
      RefusedInParts(m.grants, m.asked, m.asked, m.asked);
      AbortPending();
      if r.revision == 0 || |r.sources| == 0 {
        return Invalid("AGC_LANGUAGE_ANALYSIS_INVALID_PROJECT");
      }
      if valid && revision == r.revision {
        return None;
      }
      failure := CheckAll(r);
      if failure.Some? {
        return;
      }
      ghost var asked := m.asked;
      RefusedInParts(m.grants, asked, asked, asked);
      var granted := m.Allocate();
      RefusedInParts(m.grants, asked, asked + 1, asked + 1);
      if !granted {
        return Some(NO_MEMORY);
      }
      var next := new ProjectIndex();
      next.revision := r.revision;
      pending := next;
      failure := next.Rebuild(m, analyses, WithDefaults(r.limits).maxSymbols);
      RefusedInParts(m.grants, asked, asked + 1, m.asked);
      if failure.Some? {
        AbortPending();
        return;
      }
      pending := null;
      Commit(next);
    }

    // The index becomes the one that was built beside it.
    method Commit(next: ProjectIndex)
      requires next != this && next.Holds(next.symbols)
      modifies this
      ensures Holds(next.symbols) && valid && revision == next.revision && pending == null
    {
      hide Entries;
      hide DefinitionCount;
      Clear();
      revision, functions, definitionCount, symbols := next.revision, next.functions, next.definitionCount, next.symbols;
      pending, valid := null, true;
    }

    // Merges the analyses one after the other until one fails.
    method Rebuild(m: Memory, analyses: seq<Analysis>, max: nat) returns (failure: Option<Failure>)
      requires Holds([])
      modifies this`functions, this`definitionCount, this`symbols, m`asked
      ensures old(m.asked) <= m.asked
      ensures failure == if m.RefusedSince(old(m.asked)) then Some(NO_MEMORY) else RebuildFailure(analyses, max)
      ensures failure.None? ==> Holds(AllExported(analyses))
    {
      hide MergeOutcome;
      hide Entries;
      hide DefinitionCount;
      hide Exported;
      var i := 0;
      assert analyses[..0] == [];
      while i < |analyses|
        invariant 0 <= i <= |analyses|
        invariant RebuildFailure(analyses[..i], max).None?
        invariant Holds(AllExported(analyses[..i]))
        invariant old(m.asked) <= m.asked && !m.RefusedSince(old(m.asked))
      {
        assert analyses[..i + 1][..i] == analyses[..i] && analyses[..i + 1][i] == analyses[i];
        failure := MergeSource(m, analyses[i], max);
        if failure.Some? {
          if !m.RefusedSince(old(m.asked)) {
            StaysBroken(analyses, i + 1, max);
          }
          return;
        }
        i := i + 1;
      }
      assert analyses[..i] == analyses;
      failure := None;
    }

    method MergeSource(m: Memory, a: Analysis, max: nat) returns (failure: Option<Failure>)
      requires Holds(symbols)
      modifies this`functions, this`definitionCount, this`symbols, m`asked
      ensures old(m.asked) <= m.asked
      ensures failure == if m.RefusedSince(old(m.asked)) then Some(NO_MEMORY) else SourceFailure(old(symbols), a, max)
      ensures failure.None? ==> Holds(old(symbols) + if a.Analyzed? then Exported(a.snapshot.items) else [])
    {
      hide MergeOutcome;
      hide Entries;
      hide DefinitionCount;
      hide Exported;
      match a {
        case NotAnalyzed(f) => failure := Some(f);
        case Analyzed(snapshot) =>
          var diagnostics := snapshot.diagnostics;
          var code: Option<CString> := None;
          var i := 0;
          assert diagnostics[0..] == diagnostics;
          while i < |diagnostics|
            invariant 0 <= i <= |diagnostics| && FirstErrorCode(diagnostics[i..]) == FirstErrorCode(diagnostics)
            invariant symbols == old(symbols) && Holds(symbols) && code == None
            invariant old(m.asked) <= m.asked && !m.RefusedSince(old(m.asked))
          {
            assert diagnostics[i..][1..] == diagnostics[i + 1..];
            if diagnostics[i].severity == 1 {
              code := Some(diagnostics[i].code);
              break;
            }
            i := i + 1;
          }
          assert code == FirstErrorCode(diagnostics);
          if code.Some? {
            return Some(Failure(AnalysisFailure, CodeField(code.value), "", 0, 0));
          }
          var outcome := Merge(m, snapshot.items, max);
          match outcome {
            case Merged => failure := None;
            case OverLimit => failure := OverSize("AGC_LIMIT_MAX_ANALYSIS_SYMBOLS", "maxAnalysisSymbols", max, max + 1);
            case NoMemory => failure := Some(NO_MEMORY);
          }
      }
    }
  }

  lemma NothingMerged(symbols: seq<Symbol>, items: seq<Symbol>, max: nat)
    ensures Exported(items[..0]) == [] && MergeOutcome(symbols, Exported(items[..0]), max) == Merged
    ensures symbols + Exported(items[..0]) == symbols
  {}

  // One more symbol of a snapshot: merged behind the others if it is exported, passed over if not.
  lemma MergeStep(symbols: seq<Symbol>, items: seq<Symbol>, i: nat, max: nat)
    requires i < |items| && MergeOutcome(symbols, Exported(items[..i]), max) == Merged
    ensures
      var before, after := Exported(items[..i]), Exported(items[..i + 1]);
      if IsExported(items[i]) then
        symbols + after == symbols + before + [items[i]] &&
        MergeOutcome(symbols, after, max) == SymbolOutcome(Entries(symbols + before), items[i], max)
      else after == before
  {
    hide SymbolOutcome;
    hide Entries;
    hide IsExported;
    assert items[..i + 1][..i] == items[..i] && items[..i + 1][i] == items[i];
    var before, after := Exported(items[..i]), Exported(items[..i + 1]);
    if IsExported(items[i]) {
      assert after == before + [items[i]] && after[..|after| - 1] == before;
    }
  }

  lemma {:induction false} StaysUnmerged(ds: seq<Range>, total: nat, rs: seq<Range>, n: nat, max: nat)
    requires n <= |rs| && DefinitionsOutcome(ds, total, rs[..n], max) != Merged
    ensures DefinitionsOutcome(ds, total, rs, max) == DefinitionsOutcome(ds, total, rs[..n], max)
    decreases |rs|
  {
    if n < |rs| {
      assert rs[..|rs| - 1][..n] == rs[..n];
      StaysUnmerged(ds, total, rs[..|rs| - 1], n, max);
    } else {
      assert rs[..n] == rs;
    }
  }

  lemma {:induction false} StaysBroken(analyses: seq<Analysis>, n: nat, max: nat)
    requires n <= |analyses| && RebuildFailure(analyses[..n], max).Some?
    ensures RebuildFailure(analyses, max) == RebuildFailure(analyses[..n], max)
    decreases |analyses|
  {
    if n < |analyses| {
      assert analyses[..|analyses| - 1][..n] == analyses[..n];
      StaysBroken(analyses[..|analyses| - 1], n, max);
    } else {
      assert analyses[..n] == analyses;
    }
  }

  lemma {:induction false} StaysFailed(symbols: seq<Symbol>, items: seq<Symbol>, n: nat, max: nat)
    requires n <= |items| && MergeOutcome(symbols, Exported(items[..n]), max) != Merged
    ensures MergeOutcome(symbols, Exported(items), max) == MergeOutcome(symbols, Exported(items[..n]), max)
    decreases |items|
  {
    if n < |items| {
      var init := items[..|items| - 1];
      assert init[..n] == items[..n];
      StaysFailed(symbols, init, n, max);
      var more := Exported(init) + [items[|items| - 1]];
      assert more[..|more| - 1] == Exported(init);
    } else {
      assert items[..n] == items;
    }
  }

  // The entry that was found or appended, documented and given its definitions, is what the next
  // index has in its place.
  lemma EntryPlaced(symbols: seq<Symbol>, s: Symbol, found: seq<Entry>, documented: seq<Entry>, functions: seq<Entry>,
      at: nat)
    requires at < |found|
    requires
      var was, i := Entries(symbols), FindEntry(Entries(symbols), s.name);
      if i >= 0 then at == i && found == was
      else at == |was| && found == was + [Entry(s.name, s.declaration, Document(UNDOCUMENTED, s), [])]
    requires documented == found[at := found[at].(documentation := Document(found[at].documentation, s))]
    requires
      functions == documented[at := documented[at].(definitions := AddDefinitions(documented[at].definitions, DefinitionsOf(s)))]
    ensures functions == Entries(symbols + [s])
  {
    hide Document;
    hide AddDefinitions;
    hide DefinitionsOf;
    OneMoreSymbol(symbols, s);
    DocumentTwice(s);
    var was, name := Entries(symbols), s.name;
    if FindEntry(was, s.name) >= 0 {
      assert Names(symbols)[at] == name;
      forall i | 0 <= i < |was| && i != at ensures was[i].name != name {
        if i < at {
          NamesAreDistinct(symbols, i, at);
        } else {
          NamesAreDistinct(symbols, at, i);
        }
      }
    }
  }

  lemma DocumentTwice(s: Symbol)
    ensures Document(Document(UNDOCUMENTED, s), s) == Document(UNDOCUMENTED, s)
  {}

  lemma {:induction false} FoundInPrefix(functions: seq<Entry>, name: CString, n: nat)
    requires n <= |functions| && FindEntry(functions[..n], name) >= 0
    ensures FindEntry(functions, name) == FindEntry(functions[..n], name)
    decreases |functions|
  {
    if n < |functions| {
      assert functions[..|functions| - 1][..n] == functions[..n];
      FoundInPrefix(functions[..|functions| - 1], name, n);
    } else {
      assert functions[..n] == functions;
    }
  }

  lemma {:induction false} CountChanged(functions: seq<Entry>, at: nat, e: Entry)
    requires at < |functions|
    ensures DefinitionCount(functions[at := e]) == DefinitionCount(functions) + |e.definitions| - |functions[at].definitions|
  {
    var after := functions[at := e];
    if at < |functions| - 1 {
      CountChanged(functions[..|functions| - 1], at, e);
      assert after[..|functions| - 1] == functions[..|functions| - 1][at := e];
    } else {
      assert after[..|functions| - 1] == functions[..|functions| - 1];
    }
  }

  // ---------------------------------------------------------------- when everything fits

  lemma {:induction false} DefinitionsMergedIff(ds: seq<Range>, total: nat, rs: seq<Range>, max: nat)
    requires |ds| <= total <= max
    ensures DefinitionsOutcome(ds, total, rs, max) == Merged <==>
      total + |AddDefinitions(ds, rs)| - |ds| <= max
  {
    if rs != [] {
      var init := rs[..|rs| - 1];
      DefinitionsMergedIff(ds, total, init, max);
      assert rs == init + [rs[|rs| - 1]];
    }
  }

  // One symbol merges exactly when the index with it is within the limit.
  lemma SymbolMergedIff(symbols: seq<Symbol>, s: Symbol, max: nat)
    requires |Names(symbols)| <= max && DefinitionCount(Entries(symbols)) <= max
    ensures SymbolOutcome(Entries(symbols), s, max) == Merged <==>
      |Names(symbols + [s])| <= max && DefinitionCount(Entries(symbols + [s])) <= max
  {
    hide Document;
    hide AddDefinitions;
    hide DefinitionsOf;
    hide DefinitionsOutcome;
    var was := Entries(symbols);
    var i := FindEntry(was, s.name);
    NameIsFound(symbols, s.name);
    var ds := if i < 0 then [] else was[i].definitions;
    CountWithSymbol(symbols, s);
    CountAtLeast(was, i);
    DefinitionsMergedIff(ds, DefinitionCount(was), DefinitionsOf(s), max);
  }

  lemma NameIsFound(symbols: seq<Symbol>, name: CString)
    ensures
      var i := FindEntry(Entries(symbols), name);
      if name in Names(symbols) then
        i >= 0 && Names(symbols)[i] == name && Entries(symbols)[i] == EntryFor(symbols, name)
      else i < 0
  {
    var was, names := Entries(symbols), Names(symbols);
    if name in names {
      var i :| 0 <= i < |names| && names[i] == name;
      assert was[i] in was;
    }
  }

  lemma {:induction false} CountAtLeast(functions: seq<Entry>, i: int)
    requires i < |functions|
    ensures i >= 0 ==> |functions[i].definitions| <= DefinitionCount(functions)
    decreases |functions|
  {
    if 0 <= i < |functions| - 1 {
      CountAtLeast(functions[..|functions| - 1], i);
    }
  }

  // A symbol adds its name, if new, and its definitions that are new.
  lemma CountWithSymbol(symbols: seq<Symbol>, s: Symbol)
    ensures
      var was, i := Entries(symbols), FindEntry(Entries(symbols), s.name);
      var ds := if i < 0 then [] else was[i].definitions;
      && |Names(symbols + [s])| == |was| + (if i < 0 then 1 else 0)
      && DefinitionCount(Entries(symbols + [s])) == DefinitionCount(was) + |AddDefinitions(ds, DefinitionsOf(s))| - |ds|
  {
    hide Document;
    hide AddDefinitions;
    hide DefinitionsOf;
    var was, i := Entries(symbols), FindEntry(Entries(symbols), s.name);
    var found := if i < 0 then was + [Entry(s.name, s.declaration, Document(UNDOCUMENTED, s), [])] else was;
    var at := if i < 0 then |was| else i;
    assert i < 0 ==> found[..|found| - 1] == was;
    var documented := found[at := found[at].(documentation := Document(found[at].documentation, s))];
    CountChanged(found, at, documented[at]);
    var functions := documented[at := documented[at].(definitions := AddDefinitions(documented[at].definitions, DefinitionsOf(s)))];
    CountChanged(documented, at, functions[at]);
    EntryPlaced(symbols, s, found, documented, functions, at);
    assert |functions| == |Names(symbols + [s])|;
  }

  predicate WithinLimit(symbols: seq<Symbol>, max: nat) {
    |Names(symbols)| <= max && DefinitionCount(Entries(symbols)) <= max
  }

  // Everything merges exactly when the whole index is within the limit.
  lemma {:induction false} AllMergedIff(symbols: seq<Symbol>, max: nat)
    ensures MergeOutcome([], symbols, max) == if WithinLimit(symbols, max) then Merged else OverLimit
  {
    hide SymbolOutcome;
    hide Names;
    hide Entries;
    hide DefinitionCount;
    NothingIsWithinLimit(max);
    if symbols != [] {
      var init, last := symbols[..|symbols| - 1], symbols[|symbols| - 1];
      AllMergedIff(init, max);
      assert [] + init == init && init + [last] == symbols;
      if WithinLimit(init, max) {
        SymbolMergedIff(init, last, max);
        NeverWithoutMemory(Entries(init), last, max);
      } else {
        CountsGrow(init, last);
      }
    }
  }

  lemma NothingIsWithinLimit(max: nat)
    ensures WithinLimit([], max)
  {}

  lemma CountsGrow(symbols: seq<Symbol>, s: Symbol)
    ensures |Names(symbols)| <= |Names(symbols + [s])|
    ensures DefinitionCount(Entries(symbols)) <= DefinitionCount(Entries(symbols + [s]))
  {
    CountWithSymbol(symbols, s);
  }

  lemma NeverWithoutMemory(functions: seq<Entry>, s: Symbol, max: nat)
    ensures SymbolOutcome(functions, s, max) != NoMemory
  {
    hide DefinitionsOf;
    var i := FindEntry(functions, s.name);
    DefinitionsMergedOrNot(if i < 0 then [] else functions[i].definitions, DefinitionCount(functions), DefinitionsOf(s), max);
  }

  lemma {:induction false} DefinitionsMergedOrNot(ds: seq<Range>, total: nat, rs: seq<Range>, max: nat)
    ensures DefinitionsOutcome(ds, total, rs, max) != NoMemory
  {
    if rs != [] {
      DefinitionsMergedOrNot(ds, total, rs[..|rs| - 1], max);
    }
  }

  // Merging source by source is merging all their symbols.
  lemma {:induction false} MergeInParts(a: seq<Symbol>, b: seq<Symbol>, max: nat)
    ensures MergeOutcome([], a + b, max) ==
      if MergeOutcome([], a, max) == Merged then MergeOutcome(a, b, max) else MergeOutcome([], a, max)
  {
    hide SymbolOutcome;
    if b == [] {
      assert a + b == a;
    } else {
      var init := b[..|b| - 1];
      MergeInParts(a, init, max);
      assert (a + b)[..|a + b| - 1] == a + init && (a + b)[|a + b| - 1] == b[|b| - 1];
      assert [] + (a + init) == a + init;
    }
  }

  predicate IsClean(a: Analysis) {
    a.Analyzed? && FirstErrorCode(a.snapshot.diagnostics).None?
  }

  lemma SourceIsMerge(symbols: seq<Symbol>, a: Analysis, max: nat)
    ensures SourceFailure(symbols, a, max).None? <==>
      IsClean(a) && MergeOutcome(symbols, Exported(a.snapshot.items), max) == Merged
  {
    hide MergeOutcome;
    hide FirstErrorCode;
  }

  lemma {:induction false} RebuildIsMerge(analyses: seq<Analysis>, max: nat)
    ensures RebuildFailure(analyses, max).None? <==>
      (forall a <- analyses :: IsClean(a)) && MergeOutcome([], AllExported(analyses), max) == Merged
  {
    hide MergeOutcome;
    hide Exported;
    hide SourceFailure;
    hide FirstErrorCode;
    if analyses == [] {
      MergeNothing(max);
    } else {
      var init, last := analyses[..|analyses| - 1], analyses[|analyses| - 1];
      RebuildIsMerge(init, max);
      SourceIsMerge(AllExported(init), last, max);
      assert analyses == init + [last];
      assert (forall a <- analyses :: IsClean(a)) <==> (forall a <- init :: IsClean(a)) && IsClean(last);
      if IsClean(last) {
        MergeInParts(AllExported(init), Exported(last.snapshot.items), max);
      }
    }
  }

  lemma MergeNothing(max: nat)
    ensures MergeOutcome([], [], max) == Merged
  {}

  // ---------------------------------------------------------------- what holds an update up

  predicate HasError(ds: seq<Diagnostic>) {
    exists d <- ds :: d.severity == 1
  }

  predicate IsFirstError(ds: seq<Diagnostic>, i: int) {
    0 <= i < |ds| && ds[i].severity == 1 && forall j :: 0 <= j < i ==> ds[j].severity != 1
  }

  // The first error decides, whatever its code is.
  lemma {:induction false} FirstErrorDecides(ds: seq<Diagnostic>)
    ensures FirstErrorCode(ds).Some? <==> HasError(ds)
    ensures forall i :: IsFirstError(ds, i) ==> FirstErrorCode(ds) == Some(ds[i].code)
  {
    if ds != [] {
      var rest := ds[1..];
      FirstErrorDecides(rest);
      assert ds == [ds[0]] + rest;
      forall i | IsFirstError(ds, i) ensures FirstErrorCode(ds) == Some(ds[i].code) {
        if i > 0 {
          assert IsFirstError(rest, i - 1);
        }
      }
    }
  }

  // With memory, an update that gets as far as the analyses succeeds exactly when every source was
  // analyzed, without an error, and neither the names nor the definitions are too many.
  lemma RebuildSucceedsIff(analyses: seq<Analysis>, max: nat)
    ensures RebuildFailure(analyses, max).None? <==>
      (forall a <- analyses :: a.Analyzed? && !HasError(a.snapshot.diagnostics)) && WithinLimit(AllExported(analyses), max)
  {
    hide MergeOutcome;
    hide WithinLimit;
    hide FirstErrorCode;
    RebuildIsMerge(analyses, max);
    AllMergedIff(AllExported(analyses), max);
    forall a <- analyses ensures IsClean(a) <==> a.Analyzed? && !HasError(a.snapshot.diagnostics) {
      if a.Analyzed? {
        FirstErrorDecides(a.snapshot.diagnostics);
      }
    }
  }

  // With memory, an update succeeds exactly when the request is one, and the index is of that revision
  // already or the request passes, every source was analyzed without an error, and the whole index is
  // within the limit.
  lemma UpdateSucceedsIff(r: Request, analyses: seq<Analysis>, committed: nat)
    requires TotalBytes(r.sources) <= SIZE_MAX
    ensures UpdateFailure(r, analyses, committed).None? <==> UpdateSucceeds(r, analyses, committed)
  {
    hide CheckRequest;
    hide RequestPasses;
    hide RebuildFailure;
    hide WithinLimit;
    hide HasError;
    hide AllExported;
    RequestPassesIff(r);
    RebuildSucceedsIff(analyses, WithDefaults(r.limits).maxSymbols);
  }

  // The first source that holds an update up decides what is reported: the failure of its analysis,
  // the code of its first error, or the limit. Lack of memory is never reported for another reason.
  lemma {:induction false} RebuildFailsAtFirst(analyses: seq<Analysis>, max: nat, i: nat)
    requires i < |analyses|
    requires forall j :: 0 <= j < i ==> IsClean(analyses[j])
    requires WithinLimit(AllExported(analyses[..i]), max)
    ensures
      var a := analyses[i];
      && (a.NotAnalyzed? ==> RebuildFailure(analyses, max) == Some(a.failure))
      && (a.Analyzed? && FirstErrorCode(a.snapshot.diagnostics).Some? ==>
        RebuildFailure(analyses, max) ==
        (var code := FirstErrorCode(a.snapshot.diagnostics).value;
         Some(Failure(AnalysisFailure, if |code| <= 47 then code else code[..47], "", 0, 0))))
      && (IsClean(a) && !WithinLimit(AllExported(analyses[..i + 1]), max) ==>
        RebuildFailure(analyses, max) == OverSize("AGC_LIMIT_MAX_ANALYSIS_SYMBOLS", "maxAnalysisSymbols", max, max + 1))
  {
    hide MergeOutcome;
    hide WithinLimit;
    hide Exported;
    hide FirstErrorCode;
    var a, init, upTo := analyses[i], analyses[..i], analyses[..i + 1];
    assert upTo[..i] == init && upTo[i] == a;
    RebuildIsMerge(init, max);
    AllMergedIff(AllExported(init), max);
    if a.Analyzed? {
      FirstErrorDecides(a.snapshot.diagnostics);
      MergeInParts(AllExported(init), Exported(a.snapshot.items), max);
      AllMergedIff(AllExported(upTo), max);
    }
    if RebuildFailure(upTo, max).Some? {
      StaysBroken(analyses, i + 1, max);
    }
  }

  lemma {:induction false} OnlyAnalysesLackMemory(analyses: seq<Analysis>, max: nat)
    ensures RebuildFailure(analyses, max).Some? && RebuildFailure(analyses, max).value.status == OutOfMemory ==>
      exists a <- analyses :: a.NotAnalyzed? && a.failure == RebuildFailure(analyses, max).value
  {
    hide MergeOutcome;
    hide FirstErrorCode;
    hide Exported;
    if analyses != [] {
      var init, last := analyses[..|analyses| - 1], analyses[|analyses| - 1];
      OnlyAnalysesLackMemory(init, max);
      assert analyses == init + [last];
      if last.Analyzed? {
        MergeHasMemory(AllExported(init), Exported(last.snapshot.items), max);
      }
    }
  }

  lemma {:induction false} MergeHasMemory(symbols: seq<Symbol>, more: seq<Symbol>, max: nat)
    ensures MergeOutcome(symbols, more, max) != NoMemory
  {
    hide SymbolOutcome;
    if more != [] {
      MergeHasMemory(symbols, more[..|more| - 1], max);
      NeverWithoutMemory(Entries(symbols + more[..|more| - 1]), more[|more| - 1], max);
    }
  }
}
