/**
 The printer of C types over the type table: a fragment of text that grows at both ends in place,
 and a sized writer for the result.
 */
module DeclaratorWriter {
  import opened DeclaratorGrammar
  import opened DeclaratorEdges
  import opened DeclaratorReading
  import opened DeclaratorRefusals
  import opened Decimals
  import opened Declarators
  import opened Options
  import opened TargetInfo
  import opened TextWriters
  import opened TypeGraph

  // ---------------------------------------------------------------- the type in the table

  const MAX_DEPTH := 64

  // Whether a char is plain or signed is not spelled, nor the type of an enumeration.
  function SpecifierOf(s: Shape): Specifier
    requires BaseOf(s).None?
  {
    match s
    case VoidType => VoidSpecifier
    case BoolType => BoolSpecifier
    case IntegerType(kind, isUnsigned, _, tag) =>
      if kind == EnumKind then EnumSpecifier(tag)
      else
        IntegerSpecifier(isUnsigned,
          match kind
          case CharKind => CharWord
          case ShortKind => ShortWord
          case LongKind => LongWord
          case LongLongKind => LongLongWord
          case _ => IntWord)
    case FloatingType(kind, isComplex) =>
      FloatingSpecifier(
        if kind == FloatKind then FloatWord else if kind == LongDoubleKind then LongDoubleWord else DoubleWord,
        isComplex)
    case RecordType(isStruct, tag, _) => RecordSpecifier(isStruct, tag)
  }

  function BoundOf(length: CInt, isVla: bool): Bound {
    if isVla then Star else if length > 0 then Fixed(length) else NoBound
  }

  // The C type of a table entry; none where an id is unknown or parameter lists nest too deep.
  // Qualifiers of arrays and functions are not part of it.
  ghost function TypeOf(g: Table, rank: TypeId -> nat, q: QualType, depth: nat): Option<CType>
    requires Ranked(g, rank) && depth <= MAX_DEPTH + 1
    decreases MAX_DEPTH + 1 - depth, 0, rank(q.id), 0
  {
    if depth > MAX_DEPTH || !Known(g, q.id) then None
    else
      match g.types[q.id]
      case PointerType(pointee) =>
        var t := TypeOf(g, rank, pointee, depth);
        if t.None? then None else Some(PointerTo(q.quals, t.value))
      case ArrayType(length, isVla, element) =>
        var t := TypeOf(g, rank, element, depth);
        if t.None? then None else Some(ArrayOf(BoundOf(length, isVla), t.value))
      case FunctionType(result, parameters, hasPrototype, isVariadic) =>
        var t := TypeOf(g, rank, result, depth);
        var ps := ParametersOf(g, rank, parameters, hasPrototype, isVariadic, depth + 1);
        if t.None? || ps.None? then None else Some(FunctionOf(ps.value, t.value))
      case _ => Some(Base(q.quals, SpecifierOf(g.types[q.id])))
  }

  ghost function ParametersOf(g: Table, rank: TypeId -> nat, qs: seq<QualType>, hasPrototype: bool, isVariadic: bool,
                              depth: nat): Option<Parameters>
    requires Ranked(g, rank) && depth <= MAX_DEPTH + 1
    decreases MAX_DEPTH + 1 - depth, 1, |qs|, 1
  {
    if qs == [] && !isVariadic && !hasPrototype then Some(Unspecified)
    else
      var ts := TypesOf(g, rank, qs, depth);
      if ts.None? then None else Some(Listed(ts.value, isVariadic))
  }

  ghost function TypesOf(g: Table, rank: TypeId -> nat, qs: seq<QualType>, depth: nat): (ts: Option<seq<CType>>)
    requires Ranked(g, rank) && depth <= MAX_DEPTH + 1
    ensures ts.Some? ==> |ts.value| == |qs|
    decreases MAX_DEPTH + 1 - depth, 1, |qs|, 0
  {
    if qs == [] then Some([])
    else
      var first := TypeOf(g, rank, qs[0], depth);
      var more := TypesOf(g, rank, qs[1..], depth);
      if first.None? || more.None? then None else Some([first.value] + more.value)
  }

  // ---------------------------------------------------------------- what fits

  // No text is longer than an int can say, and no fragment with its terminator.
  predicate TypeFits(t: CType, name: string)
    decreases t, 1
  {
    FragmentFits(t, "@", false) && |TypeText(t, name)| <= INT_MAX
  }

  predicate FragmentFits(t: CType, fragment: string, prefix: bool)
    decreases t, 0
  {
    match t
    case Base(_, _) => |fragment| < INT_MAX
    case PointerTo(quals, target) => FragmentFits(target, PointerText(quals) + fragment, true)
    case ArrayOf(bound, element) => FragmentFits(element, Wrapped(fragment, prefix) + BoundText(bound), false)
    case FunctionOf(params, result) =>
      (params.Listed? ==> forall u <- params.types :: TypeFits(u, "")) &&
      FragmentFits(result, Wrapped(fragment, prefix) + ParametersText(params), false)
  }

  // Fragments only grow.
  lemma {:induction false} FragmentGrows(t: CType, fragment: string, prefix: bool)
    ensures FragmentFits(t, fragment, prefix) ==> |fragment| < INT_MAX
    decreases t
  {
    hide TypeFits;
    match t {
      case Base(_, _) =>
      case PointerTo(quals, target) => FragmentGrows(target, PointerText(quals) + fragment, true);
      case ArrayOf(bound, element) => FragmentGrows(element, Wrapped(fragment, prefix) + BoundText(bound), false);
      case FunctionOf(params, result) => FragmentGrows(result, Wrapped(fragment, prefix) + ParametersText(params), false);
    }
  }

  // What formatting a type answers: its text, or nothing.
  ghost function Formatted(g: Table, rank: TypeId -> nat, q: QualType, depth: nat, name: string): Option<string>
    requires Ranked(g, rank) && depth <= MAX_DEPTH + 1
  {
    var t := TypeOf(g, rank, q, depth);
    if t.None? || !TypeFits(t.value, name) then None else Some(TypeText(t.value, name))
  }

  // ---------------------------------------------------------------- the fragment

  class Fragment {
    var bytes: array<char>
    var length: nat
    var prefixBinding: bool

    ghost predicate Valid()
      reads this, bytes
    {
      length < INT_MAX && length < bytes.Length && bytes[length] == '\0'
    }

    ghost function Text(): string
      requires Valid()
      reads this, bytes
    {
      bytes[..length]
    }

    constructor ()
      ensures Valid() && fresh(bytes) && Text() == "@" && !prefixBinding
    {
      bytes := new char[32];
      length := 1;
      prefixBinding := false;
      new;
      bytes[0] := '@';
      bytes[1] := '\0';
    }

    // Room for `needed` characters: the buffer doubles until they fit.
    method Reserve(needed: nat) returns (ok: bool)
      requires Valid()
      modifies this
      ensures Valid() && Text() == old(Text()) && prefixBinding == old(prefixBinding)
      ensures bytes == old(bytes) || fresh(bytes)
      ensures ok == (needed <= INT_MAX) && (ok ==> needed <= bytes.Length)
    {
      if needed > INT_MAX {
        return false;
      }
      if needed <= bytes.Length {
        return true;
      }
      var capacity := bytes.Length;
      while capacity < needed
        invariant 0 < capacity
        decreases needed - capacity
      {
        if capacity > INT_MAX / 2 {
          capacity := needed;
          break;
        }
        capacity := capacity * 2;
      }
      var next := new char[capacity];
      forall i | 0 <= i < bytes.Length {
        next[i] := bytes[i];
      }
      assert next[..length] == bytes[..length];
      bytes := next;
      return true;
    }

    method Append(text: string) returns (ok: bool)
      requires Valid()
      modifies this, bytes
      ensures Valid() && prefixBinding == old(prefixBinding)
      ensures bytes == old(bytes) || fresh(bytes)
      ensures ok == (|old(Text())| + |text| < INT_MAX)
      ensures Text() == if ok then old(Text()) + text else old(Text())
    {
      if |text| > INT_MAX || length > INT_MAX - |text| {
        return false;
      }
      ok := Reserve(length + |text| + 1);
      if !ok {
        return;
      }
      ghost var was := bytes[..length];
      forall i | 0 <= i < |text| {
        bytes[length + i] := text[i];
      }
      length := length + |text|;
      bytes[length] := '\0';
      assert bytes[..length] == was + text;
    }

    method Prepend(text: string) returns (ok: bool)
      requires Valid()
      modifies this, bytes
      ensures Valid() && prefixBinding == old(prefixBinding)
      ensures bytes == old(bytes) || fresh(bytes)
      ensures ok == (|old(Text())| + |text| < INT_MAX)
      ensures Text() == if ok then text + old(Text()) else old(Text())
    {
      if |text| > INT_MAX || length > INT_MAX - |text| {
        return false;
      }
      ok := Reserve(length + |text| + 1);
      if !ok {
        return;
      }
      var moved := text + bytes[..length + 1];
      assert moved[..|text| + length] == text + bytes[..length];
      forall i | 0 <= i < |moved| {
        bytes[i] := moved[i];
      }
      length := length + |text|;
      assert bytes[..length] == moved[..length];
    }

    method WrapForPostfix() returns (ok: bool)
      requires Valid()
      modifies this, bytes
      ensures Valid()
      ensures bytes == old(bytes) || fresh(bytes)
      ensures ok == (|Wrapped(old(Text()), old(prefixBinding))| < INT_MAX)
      ensures ok ==> Text() == Wrapped(old(Text()), old(prefixBinding)) && !prefixBinding
    {
      if !prefixBinding {
        return true;
      }
      ok := Prepend("(");
      if ok {
        ok := Append(")");
      }
      if ok {
        prefixBinding := false;
      }
    }

    method AppendNumber(value: nat) returns (ok: bool)
      requires Valid() && value <= INT_MAX
      modifies this, bytes
      ensures Valid() && prefixBinding == old(prefixBinding)
      ensures bytes == old(bytes) || fresh(bytes)
      ensures ok == (|old(Text())| + |Decimal(value)| < INT_MAX)
      ensures ok ==> Text() == old(Text()) + Decimal(value)
    {
      hide Decimal;
      var digits: array<char>, count: nat := DigitsOf(value);
      ghost var s := Decimal(value);
      assert old(Text()) == old(Text()) + s[..0];
      while count > 0
        invariant count <= |s| && Valid() && prefixBinding == old(prefixBinding)
        invariant bytes == old(bytes) || fresh(bytes)
        invariant bytes != digits && fresh(digits)
        invariant forall i :: 0 <= i < count ==> digits[i] == s[|s| - 1 - i]
        invariant Text() == old(Text()) + s[..|s| - count]
      {
        count := count - 1;
        assert s[..|s| - count] == s[..|s| - count - 1] + [digits[count]];
        Assoc(old(Text()), s[..|s| - count - 1], [digits[count]]);
        ok := Append([digits[count]]);
        if !ok {
          return;
        }
      }
      assert s[..|s|] == s;
      ok := true;
    }

    method PrependPointer(q: Qualifiers) returns (ok: bool)
      requires Valid()
      modifies this, bytes
      ensures Valid()
      ensures bytes == old(bytes) || fresh(bytes)
      ensures ok == (|PointerText(q) + old(Text())| < INT_MAX)
      ensures ok ==> Text() == PointerText(q) + old(Text()) && prefixBinding
    {
      PrefixIsPointerText(q);
      var prefix := "*";
      prefix := prefix + if q.isConst then " const" else "";
      prefix := prefix + if q.isVolatile then " volatile" else "";
      prefix := prefix + if q.isAtomic then " _Atomic" else "";
      prefix := prefix + if q.isRestrict then " restrict" else "";
      prefix := prefix + if q != UNQUALIFIED then " " else "";
      ok := Prepend(prefix);
      if ok {
        prefixBinding := true;
      }
    }
  }

  lemma PrefixIsPointerText(q: Qualifiers)
    ensures PointerText(q) ==
      "*" + (if q.isConst then " const" else "") + (if q.isVolatile then " volatile" else "") +
      (if q.isAtomic then " _Atomic" else "") + (if q.isRestrict then " restrict" else "") + (if q != UNQUALIFIED then " " else "")
  {
    var a, b := if q.isConst then " const" else "", if q.isVolatile then " volatile" else "";
    var c, d := if q.isAtomic then " _Atomic" else "", if q.isRestrict then " restrict" else "";
    var e := if q != UNQUALIFIED then " " else "";
    FourParts(a, b, c, d, e);
    Assoc("*", a, b + (c + (d + e)));
    Assoc("*" + a, b, c + (d + e));
    Assoc("*" + a + b, c, d + e);
    Assoc("*" + a + b + c, d, e);
  }

  // ---------------------------------------------------------------- formatting a type

  method WriteQualifiers(w: TextWriter, q: Qualifiers)
    requires w.Valid()
    modifies w, w.out
    ensures w.Valid() && w.Out() == Put(old(w.Out()), LeadingQualifiers(q))
  {
    hide Put;
    ghost var o := w.Out();
    var c, v := if q.isConst then "const " else "", if q.isVolatile then "volatile " else "";
    var a, r := if q.isAtomic then "_Atomic " else "", if q.isRestrict then "restrict " else "";
    PutPut(o, c, v);
    PutPut(o, c + v, a);
    PutPut(o, c + v + a, r);
    Assoc(c, v, a + r);
    Assoc(c + v, a, r);
    w.WriteBytes(c);
    w.WriteBytes(v);
    w.WriteBytes(a);
    w.WriteBytes(r);
  }

  method WriteTerminal(w: TextWriter, s: Shape, q: Qualifiers)
    requires w.Valid() && BaseOf(s).None?
    modifies w, w.out
    ensures w.Valid() && w.Out() == Put(old(w.Out()), BaseText(Base(q, SpecifierOf(s))))
  {
    hide LeadingQualifiers;
    ghost var o := w.Out();
    PutPut(o, LeadingQualifiers(q), SpecifierText(SpecifierOf(s)));
    WriteQualifiers(w, q);
    WriteSpecifier(w, s);
  }

  method WriteTag(w: TextWriter, keyword: string, tag: string)
    requires w.Valid()
    modifies w, w.out
    ensures w.Valid() && w.Out() == Put(old(w.Out()), TagText(keyword, tag))
  {
    PutPut(w.Out(), keyword, " ");
    PutPut(w.Out(), keyword + " ", tag);
    Assoc(keyword, " ", tag);
    w.WriteBytes(keyword);
    if |tag| > 0 {
      w.WriteBytes(" ");
      w.WriteBytes(tag);
    }
  }

  method WriteSpecifier(w: TextWriter, s: Shape)
    requires w.Valid() && BaseOf(s).None?
    modifies w, w.out
    ensures w.Valid() && w.Out() == Put(old(w.Out()), SpecifierText(SpecifierOf(s)))
  {
    hide Put;
    hide TagText;
    ghost var o := w.Out();
    match s {
      case VoidType => w.WriteBytes("void");
      case BoolType => w.WriteBytes("_Bool");
      case IntegerType(kind, isUnsigned, _, tag) =>
        if kind == EnumKind {
          WriteTag(w, "enum", tag);
        } else {
          var word := match kind
            case CharKind => "char"
            case ShortKind => "short"
            case LongKind => "long"
            case LongLongKind => "long long"
            case _ => "int";
          PutPut(o, "unsigned ", word);
          assert "" + word == word;
          if isUnsigned {
            w.WriteBytes("unsigned ");
          }
          w.WriteBytes(word);
        }
      case FloatingType(kind, isComplex) =>
        var word := if kind == FloatKind then "float" else if kind == LongDoubleKind then "long double" else "double";
        PutPut(o, word, " _Complex");
        assert word + "" == word;
        w.WriteBytes(word);
        if isComplex {
          w.WriteBytes(" _Complex");
        }
      case RecordType(isStruct, tag, _) => WriteTag(w, if isStruct then "struct" else "union", tag);
    }
  }

  // The last pass: the fragment with its hole filled.
  method WriteFilled(w: TextWriter, fragment: string, name: string)
    requires w.Valid()
    modifies w, w.out
    ensures w.Valid() && w.Out() == Put(old(w.Out()), Fill(fragment, name))
  {
    ghost var o := w.Out();
    var i := 0;
    assert fragment[0..] == fragment;
    PutNone(o);
    while i < |fragment|
      invariant 0 <= i <= |fragment| && w.Valid()
      invariant Put(w.Out(), Fill(fragment[i..], name)) == Put(o, Fill(fragment, name))
    {
      FillStep(fragment, i, name);
      if name == "" && fragment[i] == ' ' && i + 1 < |fragment| && fragment[i + 1] == '@' {
      } else if fragment[i] == '@' {
        PutPut(w.Out(), name, Fill(fragment[i + 1..], name));
        if name != "" {
          w.WriteBytes(name);
        } else {
          assert "" + Fill(fragment[i + 1..], name) == Fill(fragment[i + 1..], name);
        }
      } else {
        PutPut(w.Out(), [fragment[i]], Fill(fragment[i + 1..], name));
        w.WriteBytes([fragment[i]]);
      }
      i := i + 1;
    }
    PutNone(w.Out());
  }

  lemma PutNone(o: Out)
    requires TextWriters.Fits(o)
    ensures Put(o, "") == o && Fill("", "") == ""
  {
    assert o.Written? ==> o.text + "" == o.text;
  }

  lemma FillStep(s: string, i: nat, name: string)
    requires i < |s|
    ensures Fill(s[i..], name) ==
      if name == "" && s[i] == ' ' && i + 1 < |s| && s[i + 1] == '@' then Fill(s[i + 1..], name)
      else (if s[i] == '@' then name else [s[i]]) + Fill(s[i + 1..], name)
  {
    assert s[i..][1..] == s[i + 1..];
  }

  // ---------------------------------------------------------------- the two loops

  // One parameter: measured first, then written into a buffer of that size.
  method FormatParameter(f: Fragment, g: Table, ghost rank: TypeId -> nat, q: QualType, depth: nat) returns (ok: bool)
    requires f.Valid() && Ranked(g, rank) && depth <= MAX_DEPTH + 1
    modifies f, f.bytes
    ensures f.Valid() && f.prefixBinding == old(f.prefixBinding)
    ensures f.bytes == old(f.bytes) || fresh(f.bytes)
    ensures
      var s := Formatted(g, rank, q, depth, "");
      ok == (s.Some? && |old(f.Text())| + |s.value| < INT_MAX) && (ok ==> f.Text() == old(f.Text()) + s.value)
    decreases MAX_DEPTH + 1 - depth, 3
  {
    var measure := new TextWriter(null, 0);
    ok := FormatType(measure, g, rank, q, depth, "");
    if !ok || measure.failed {
      return false;
    }
    ok := f.Reserve(f.length + measure.length + 1);
    if !ok {
      return;
    }
    var buffer := new char[measure.length + 1];
    var w := new TextWriter(buffer, measure.length + 1);
    ok := FormatType(w, g, rank, q, depth, "");
    buffer[w.length] := '\0';
    assert buffer[..w.length] == w.text;
    if ok {
      ok := f.Append(buffer[..w.length]);
    }
  }

  // What is still to be printed of a parameter list, a comma in front of all but the first.
  ghost function Remaining(types: seq<CType>, isVariadic: bool, first: bool): string {
    (if !first && (types != [] || isVariadic) then ", " else "") + ListText(types, isVariadic)
  }

  // The list printed from here on succeeds exactly when every type is there, fits, and leaves the
  // fragment short enough.
  ghost predicate ListFits(ts: Option<seq<CType>>, start: string, isVariadic: bool, first: bool) {
    && ts.Some?
    && (forall u <- ts.value :: TypeFits(u, ""))
    && |start + Remaining(ts.value, isVariadic, first)| < INT_MAX
  }

  ghost function ListPrinted(ts: Option<seq<CType>>, start: string, isVariadic: bool, first: bool): Option<string> {
    if ListFits(ts, start, isVariadic, first) then Some(start + Remaining(ts.value, isVariadic, first)) else None
  }

  lemma ListPrintedStep(g: Table, rank: TypeId -> nat, qs: seq<QualType>, depth: nat, start: string, isVariadic: bool,
      first: bool)
    requires Ranked(g, rank) && depth <= MAX_DEPTH + 1 && qs != []
    ensures
      var comma := start + if first then "" else ", ";
      var s := Formatted(g, rank, qs[0], depth, "");
      ListPrinted(TypesOf(g, rank, qs, depth), start, isVariadic, first) ==
      if s.None? then None else ListPrinted(TypesOf(g, rank, qs[1..], depth), comma + s.value, isVariadic, false)
  {
    hide TypeOf;
    hide TypeText;
    var t := TypeOf(g, rank, qs[0], depth);
    var us := TypesOf(g, rank, qs[1..], depth);
    if t.Some? && us.Some? {
      var ts := [t.value] + us.value;
      assert ts[1..] == us.value;
      var lead, text := if first then "" else ", ", TypeText(t.value, "");
      var rest := Remaining(us.value, isVariadic, false);
      assert Remaining(ts, isVariadic, first) == lead + (text + rest);
      Assoc(start, lead, text + rest);
      Assoc(start + lead, text, rest);
      assert forall u <- us.value :: u in ts;
    }
  }

  // A start that is too long stays too long.
  lemma TooLong(ts: Option<seq<CType>>, start: string, isVariadic: bool, first: bool)
    requires |start| >= INT_MAX
    ensures ListPrinted(ts, start, isVariadic, first) == None
  {}

  lemma ListPrintedEnd(start: string, isVariadic: bool, first: bool)
    ensures
      var s := start + (if isVariadic && !first then ", " else "") + if isVariadic then "..." else "";
      ListPrinted(Some([]), start, isVariadic, first) == if |s| < INT_MAX then Some(s) else None
  {
    assert ListText([], isVariadic) == if isVariadic then "..." else "";
    Assoc(start, if isVariadic && !first then ", " else "", if isVariadic then "..." else "");
  }

  method AppendList(f: Fragment, g: Table, ghost rank: TypeId -> nat, qs: seq<QualType>, isVariadic: bool, depth: nat)
    returns (ok: bool)
    requires f.Valid() && Ranked(g, rank) && depth <= MAX_DEPTH + 1
    modifies f, f.bytes
    ensures f.Valid() && f.prefixBinding == old(f.prefixBinding)
    ensures f.bytes == old(f.bytes) || fresh(f.bytes)
    ensures
      var s := ListPrinted(TypesOf(g, rank, qs, depth), old(f.Text()), isVariadic, true);
      ok == s.Some? && (ok ==> f.Text() == s.value)
    decreases MAX_DEPTH + 1 - depth, 4
  {
    hide ListPrinted;
    hide TypesOf;
    hide Formatted;
    ghost var goal := ListPrinted(TypesOf(g, rank, qs, depth), f.Text(), isVariadic, true);
    var i := 0;
    assert qs[0..] == qs;
    while i < |qs|
      invariant 0 <= i <= |qs| && f.Valid() && f.prefixBinding == old(f.prefixBinding)
      invariant f.bytes == old(f.bytes) || fresh(f.bytes)
      invariant ListPrinted(TypesOf(g, rank, qs[i..], depth), f.Text(), isVariadic, i == 0) == goal
    {
      assert qs[i..][1..] == qs[i + 1..];
      ghost var start, s := f.Text(), Formatted(g, rank, qs[i], depth, "");
      ghost var comma := start + if i == 0 then "" else ", ";
      ListPrintedStep(g, rank, qs[i..], depth, start, isVariadic, i == 0);
      if s.Some? && |comma + s.value| >= INT_MAX {
        TooLong(TypesOf(g, rank, qs[i + 1..], depth), comma + s.value, isVariadic, false);
      }
      assert start + "" == start;
      if i > 0 {
        ok := f.Append(", ");
        if !ok {
          return;
        }
      }
      ok := FormatParameter(f, g, rank, qs[i], depth);
      if !ok {
        return;
      }
      i := i + 1;
    }
    ghost var start := f.Text();
    TypesOfNone(g, rank, depth);
    ListPrintedEnd(start, isVariadic, |qs| == 0);
    assert start + "" == start && start + "" + "" == start;
    if isVariadic {
      if |qs| > 0 {
        ok := f.Append(", ");
        if !ok {
          return;
        }
      }
      ok := f.Append("...");
      return;
    }
    ok := true;
  }

  lemma TypesOfNone(g: Table, rank: TypeId -> nat, depth: nat)
    requires Ranked(g, rank) && depth <= MAX_DEPTH + 1
    ensures TypesOf(g, rank, [], depth) == Some([])
  {}

  // ---------------------------------------------------------------- the walk down the bases

  method AppendBound(f: Fragment, length: CInt, isVla: bool) returns (ok: bool)
    requires f.Valid()
    modifies f, f.bytes
    ensures f.Valid() && (f.bytes == old(f.bytes) || fresh(f.bytes))
    ensures
      var s := Wrapped(old(f.Text()), old(f.prefixBinding)) + BoundText(BoundOf(length, isVla));
      ok == (|s| < INT_MAX) && (ok ==> f.Text() == s && !f.prefixBinding)
  {
    hide Decimal;
    hide Wrapped;
    ghost var s := Wrapped(f.Text(), f.prefixBinding);
    ok := f.WrapForPostfix();
    if !ok { return; }
    ok := f.Append("[");
    if !ok { return; }
    if isVla {
      ok := f.Append("*");
      if !ok { return; }
      assert s + "[" + "*" + "]" == s + "[*]";
    } else if length > 0 {
      ok := f.AppendNumber(length);
      if !ok { return; }
      Assoc(s + "[", Decimal(length), "]");
      Assoc(s, "[", Decimal(length) + "]");
    } else {
      assert s + "[" + "]" == s + "[]";
    }
    ok := f.Append("]");
  }

  ghost predicate ParametersFit(ps: Option<Parameters>) {
    ps.Some? && (ps.value.Listed? ==> forall u <- ps.value.types :: TypeFits(u, ""))
  }

  method AppendParameters(f: Fragment, g: Table, ghost rank: TypeId -> nat, qs: seq<QualType>, hasPrototype: bool,
      isVariadic: bool,
                          depth: nat) returns (ok: bool)
    requires f.Valid() && Ranked(g, rank) && depth <= MAX_DEPTH
    modifies f, f.bytes
    ensures f.Valid() && (f.bytes == old(f.bytes) || fresh(f.bytes))
    ensures
      var ps := ParametersOf(g, rank, qs, hasPrototype, isVariadic, depth + 1);
      var s := if ps.Some? then Wrapped(old(f.Text()), old(f.prefixBinding)) + ParametersText(ps.value) else "";
      ok == (ParametersFit(ps) && |s| < INT_MAX) && (ok ==> f.Text() == s && !f.prefixBinding)
    decreases MAX_DEPTH + 1 - depth, 0
  {
    hide Wrapped;
    hide TypesOf;
    hide ParametersOf;
    hide ParametersText;
    hide TypeFits;
    hide ListPrinted;
    hide Ranked;
    ghost var s := Wrapped(f.Text(), f.prefixBinding);
    ghost var ps := ParametersOf(g, rank, qs, hasPrototype, isVariadic, depth + 1);
    assert ParametersFit(ps) ==> ps.Some? && |ParametersText(ps.value)| >= 2 by {
      if ParametersFit(ps) {
        ParenthesesAtLeast(ps.value);
      }
    }
    ok := f.WrapForPostfix();
    if !ok { return; }
    ok := f.Append("(");
    if !ok { return; }
    if hasPrototype && |qs| == 0 && !isVariadic {
      assert qs == [];
      NoParameters(g, rank, depth + 1);
      ok := f.Append("void");
      if !ok { return; }
      assert s + "(" + "void" + ")" == s + "(void)";
    } else {
      ListIsParameters(g, rank, qs, hasPrototype, isVariadic, depth + 1, s);
      ok := AppendList(f, g, rank, qs, isVariadic, depth + 1);
      if !ok { return; }
    }
    ok := f.Append(")");
  }

  lemma ParenthesesAtLeast(params: Parameters)
    ensures |ParametersText(params)| >= 2
  {}

  lemma NoParameters(g: Table, rank: TypeId -> nat, depth: nat)
    requires Ranked(g, rank) && depth <= MAX_DEPTH + 1
    ensures ParametersOf(g, rank, [], true, false, depth) == Some(Listed([], false))
    ensures ParametersFit(Some(Listed([], false))) && ParametersText(Listed([], false)) == "(void)"
  {
    TypesOfNone(g, rank, depth);
  }

  // The list in parentheses is the text of the parameters.
  lemma ListIsParameters(g: Table, rank: TypeId -> nat, qs: seq<QualType>, hasPrototype: bool, isVariadic: bool,
      depth: nat, s: string)
    requires Ranked(g, rank) && depth <= MAX_DEPTH + 1
    requires qs != [] || isVariadic || !hasPrototype
    ensures
      var ps := ParametersOf(g, rank, qs, hasPrototype, isVariadic, depth);
      var list := ListPrinted(TypesOf(g, rank, qs, depth), s + "(", isVariadic, true);
      if ParametersFit(ps) && |s + ParametersText(ps.value)| <= INT_MAX then
        list.Some? && list.value + ")" == s + ParametersText(ps.value)
      else list.None?
  {
    hide TypeFits;
    hide ListText;
    var ts := TypesOf(g, rank, qs, depth);
    TypesOfNone(g, rank, depth);
    if ts.Some? {
      var list := ListText(ts.value, isVariadic);
      assert "" + list == list;
      Assoc(s + "(", list, ")");
      Assoc(s, "(", list + ")");
      if qs == [] && !isVariadic {
        NoList();
        assert s + ("(" + ("" + ")")) == s + "()";
      } else {
        var ps := Listed(ts.value, isVariadic);
        assert ParametersOf(g, rank, qs, hasPrototype, isVariadic, depth) == Some(ps);
        assert ParametersText(ps) == "(" + (list + ")");
      }
    }
  }

  lemma NoList()
    ensures ListText([], false) == ""
  {}

  // Two points of the walk that end at the same text.
  ghost predicate SamePrinted(t: Option<CType>, a: string, p: bool, u: Option<CType>, b: string, q: bool) {
    t.Some? == u.Some? &&
    (t.Some? ==> Around(t.value, a, p) == Around(u.value, b, q) &&
                 (FragmentFits(t.value, a, p) <==> FragmentFits(u.value, b, q)))
  }

  ghost predicate NeverFits(t: Option<CType>, a: string, p: bool) {
    t.None? || !FragmentFits(t.value, a, p)
  }

  lemma LongNeverFits(t: Option<CType>, a: string, p: bool)
    requires |a| >= INT_MAX
    ensures NeverFits(t, a, p)
  {
    if t.Some? {
      FragmentGrows(t.value, a, p);
    }
  }

  // One type of the chain: the fragment grows by its part of the declarator.
  method Extend(f: Fragment, g: Table, ghost rank: TypeId -> nat, q: QualType, depth: nat) returns (ok: bool)
    requires f.Valid() && Ranked(g, rank) && depth <= MAX_DEPTH && Known(g, q.id) && BaseOf(g.types[q.id]).Some?
    modifies f, f.bytes
    ensures f.Valid() && (f.bytes == old(f.bytes) || fresh(f.bytes))
    ensures
      var t, u := TypeOf(g, rank, q, depth), TypeOf(g, rank, BaseOf(g.types[q.id]).value, depth);
      if ok then SamePrinted(t, old(f.Text()), old(f.prefixBinding), u, f.Text(), f.prefixBinding)
      else NeverFits(t, old(f.Text()), old(f.prefixBinding))
    decreases MAX_DEPTH + 1 - depth, 1
  {
    hide TypeOf;
    hide SamePrinted;
    hide NeverFits;
    hide Wrapped;
    hide PointerText;
    hide BoundText;
    hide ParametersText;
    hide ParametersOf;
    ghost var text, prefix := f.Text(), f.prefixBinding;
    match g.types[q.id] {
      case PointerType(pointee) =>
        PointerStep(g, rank, q, depth, text, prefix);
        ok := f.PrependPointer(q.quals);
      case ArrayType(length, isVla, element) =>
        ArrayStep(g, rank, q, depth, text, prefix);
        ok := AppendBound(f, length, isVla);
      case FunctionType(result, parameters, hasPrototype, isVariadic) =>
        FunctionStep(g, rank, q, depth, text, prefix);
        ok := AppendParameters(f, g, rank, parameters, hasPrototype, isVariadic, depth);
    }
  }

  method FormatType(w: TextWriter, g: Table, ghost rank: TypeId -> nat, q: QualType, depth: nat, name: string)
    returns (ok: bool)
    requires w.Valid() && w.Out() == Written("") && Ranked(g, rank) && depth <= MAX_DEPTH + 1
    modifies w, w.out
    ensures w.Valid()
    ensures ok == Formatted(g, rank, q, depth, name).Some?
    ensures ok ==> w.Out() == Written(Formatted(g, rank, q, depth, name).value)
    decreases MAX_DEPTH + 1 - depth, 2
  {
    hide Around;
    hide FragmentFits;
    hide TypeText;
    hide TypeOf;
    hide BaseText;
    hide Fill;
    hide SpecifierOf;
    if depth > MAX_DEPTH {
      UnknownStep(g, rank, q, depth);
      return false;
    }
    var f := new Fragment();
    var current := q;
    ghost var goal := TypeOf(g, rank, q, depth);
    while Known(g, current.id) && BaseOf(g.types[current.id]).Some?
      invariant f.Valid() && fresh(f) && fresh(f.bytes)
      invariant w.Valid() && w.Out() == Written("")
      invariant SamePrinted(goal, "@", false, TypeOf(g, rank, current, depth), f.Text(), f.prefixBinding)
      decreases rank(current.id)
    {
      ok := Extend(f, g, rank, current, depth);
      if !ok {
        return;
      }
      current := BaseOf(g.types[current.id]).value;
    }
    if !Known(g, current.id) {
      UnknownStep(g, rank, current, depth);
      return false;
    }
    BaseStep(g, rank, current, depth, f.Text(), f.prefixBinding);
    TextOfFragment(goal.value, f.Text(), current.quals, SpecifierOf(g.types[current.id]), name);
    ok := WriteDeclaration(w, g.types[current.id], current.quals, f, name);
  }

  lemma TextOfFragment(t: CType, text: string, quals: Qualifiers, spec: Specifier, name: string)
    requires Around(t, "@", false) == (text, Base(quals, spec))
    ensures TypeText(t, name) == BaseText(Base(quals, spec)) + if |text| > 1 || name != "" then " " + Fill(text, name) else ""
  {}

  lemma UnknownStep(g: Table, rank: TypeId -> nat, q: QualType, depth: nat)
    requires Ranked(g, rank) && depth <= MAX_DEPTH + 1 && (depth > MAX_DEPTH || !Known(g, q.id))
    ensures TypeOf(g, rank, q, depth) == None
  {}

  lemma BaseStep(g: Table, rank: TypeId -> nat, q: QualType, depth: nat, text: string, prefix: bool)
    requires Ranked(g, rank) && depth <= MAX_DEPTH && Known(g, q.id) && BaseOf(g.types[q.id]).None?
    ensures
      var t := TypeOf(g, rank, q, depth);
      t.Some? && Around(t.value, text, prefix) == (text, Base(q.quals, SpecifierOf(g.types[q.id]))) &&
      (FragmentFits(t.value, text, prefix) <==> |text| < INT_MAX)
  {}

  lemma PointerStep(g: Table, rank: TypeId -> nat, q: QualType, depth: nat, text: string, prefix: bool)
    requires Ranked(g, rank) && depth <= MAX_DEPTH && Known(g, q.id) && g.types[q.id].PointerType?
    ensures
      var s, t := g.types[q.id], TypeOf(g, rank, q, depth);
      var longer := PointerText(q.quals) + text;
      SamePrinted(t, text, prefix, TypeOf(g, rank, s.pointee, depth), longer, true) &&
      (|longer| >= INT_MAX ==> NeverFits(t, text, prefix))
  {
    var s := g.types[q.id];
    var longer := PointerText(q.quals) + text;
    if |longer| >= INT_MAX {
      LongNeverFits(TypeOf(g, rank, s.pointee, depth), longer, true);
    }
  }

  lemma ArrayStep(g: Table, rank: TypeId -> nat, q: QualType, depth: nat, text: string, prefix: bool)
    requires Ranked(g, rank) && depth <= MAX_DEPTH && Known(g, q.id) && g.types[q.id].ArrayType?
    ensures
      var s, t := g.types[q.id], TypeOf(g, rank, q, depth);
      var longer := Wrapped(text, prefix) + BoundText(BoundOf(s.length, s.isVla));
      SamePrinted(t, text, prefix, TypeOf(g, rank, s.element, depth), longer, false) &&
      (|longer| >= INT_MAX ==> NeverFits(t, text, prefix))
  {
    hide Wrapped;
    hide BoundText;
    var s := g.types[q.id];
    var longer := Wrapped(text, prefix) + BoundText(BoundOf(s.length, s.isVla));
    if |longer| >= INT_MAX {
      LongNeverFits(TypeOf(g, rank, s.element, depth), longer, false);
    }
  }

  lemma FunctionStep(g: Table, rank: TypeId -> nat, q: QualType, depth: nat, text: string, prefix: bool)
    requires Ranked(g, rank) && depth <= MAX_DEPTH && Known(g, q.id) && g.types[q.id].FunctionType?
    ensures
      var s, t := g.types[q.id], TypeOf(g, rank, q, depth);
      var ps := ParametersOf(g, rank, s.parameters, s.hasPrototype, s.isVariadic, depth + 1);
      && (!ParametersFit(ps) ==> NeverFits(t, text, prefix))
      && (ParametersFit(ps) ==>
        var longer := Wrapped(text, prefix) + ParametersText(ps.value);
        SamePrinted(t, text, prefix, TypeOf(g, rank, s.result, depth), longer, false) &&
        (|longer| >= INT_MAX ==> NeverFits(t, text, prefix)))
  {
    hide Wrapped;
    hide ParametersText;
    hide TypeFits;
    hide ParametersOf;
    var s := g.types[q.id];
    var ps := ParametersOf(g, rank, s.parameters, s.hasPrototype, s.isVariadic, depth + 1);
    if ParametersFit(ps) {
      var longer := Wrapped(text, prefix) + ParametersText(ps.value);
      if |longer| >= INT_MAX {
        LongNeverFits(TypeOf(g, rank, s.result, depth), longer, false);
      }
    }
  }

  // The specifiers, then the fragment with the name in its hole.
  method WriteDeclaration(w: TextWriter, s: Shape, quals: Qualifiers, f: Fragment, name: string) returns (ok: bool)
    requires w.Valid() && w.Out() == Written("") && f.Valid() && BaseOf(s).None?
    modifies w, w.out
    ensures w.Valid()
    ensures
      var text := old(f.Text());
      var all := BaseText(Base(quals, SpecifierOf(s))) + if |text| > 1 || name != "" then " " + Fill(text, name) else "";
      ok == (|all| <= INT_MAX) && (ok ==> w.Out() == Written(all))
  {
    hide BaseText;
    hide Fill;
    ghost var base := BaseText(Base(quals, SpecifierOf(s)));
    var text := f.bytes[..f.length];
    WriteTerminal(w, s, quals);
    assert "" + base == base && base + "" == base;
    if !w.failed && (f.length > 1 || |name| > 0) {
      w.WriteBytes(" ");
      WriteFilled(w, text, name);
      Assoc(base, " ", Fill(text, name));
    }
    ok := !w.failed;
  }

  // ---------------------------------------------------------------- the two formatters

  // ag_format_c_type and, for a name, ag_format_c_declaration: the length of the text, or -1; a
  // buffer gets as much of the text as fits in front of its terminator.
  method Format(g: Table, ghost rank: TypeId -> nat, q: QualType, name: string, out: array?<char>,
      capacity: nat) returns (r: int)
    requires Ranked(g, rank) && (out != null ==> capacity <= out.Length)
    modifies out
    ensures
      var s := Formatted(g, rank, q, 0, name);
      r == (if s.Some? then |s.value| else -1) &&
      (s.Some? && out != null && capacity > 0 ==>
        var end := if r < capacity then r else capacity - 1;
        out[..end] == s.value[..end] && out[end] == '\0')
    ensures out != null && capacity > 0 ==> exists i :: 0 <= i < capacity && out[i] == '\0'
  {
    hide Formatted;
    var w := new TextWriter(out, capacity);
    var ok := FormatType(w, g, rank, q, 0, name);
    if !ok {
      w.Fail();
    }
    ghost var text := w.text;
    r := w.Finish();
  }

  // What is formatted reads back as the type in the table exactly when its tags are words, no atomic
  // pointer in it stands in front of a parenthesis, and no list has an ellipsis only.
  lemma FormattedReadsBack(g: Table, rank: TypeId -> nat, q: QualType, name: string)
    requires Ranked(g, rank) && IsName(name) && Formatted(g, rank, q, 0, name).Some?
    ensures
      var t, s := TypeOf(g, rank, q, 0), Formatted(g, rank, q, 0, name).value;
      && t.Some?
      && (ReadType(true, s, name) == Some((AsC(t.value), "")) <==> Spelled(t.value) && Parses(t.value, NameEdge, name != ""))
  {
    hide TypeOf;
    hide TypeText;
    hide ReadType;
    hide Parses;
    var t, s := TypeOf(g, rank, q, 0), Formatted(g, rank, q, 0, name).value;
    assert s + "" == s;
    ReadsBackIff(t.value, name, "");
  }
}
