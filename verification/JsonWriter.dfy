/**
 The writer of snapshots as JSON. It is run without a buffer to measure and with one to write; a
 buffer holds one character less than its size.
 */
module JsonWriter {
  import opened Decimals
  import opened Json
  import opened Options
  import opened SnapshotJson
  import opened Snapshots
  import opened TargetInfo
  import opened TextWriters

  // ---------------------------------------------------------------- objects and lists in progress

  ghost function Opened(o: Out, ms: seq<Member>): Out {
    if ms == [] then o else Put(o, "{" + MembersText(ms))
  }

  ghost function OpenedList(o: Out, vs: seq<JsonValue>): Out {
    Put(o, "[" + ItemsText(vs))
  }

  lemma {:induction false} MembersSnoc(ms: seq<Member>, m: Member)
    ensures MembersText(ms + [m]) == MembersText(ms) + ((if ms == [] then "" else ",") + (KeyText(m.key) + Text(m.value)))
    decreases |ms|
  {
    hide Text;
    hide KeyText;
    var all := ms + [m];
    var last := KeyText(m.key) + Text(m.value);
    if ms == [] {
      assert all[1..] == [];
      assert MembersText(all) == KeyText(m.key) + (Text(m.value) + ("" + ""));
      assert Text(m.value) + ("" + "") == Text(m.value) && "" + ("" + last) == last;
    } else {
      assert all[1..] == ms[1..] + [m];
      MembersSnoc(ms[1..], m);
      var key, value, rest := KeyText(ms[0].key), Text(ms[0].value), MembersText(ms[1..]);
      var comma := if |ms| > 1 then "," else "";
      Assoc(key, value + (comma + rest), "," + last);
      Assoc(value, comma + rest, "," + last);
      Assoc(comma, rest, "," + last);
      if |ms| == 1 {
        assert rest == "" && "" + ("," + last) == "," + last;
        assert MembersText(all[1..]) == last;
      }
    }
  }

  lemma AddMember(o: Out, ms: seq<Member>, key: Key, v: JsonValue)
    ensures
      Put(Put(Opened(o, ms), (if ms == [] then "{" else ",") + KeyText(KeyName(key))), Text(v)) ==
      Opened(o, ms + [Member(KeyName(key), v)])
  {
    hide Text;
    hide KeyText;
    hide MembersText;
    hide Put;
    hide KeyName;
    var name := KeyName(key);
    MembersSnoc(ms, Member(name, v));
    var last := KeyText(name) + Text(v);
    var comma := if ms == [] then "{" else ",";
    PutPut(Opened(o, ms), comma + KeyText(name), Text(v));
    Assoc(comma, KeyText(name), Text(v));
    if ms == [] {
      NoMembers();
      assert "" + ("" + last) == last;
    } else {
      PutPut(o, "{" + MembersText(ms), "," + last);
      Assoc("{", MembersText(ms), "," + last);
    }
  }

  lemma NoMembers()
    ensures MembersText([]) == "" && ItemsText([]) == ""
  {}

  lemma CloseObject(o: Out, ms: seq<Member>)
    requires ms != []
    ensures Put(Opened(o, ms), "}") == Put(o, Text(Object(ms)))
  {
    hide MembersText;
    PutPut(o, "{" + MembersText(ms), "}");
    Assoc("{", MembersText(ms), "}");
  }

  lemma {:induction false} ItemsSnoc(vs: seq<JsonValue>, v: JsonValue)
    ensures ItemsText(vs + [v]) == ItemsText(vs) + ((if vs == [] then "" else ",") + Text(v))
    decreases |vs|
  {
    hide Text;
    var all := vs + [v];
    if vs == [] {
      assert all[1..] == [];
      assert ItemsText(all) == Text(v) + ("" + "");
      assert Text(v) + ("" + "") == Text(v) && "" + ("" + Text(v)) == Text(v);
    } else {
      assert all[1..] == vs[1..] + [v];
      ItemsSnoc(vs[1..], v);
      var first, rest := Text(vs[0]), ItemsText(vs[1..]);
      var comma := if |vs| > 1 then "," else "";
      Assoc(first, comma + rest, "," + Text(v));
      Assoc(comma, rest, "," + Text(v));
      if |vs| == 1 {
        assert rest == "" && "" + ("," + Text(v)) == "," + Text(v);
        assert ItemsText(all[1..]) == Text(v);
      }
    }
  }

  lemma AddItem(o: Out, vs: seq<JsonValue>, v: JsonValue)
    ensures Put(Put(OpenedList(o, vs), if vs == [] then "" else ","), Text(v)) == OpenedList(o, vs + [v])
  {
    hide Text;
    hide ItemsText;
    hide Put;
    ItemsSnoc(vs, v);
    var comma := if vs == [] then "" else ",";
    PutPut(OpenedList(o, vs), comma, Text(v));
    PutPut(o, "[" + ItemsText(vs), comma + Text(v));
    Assoc("[", ItemsText(vs), comma + Text(v));
  }

  lemma CloseList(o: Out, vs: seq<JsonValue>)
    ensures Put(OpenedList(o, vs), "]") == Put(o, Text(List(vs)))
  {
    hide ItemsText;
    PutPut(o, "[" + ItemsText(vs), "]");
    Assoc("[", ItemsText(vs), "]");
  }

  // Writing nothing changes nothing.
  lemma PutEmpty(o: Out)
    requires TextWriters.Fits(o)
    ensures Put(o, "") == o
  {
    assert o.Written? ==> o.text + "" == o.text;
  }

  // ---------------------------------------------------------------- strings, numbers and keys

  // json_string
  method WriteString(w: TextWriter, s: CString)
    requires w.Valid()
    modifies w, w.out
    ensures w.Valid() && w.Out() == Put(old(w.Out()), StringText(s))
  {
    hide Escaped;
    ghost var o := w.Out();
    w.WriteBytes("\"");
    var i := 0;
    assert s[0..] == s;
    while i < |s|
      invariant 0 <= i <= |s| && w.Valid()
      invariant Put(w.Out(), Escapes(s[i..])) == Put(Put(o, "\""), Escapes(s))
    {
      assert s[i..][1..] == s[i + 1..];
      PutPut(w.Out(), Escaped(s[i]), Escapes(s[i + 1..]));
      WriteEscaped(w, s[i]);
      i := i + 1;
    }
    PutEmpty(w.Out());
    w.WriteBytes("\"");
    PutPut(o, "\"", Escapes(s));
    PutPut(o, "\"" + Escapes(s), "\"");
    Assoc("\"", Escapes(s), "\"");
  }

  method WriteEscaped(w: TextWriter, c: char)
    requires w.Valid()
    modifies w, w.out
    ensures w.Valid() && w.Out() == Put(old(w.Out()), Escaped(c))
  {
    if c == '"' {
      w.WriteBytes("\\\"");
    } else if c == '\\' {
      w.WriteBytes("\\\\");
    } else if c == '\n' {
      w.WriteBytes("\\n");
    } else if c == '\r' {
      w.WriteBytes("\\r");
    } else if c == '\t' {
      w.WriteBytes("\\t");
    } else if c as int < 0x20 {
      w.WriteBytes(['\\', 'u', '0', '0', Hex(c as int / 16), Hex(c as int % 16)]);
    } else {
      w.WriteBytes([c]);
    }
  }

  lemma {:induction false} PlainText(key: CString)
    requires IsPlain(key)
    ensures Escapes(key) == key
    decreases |key|
  {
    hide Escaped;
    if key != "" {
      PlainCharacter(key[0]);
      PlainText(key[1..]);
      assert key == [key[0]] + key[1..];
    }
  }

  lemma PlainCharacter(c: char)
    requires 'a' <= c <= 'z' || 'A' <= c <= 'Z'
    ensures Escaped(c) == [c]
  {}

  // The literal in front of a member: the opening brace or a comma, and the key.
  method WriteKey(w: TextWriter, isFirst: bool, key: Key)
    requires w.Valid()
    modifies w, w.out
    ensures w.Valid() && w.Out() == Put(old(w.Out()), (if isFirst then "{" else ",") + KeyText(KeyName(key)))
  {
    hide KeyName;
    PlainText(KeyName(key));
    w.WriteBytes((if isFirst then "{" else ",") + ("\"" + (KeyName(key) + "\"") + ":"));
  }

  method StringMember(w: TextWriter, isFirst: bool, key: Key, s: CString, ghost o: Out, ghost ms: seq<Member>)
    requires w.Valid() && w.Out() == Opened(o, ms) && isFirst == (ms == [])
    modifies w, w.out
    ensures w.Valid() && w.Out() == Opened(o, ms + [Member(KeyName(key), String(s))])
  {
    hide *;
    AddMember(o, ms, key, String(s));
    TextOfLeaf(String(s));
    WriteKey(w, isFirst, key);
    WriteString(w, s);
  }

  lemma TextOfLeaf(v: JsonValue)
    ensures v.String? ==> Text(v) == StringText(v.s)
    ensures v.Number? ==> Text(v) == Signed(v.n)
    ensures v.Boolean? ==> Text(v) == if v.b then "true" else "false"
    ensures v.Null? ==> Text(v) == "null"
  {}

  method NumberMember(w: TextWriter, isFirst: bool, key: Key, n: int, ghost o: Out, ghost ms: seq<Member>)
    requires w.Valid() && w.Out() == Opened(o, ms) && isFirst == (ms == [])
    modifies w, w.out
    ensures w.Valid() && w.Out() == Opened(o, ms + [Member(KeyName(key), Number(n))])
  {
    hide *;
    AddMember(o, ms, key, Number(n));
    TextOfLeaf(Number(n));
    WriteKey(w, isFirst, key);
    w.WriteBytes(Signed(n));
  }

  method FlagMember(w: TextWriter, isFirst: bool, key: Key, b: bool, ghost o: Out, ghost ms: seq<Member>)
    requires w.Valid() && w.Out() == Opened(o, ms) && isFirst == (ms == [])
    modifies w, w.out
    ensures w.Valid() && w.Out() == Opened(o, ms + [Member(KeyName(key), Boolean(b))])
  {
    hide *;
    AddMember(o, ms, key, Boolean(b));
    TextOfLeaf(Boolean(b));
    WriteKey(w, isFirst, key);
    w.WriteBytes(if b then "true" else "false");
  }

  method WriteNull(w: TextWriter)
    requires w.Valid()
    modifies w, w.out
    ensures w.Valid() && w.Out() == Put(old(w.Out()), Text(Null))
  {
    w.WriteBytes("null");
  }

  // ---------------------------------------------------------------- the parts of a snapshot

  // json_position
  method WritePosition(w: TextWriter, p: Position)
    requires w.Valid()
    modifies w, w.out
    ensures w.Valid() && w.Out() == Put(old(w.Out()), Text(PositionJson(p)))
  {
    hide Text;
    hide Put;
    hide KeyName;
    hide Opened;
    ghost var o := w.Out();
    NothingOpened(o);
    ghost var ms: seq<Member> := [];
    NumberMember(w, true, LineKey, p.line, o, ms);
    ms := ms + [Member(KeyName(LineKey), Number(p.line))];
    NumberMember(w, false, ColumnKey, p.column, o, ms);
    ms := ms + [Member(KeyName(ColumnKey), Number(p.column))];
    NumberMember(w, false, OffsetKey, p.offset, o, ms);
    ms := ms + [Member(KeyName(OffsetKey), Number(p.offset))];
    assert Object(ms) == PositionJson(p);
    CloseObject(o, ms);
    w.WriteBytes("}");
  }

  lemma NothingOpened(o: Out)
    ensures Opened(o, []) == o
  {}

  method PositionMember(w: TextWriter, key: Key, p: Position, ghost o: Out, ghost ms: seq<Member>)
    requires w.Valid() && w.Out() == Opened(o, ms) && ms != []
    modifies w, w.out
    ensures w.Valid() && w.Out() == Opened(o, ms + [Member(KeyName(key), PositionJson(p))])
  {
    hide *;
    AddMember(o, ms, key, PositionJson(p));
    WriteKey(w, false, key);
    WritePosition(w, p);
  }

  // json_range
  method WriteRange(w: TextWriter, r: Range)
    requires w.Valid()
    modifies w, w.out
    ensures w.Valid() && w.Out() == Put(old(w.Out()), Text(RangeJson(r)))
  {
    hide Text;
    hide Put;
    hide KeyName;
    hide Opened;
    hide PositionJson;
    ghost var o := w.Out();
    NothingOpened(o);
    ghost var ms: seq<Member> := [];
    StringMember(w, true, SourceNameKey, r.sourceName, o, ms);
    ms := ms + [Member(KeyName(SourceNameKey), String(r.sourceName))];
    PositionMember(w, StartKey, r.start, o, ms);
    ms := ms + [Member(KeyName(StartKey), PositionJson(r.start))];
    PositionMember(w, EndKey, r.end, o, ms);
    ms := ms + [Member(KeyName(EndKey), PositionJson(r.end))];
    assert Object(ms) == RangeJson(r);
    CloseObject(o, ms);
    w.WriteBytes("}");
  }

  method WriteRangeOrNull(w: TextWriter, r: Option<Range>)
    requires w.Valid()
    modifies w, w.out
    ensures w.Valid() && w.Out() == Put(old(w.Out()), Text(RangeOrNull(r)))
  {
    hide Text;
    hide Put;
    hide KeyName;
    if r.Some? {
      WriteRange(w, r.value);
    } else {
      WriteNull(w);
    }
  }

  method RangeMember(w: TextWriter, key: Key, r: Option<Range>, ghost o: Out, ghost ms: seq<Member>)
    requires w.Valid() && w.Out() == Opened(o, ms) && ms != []
    modifies w, w.out
    ensures w.Valid() && w.Out() == Opened(o, ms + [Member(KeyName(key), RangeOrNull(r))])
  {
    hide *;
    AddMember(o, ms, key, RangeOrNull(r));
    WriteKey(w, false, key);
    WriteRangeOrNull(w, r);
  }

  method WriteComma(w: TextWriter, isFirst: bool)
    requires w.Valid()
    modifies w, w.out
    ensures w.Valid() && w.Out() == Put(old(w.Out()), if isFirst then "" else ",")
  {
    if isFirst {
      PutEmpty(w.Out());
    } else {
      w.WriteBytes(",");
    }
  }

  lemma NoItems(o: Out)
    ensures Put(o, "[") == OpenedList(o, [])
  {
    assert "[" + "" == "[";
  }

  method WriteRanges(w: TextWriter, rs: seq<Range>)
    requires w.Valid()
    modifies w, w.out
    ensures w.Valid() && w.Out() == Put(old(w.Out()), Text(List(RangesJson(rs))))
  {
    hide Text;
    hide Put;
    hide KeyName;
    hide OpenedList;
    hide RangeJson;
    ghost var o := w.Out();
    NoItems(o);
    w.WriteBytes("[");
    var i := 0;
    assert rs[..0] == [];
    while i < |rs|
      invariant 0 <= i <= |rs| && w.Valid() && w.Out() == OpenedList(o, RangesJson(rs[..i]))
    {
      assert rs[..i + 1][..i] == rs[..i];
      AddItem(o, RangesJson(rs[..i]), RangeJson(rs[i]));
      WriteComma(w, i == 0);
      WriteRange(w, rs[i]);
      i := i + 1;
    }
    assert rs[..i] == rs;
    CloseList(o, RangesJson(rs));
    w.WriteBytes("]");
  }

  method RangesMember(w: TextWriter, isFirst: bool, key: Key, rs: seq<Range>, ghost o: Out, ghost ms: seq<Member>)
    requires w.Valid() && w.Out() == Opened(o, ms) && isFirst == (ms == [])
    modifies w, w.out
    ensures w.Valid() && w.Out() == Opened(o, ms + [Member(KeyName(key), List(RangesJson(rs)))])
  {
    hide *;
    AddMember(o, ms, key, List(RangesJson(rs)));
    WriteKey(w, isFirst, key);
    WriteRanges(w, rs);
  }

  method WriteStrings(w: TextWriter, ss: seq<CString>)
    requires w.Valid()
    modifies w, w.out
    ensures w.Valid() && w.Out() == Put(old(w.Out()), Text(List(StringsJson(ss))))
  {
    hide Text;
    hide Put;
    hide KeyName;
    hide OpenedList;
    ghost var o := w.Out();
    NoItems(o);
    w.WriteBytes("[");
    var i := 0;
    assert ss[..0] == [];
    while i < |ss|
      invariant 0 <= i <= |ss| && w.Valid() && w.Out() == OpenedList(o, StringsJson(ss[..i]))
    {
      assert ss[..i + 1][..i] == ss[..i];
      AddItem(o, StringsJson(ss[..i]), String(ss[i]));
      TextOfLeaf(String(ss[i]));
      WriteComma(w, i == 0);
      WriteString(w, ss[i]);
      i := i + 1;
    }
    assert ss[..i] == ss;
    CloseList(o, StringsJson(ss));
    w.WriteBytes("]");
  }

  method StringsMember(w: TextWriter, isFirst: bool, key: Key, ss: seq<CString>, ghost o: Out, ghost ms: seq<Member>)
    requires w.Valid() && w.Out() == Opened(o, ms) && isFirst == (ms == [])
    modifies w, w.out
    ensures w.Valid() && w.Out() == Opened(o, ms + [Member(KeyName(key), List(StringsJson(ss)))])
  {
    hide *;
    AddMember(o, ms, key, List(StringsJson(ss)));
    WriteKey(w, isFirst, key);
    WriteStrings(w, ss);
  }

  method WriteParameter(w: TextWriter, p: Parameter)
    requires w.Valid()
    modifies w, w.out
    ensures w.Valid() && w.Out() == Put(old(w.Out()), Text(ParameterJson(p)))
  {
    hide Text;
    hide Put;
    hide KeyName;
    hide Opened;
    ghost var o := w.Out();
    NothingOpened(o);
    ghost var ms: seq<Member> := [];
    StringMember(w, true, NameKey, p.name, o, ms);
    ms := ms + [Member(KeyName(NameKey), String(p.name))];
    StringMember(w, false, TypeKey, p.typeText, o, ms);
    ms := ms + [Member(KeyName(TypeKey), String(p.typeText))];
    assert Object(ms) == ParameterJson(p);
    CloseObject(o, ms);
    w.WriteBytes("}");
  }

  method WriteParameters(w: TextWriter, ps: seq<Parameter>)
    requires w.Valid()
    modifies w, w.out
    ensures w.Valid() && w.Out() == Put(old(w.Out()), Text(List(ParametersJson(ps))))
  {
    hide Text;
    hide Put;
    hide KeyName;
    hide OpenedList;
    hide ParameterJson;
    ghost var o := w.Out();
    NoItems(o);
    w.WriteBytes("[");
    var i := 0;
    assert ps[..0] == [];
    while i < |ps|
      invariant 0 <= i <= |ps| && w.Valid() && w.Out() == OpenedList(o, ParametersJson(ps[..i]))
    {
      assert ps[..i + 1][..i] == ps[..i];
      AddItem(o, ParametersJson(ps[..i]), ParameterJson(ps[i]));
      WriteComma(w, i == 0);
      WriteParameter(w, ps[i]);
      i := i + 1;
    }
    assert ps[..i] == ps;
    CloseList(o, ParametersJson(ps));
    w.WriteBytes("]");
  }

  method ParametersMember(w: TextWriter, isFirst: bool, key: Key, ps: seq<Parameter>, ghost o: Out,
      ghost ms: seq<Member>)
    requires w.Valid() && w.Out() == Opened(o, ms) && isFirst == (ms == [])
    modifies w, w.out
    ensures w.Valid() && w.Out() == Opened(o, ms + [Member(KeyName(key), List(ParametersJson(ps)))])
  {
    hide *;
    AddMember(o, ms, key, List(ParametersJson(ps)));
    WriteKey(w, isFirst, key);
    WriteParameters(w, ps);
  }

  method ConstantMember(w: TextWriter, value: CString, ghost o: Out, ghost ms: seq<Member>)
    requires w.Valid() && w.Out() == Opened(o, ms) && ms != []
    modifies w, w.out
    ensures w.Valid() && w.Out() == Opened(o, ms + [Member(KeyName(ConstantValueKey), StringOrNull(value))])
  {
    hide Text;
    hide Put;
    hide Opened;
    hide KeyName;
    AddMember(o, ms, ConstantValueKey, StringOrNull(value));
    WriteKey(w, false, ConstantValueKey);
    TextOfLeaf(StringOrNull(value));
    if value != "" {
      WriteString(w, value);
    } else {
      WriteNull(w);
    }
  }

  method WriteInitializer(w: TextWriter, s: Symbol)
    requires w.Valid()
    modifies w, w.out
    ensures w.Valid() && w.Out() == Put(old(w.Out()), Text(InitializerJson(s)))
  {
    hide Text;
    hide Put;
    hide KeyName;
    hide Opened;
    hide RangeOrNull;
    hide StringOrNull;
    hide InitializerName;
    ghost var o := w.Out();
    NothingOpened(o);
    ghost var ms: seq<Member> := [];
    StringMember(w, true, StateKey, InitializerName(s.initializer), o, ms);
    ms := ms + [Member(KeyName(StateKey), String(InitializerName(s.initializer)))];
    ConstantMember(w, s.constantValue, o, ms);
    ms := ms + [Member(KeyName(ConstantValueKey), StringOrNull(s.constantValue))];
    RangeMember(w, RangeKey, s.initializerRange, o, ms);
    ms := ms + [Member(KeyName(RangeKey), RangeOrNull(s.initializerRange))];
    assert Object(ms) == InitializerJson(s);
    CloseObject(o, ms);
    w.WriteBytes("}");
  }

  method InitializerMember(w: TextWriter, isFirst: bool, key: Key, s: Symbol, ghost o: Out, ghost ms: seq<Member>)
    requires w.Valid() && w.Out() == Opened(o, ms) && isFirst == (ms == [])
    modifies w, w.out
    ensures w.Valid() && w.Out() == Opened(o, ms + [Member(KeyName(key), InitializerJson(s))])
  {
    hide *;
    AddMember(o, ms, key, InitializerJson(s));
    WriteKey(w, isFirst, key);
    WriteInitializer(w, s);
  }

  method WriteFunction(w: TextWriter, s: Symbol)
    requires w.Valid()
    modifies w, w.out
    ensures w.Valid() && w.Out() == Put(old(w.Out()), Text(FunctionJson(s)))
  {
    hide Text;
    hide Put;
    hide KeyName;
    hide Opened;
    hide ParametersJson;
    if s.kind != FunctionKind {
      WriteNull(w);
      return;
    }
    ghost var o := w.Out();
    NothingOpened(o);
    ghost var ms: seq<Member> := [];
    StringMember(w, true, ReturnTypeKey, s.returnType, o, ms);
    ms := ms + [Member(KeyName(ReturnTypeKey), String(s.returnType))];
    FlagMember(w, false, HasPrototypeKey, s.hasPrototype, o, ms);
    ms := ms + [Member(KeyName(HasPrototypeKey), Boolean(s.hasPrototype))];
    FlagMember(w, false, VariadicKey, s.isVariadic, o, ms);
    ms := ms + [Member(KeyName(VariadicKey), Boolean(s.isVariadic))];
    ParametersMember(w, false, ParametersKey, s.parameters, o, ms);
    ms := ms + [Member(KeyName(ParametersKey), List(ParametersJson(s.parameters)))];
    assert Object(ms) == FunctionJson(s);
    CloseObject(o, ms);
    w.WriteBytes("}");
  }

  method FunctionMember(w: TextWriter, isFirst: bool, key: Key, s: Symbol, ghost o: Out, ghost ms: seq<Member>)
    requires w.Valid() && w.Out() == Opened(o, ms) && isFirst == (ms == [])
    modifies w, w.out
    ensures w.Valid() && w.Out() == Opened(o, ms + [Member(KeyName(key), FunctionJson(s))])
  {
    hide *;
    AddMember(o, ms, key, FunctionJson(s));
    WriteKey(w, isFirst, key);
    WriteFunction(w, s);
  }

  method WriteMacro(w: TextWriter, s: Symbol)
    requires w.Valid()
    modifies w, w.out
    ensures w.Valid() && w.Out() == Put(old(w.Out()), Text(MacroJson(s)))
  {
    hide Text;
    hide Put;
    hide KeyName;
    hide Opened;
    hide StringsJson;
    if s.kind != MacroKind {
      WriteNull(w);
      return;
    }
    ghost var o := w.Out();
    NothingOpened(o);
    ghost var ms: seq<Member> := [];
    FlagMember(w, true, FunctionLikeKey, s.macroIsFunctionLike, o, ms);
    ms := ms + [Member(KeyName(FunctionLikeKey), Boolean(s.macroIsFunctionLike))];
    FlagMember(w, false, VariadicKey, s.macroIsVariadic, o, ms);
    ms := ms + [Member(KeyName(VariadicKey), Boolean(s.macroIsVariadic))];
    StringsMember(w, false, ParametersKey, s.macroParameters, o, ms);
    ms := ms + [Member(KeyName(ParametersKey), List(StringsJson(s.macroParameters)))];
    StringMember(w, false, ReplacementKey, s.macroReplacement, o, ms);
    ms := ms + [Member(KeyName(ReplacementKey), String(s.macroReplacement))];
    assert Object(ms) == MacroJson(s);
    CloseObject(o, ms);
    w.WriteBytes("}");
  }

  method MacroMember(w: TextWriter, isFirst: bool, key: Key, s: Symbol, ghost o: Out, ghost ms: seq<Member>)
    requires w.Valid() && w.Out() == Opened(o, ms) && isFirst == (ms == [])
    modifies w, w.out
    ensures w.Valid() && w.Out() == Opened(o, ms + [Member(KeyName(key), MacroJson(s))])
  {
    hide *;
    AddMember(o, ms, key, MacroJson(s));
    WriteKey(w, isFirst, key);
    WriteMacro(w, s);
  }

  // ---------------------------------------------------------------- symbols

  method WriteNaming(w: TextWriter, s: Symbol)
    requires w.Valid()
    modifies w, w.out
    ensures w.Valid() && w.Out() == Opened(old(w.Out()), NamingMembers(s))
  {
    hide Text;
    hide Put;
    hide KeyName;
    hide Opened;
    hide KindName;
    hide NameSpaceName;
    ghost var o := w.Out();
    NothingOpened(o);
    ghost var ms: seq<Member> := [];
    StringMember(w, true, NameKey, s.name, o, ms);
    ms := ms + [Member(KeyName(NameKey), String(s.name))];
    StringMember(w, false, KindKey, KindName(s.kind), o, ms);
    ms := ms + [Member(KeyName(KindKey), String(KindName(s.kind)))];
    StringMember(w, false, NameSpaceKey, NameSpaceName(s.nameSpace), o, ms);
    ms := ms + [Member(KeyName(NameSpaceKey), String(NameSpaceName(s.nameSpace)))];
    StringMember(w, false, TypeKey, s.typeText, o, ms);
    ms := ms + [Member(KeyName(TypeKey), String(s.typeText))];
    StringMember(w, false, SignatureKey, s.signature, o, ms);
    ms := ms + [Member(KeyName(SignatureKey), String(s.signature))];
    StringMember(w, false, StorageClassKey, s.storageClass, o, ms);
    ms := ms + [Member(KeyName(StorageClassKey), String(s.storageClass))];
    assert ms == NamingMembers(s);
  }

  method WriteDeclaration(w: TextWriter, s: Symbol)
    requires w.Valid()
    modifies w, w.out
    ensures w.Valid() && w.Out() == Opened(old(w.Out()), DeclarationMembers(s))
  {
    hide Text;
    hide Put;
    hide KeyName;
    hide Opened;
    hide RangeJson;
    hide NamingMembers;
    ghost var o := w.Out();
    WriteNaming(w, s);
    SomeMembers(s);
    ghost var ms := NamingMembers(s);
    NumberMember(w, false, ScopeDepthKey, s.scopeDepth, o, ms);
    ms := ms + [Member(KeyName(ScopeDepthKey), Number(s.scopeDepth))];
    NumberMember(w, false, DeclarationOrderKey, s.declarationOrder, o, ms);
    ms := ms + [Member(KeyName(DeclarationOrderKey), Number(s.declarationOrder))];
    RangeMember(w, DeclarationKey, Some(s.declaration), o, ms);
    ms := ms + [Member(KeyName(DeclarationKey), RangeJson(s.declaration))];
    assert ms == DeclarationMembers(s);
  }

  method WriteDefinition(w: TextWriter, s: Symbol, ghost o: Out, ghost before: seq<Member>)
    requires w.Valid() && w.Out() == Opened(o, before) && before != []
    modifies w, w.out
    ensures w.Valid() && w.Out() == Opened(o, before + DefinitionMembers(s))
  {
    hide Text;
    hide Put;
    hide KeyName;
    hide Opened;
    hide RangeOrNull;
    hide RangesJson;
    ghost var ms := before;
    StringMember(w, false, DocumentationKey, s.documentation, o, ms);
    ms := ms + [Member(KeyName(DocumentationKey), String(s.documentation))];
    RangeMember(w, DocumentationRangeKey, s.documentationRange, o, ms);
    ms := ms + [Member(KeyName(DocumentationRangeKey), RangeOrNull(s.documentationRange))];
    RangeMember(w, DefinitionKey, s.definition, o, ms);
    ms := ms + [Member(KeyName(DefinitionKey), RangeOrNull(s.definition))];
    FlagMember(w, false, DefinitionConflictKey, s.definitionConflict, o, ms);
    ms := ms + [Member(KeyName(DefinitionConflictKey), Boolean(s.definitionConflict))];
    RangesMember(w, false, DefinitionCandidatesKey, s.candidates, o, ms);
    ms := ms + [Member(KeyName(DefinitionCandidatesKey), List(RangesJson(s.candidates)))];
    assert ms == before + DefinitionMembers(s);
  }

  method WriteDetails(w: TextWriter, s: Symbol, ghost o: Out, ghost before: seq<Member>)
    requires w.Valid() && w.Out() == Opened(o, before) && before != []
    modifies w, w.out
    ensures w.Valid() && w.Out() == Opened(o, before + DetailMembers(s))
  {
    hide Text;
    hide Put;
    hide KeyName;
    hide Opened;
    hide InitializerJson;
    hide FunctionJson;
    hide MacroJson;
    ghost var ms := before;
    InitializerMember(w, false, InitializerKey, s, o, ms);
    ms := ms + [Member(KeyName(InitializerKey), InitializerJson(s))];
    FunctionMember(w, false, FunctionKey, s, o, ms);
    ms := ms + [Member(KeyName(FunctionKey), FunctionJson(s))];
    MacroMember(w, false, MacroKey, s, o, ms);
    ms := ms + [Member(KeyName(MacroKey), MacroJson(s))];
    assert ms == before + DetailMembers(s);
  }

  // json_symbol
  method WriteSymbol(w: TextWriter, s: Symbol)
    requires w.Valid()
    modifies w, w.out
    ensures w.Valid() && w.Out() == Put(old(w.Out()), Text(SymbolJson(s)))
  {
    hide Text;
    hide Put;
    hide KeyName;
    hide Opened;
    hide DeclarationMembers;
    hide DefinitionMembers;
    hide DetailMembers;
    ghost var o := w.Out();
    SomeMembers(s);
    WriteDeclaration(w, s);
    WriteDefinition(w, s, o, DeclarationMembers(s));
    WriteDetails(w, s, o, DeclarationMembers(s) + DefinitionMembers(s));
    CloseObject(o, DeclarationMembers(s) + DefinitionMembers(s) + DetailMembers(s));
    w.WriteBytes("}");
  }

  lemma SomeMembers(s: Symbol)
    ensures |NamingMembers(s)| > 0 && |DeclarationMembers(s)| > 0
  {}

  method WriteSymbols(w: TextWriter, ss: seq<Symbol>)
    requires w.Valid()
    modifies w, w.out
    ensures w.Valid() && w.Out() == Put(old(w.Out()), Text(List(SymbolsJson(ss))))
  {
    hide Text;
    hide Put;
    hide KeyName;
    hide OpenedList;
    hide SymbolJson;
    ghost var o := w.Out();
    NoItems(o);
    w.WriteBytes("[");
    var i := 0;
    assert ss[..0] == [];
    while i < |ss|
      invariant 0 <= i <= |ss| && w.Valid() && w.Out() == OpenedList(o, SymbolsJson(ss[..i]))
    {
      assert ss[..i + 1][..i] == ss[..i];
      AddItem(o, SymbolsJson(ss[..i]), SymbolJson(ss[i]));
      WriteComma(w, i == 0);
      WriteSymbol(w, ss[i]);
      i := i + 1;
    }
    assert ss[..i] == ss;
    CloseList(o, SymbolsJson(ss));
    w.WriteBytes("]");
  }

  method SymbolsMember(w: TextWriter, isFirst: bool, key: Key, ss: seq<Symbol>, ghost o: Out, ghost ms: seq<Member>)
    requires w.Valid() && w.Out() == Opened(o, ms) && isFirst == (ms == [])
    modifies w, w.out
    ensures w.Valid() && w.Out() == Opened(o, ms + [Member(KeyName(key), List(SymbolsJson(ss)))])
  {
    hide *;
    AddMember(o, ms, key, List(SymbolsJson(ss)));
    WriteKey(w, isFirst, key);
    WriteSymbols(w, ss);
  }

  // ---------------------------------------------------------------- the document

  method NoNotesMember(w: TextWriter, ghost o: Out, ghost ms: seq<Member>)
    requires w.Valid() && w.Out() == Opened(o, ms) && ms != []
    modifies w, w.out
    ensures w.Valid() && w.Out() == Opened(o, ms + [Member(KeyName(NotesKey), List([]))])
  {
    hide *;
    AddMember(o, ms, NotesKey, List([]));
    EmptyListText();
    WriteKey(w, false, NotesKey);
    w.WriteBytes("[]");
  }

  method WriteDiagnosticHead(w: TextWriter, d: Diagnostic)
    requires w.Valid()
    modifies w, w.out
    ensures w.Valid() && w.Out() == Opened(old(w.Out()), DiagnosticHead(d))
  {
    hide Text;
    hide Put;
    hide KeyName;
    hide Opened;
    hide SeverityName;
    ghost var o := w.Out();
    NothingOpened(o);
    ghost var ms: seq<Member> := [];
    StringMember(w, true, SeverityKey, SeverityName(d.severity), o, ms);
    ms := ms + [Member(KeyName(SeverityKey), String(SeverityName(d.severity)))];
    StringMember(w, false, CodeKey, d.code, o, ms);
    ms := ms + [Member(KeyName(CodeKey), String(d.code))];
    StringMember(w, false, MessageKey, d.message, o, ms);
    ms := ms + [Member(KeyName(MessageKey), String(d.message))];
    NumberMember(w, false, SourceIdKey, 0, o, ms);
    ms := ms + [Member(KeyName(SourceIdKey), Number(0))];
    assert ms == DiagnosticHead(d);
  }

  method WriteDiagnostic(w: TextWriter, d: Diagnostic)
    requires w.Valid()
    modifies w, w.out
    ensures w.Valid() && w.Out() == Put(old(w.Out()), Text(DiagnosticJson(d)))
  {
    hide Text;
    hide Put;
    hide KeyName;
    hide Opened;
    hide PositionJson;
    hide DiagnosticHead;
    ghost var o := w.Out();
    WriteDiagnosticHead(w, d);
    SomeHead(d);
    ghost var ms := DiagnosticHead(d);
    StringMember(w, false, SourceNameKey, d.range.sourceName, o, ms);
    ms := ms + [Member(KeyName(SourceNameKey), String(d.range.sourceName))];
    PositionMember(w, StartKey, d.range.start, o, ms);
    ms := ms + [Member(KeyName(StartKey), PositionJson(d.range.start))];
    PositionMember(w, EndKey, d.range.end, o, ms);
    ms := ms + [Member(KeyName(EndKey), PositionJson(d.range.end))];
    NoNotesMember(w, o, ms);
    ms := ms + [Member(KeyName(NotesKey), List([]))];
    assert Object(ms) == DiagnosticJson(d);
    CloseObject(o, ms);
    w.WriteBytes("}");
  }

  lemma SomeHead(d: Diagnostic)
    ensures |DiagnosticHead(d)| > 0
  {}

  lemma EmptyListText()
    ensures Text(List([])) == "[]"
  {
    assert "[" + ("" + "]") == "[]";
  }

  method WriteDiagnostics(w: TextWriter, ds: seq<Diagnostic>)
    requires w.Valid()
    modifies w, w.out
    ensures w.Valid() && w.Out() == Put(old(w.Out()), Text(List(DiagnosticsJson(ds))))
  {
    hide Text;
    hide Put;
    hide KeyName;
    hide OpenedList;
    hide DiagnosticJson;
    ghost var o := w.Out();
    NoItems(o);
    w.WriteBytes("[");
    var i := 0;
    assert ds[..0] == [];
    while i < |ds|
      invariant 0 <= i <= |ds| && w.Valid() && w.Out() == OpenedList(o, DiagnosticsJson(ds[..i]))
    {
      assert ds[..i + 1][..i] == ds[..i];
      AddItem(o, DiagnosticsJson(ds[..i]), DiagnosticJson(ds[i]));
      WriteComma(w, i == 0);
      WriteDiagnostic(w, ds[i]);
      i := i + 1;
    }
    assert ds[..i] == ds;
    CloseList(o, DiagnosticsJson(ds));
    w.WriteBytes("]");
  }

  method DiagnosticsMember(w: TextWriter, isFirst: bool, key: Key, ds: seq<Diagnostic>, ghost o: Out,
      ghost ms: seq<Member>)
    requires w.Valid() && w.Out() == Opened(o, ms) && isFirst == (ms == [])
    modifies w, w.out
    ensures w.Valid() && w.Out() == Opened(o, ms + [Member(KeyName(key), List(DiagnosticsJson(ds)))])
  {
    hide *;
    AddMember(o, ms, key, List(DiagnosticsJson(ds)));
    WriteKey(w, isFirst, key);
    WriteDiagnostics(w, ds);
  }

  method HoverMember(w: TextWriter, s: Snapshot, ghost o: Out, ghost ms: seq<Member>)
    requires w.Valid() && w.Out() == Opened(o, ms) && ms != []
    modifies w, w.out
    ensures w.Valid() && w.Out() == Opened(o, ms + [Member(KeyName(HoverKey), HoverJson(s))])
  {
    hide Text;
    hide Put;
    hide Opened;
    hide KeyName;
    hide SymbolJson;
    AddMember(o, ms, HoverKey, HoverJson(s));
    WriteKey(w, false, HoverKey);
    if 0 <= s.hoverIndex < |s.items| {
      WriteSymbol(w, s.items[s.hoverIndex]);
    } else {
      WriteNull(w);
    }
  }

  method WriteDocument(w: TextWriter, s: Snapshot)
    requires w.Valid()
    modifies w, w.out
    ensures w.Valid() && w.Out() == Put(old(w.Out()), Text(DocumentJson(s)))
  {
    hide Text;
    hide Put;
    hide KeyName;
    hide Opened;
    hide HoverJson;
    hide SymbolsJson;
    hide DiagnosticsJson;
    hide StringsJson;
    ghost var o := w.Out();
    NothingOpened(o);
    ghost var ms: seq<Member> := [];
    DiagnosticsMember(w, true, DiagnosticsKey, s.diagnostics, o, ms);
    ms := ms + [Member(KeyName(DiagnosticsKey), List(DiagnosticsJson(s.diagnostics)))];
    SymbolsMember(w, false, CompletionItemsKey, s.items, o, ms);
    ms := ms + [Member(KeyName(CompletionItemsKey), List(SymbolsJson(s.items)))];
    HoverMember(w, s, o, ms);
    ms := ms + [Member(KeyName(HoverKey), HoverJson(s))];
    StringsMember(w, false, DependenciesKey, s.dependencies, o, ms);
    ms := ms + [Member(KeyName(DependenciesKey), List(StringsJson(s.dependencies)))];
    FlagMember(w, false, PartialKey, s.isPartial, o, ms);
    ms := ms + [Member(KeyName(PartialKey), Boolean(s.isPartial))];
    assert Object(ms) == DocumentJson(s);
    CloseObject(o, ms);
    w.WriteBytes("}");
  }

  // ag_language_analysis_snapshot_write_json: the length of the document, -1 when it is longer than
  // an int says, -2 when the buffer is too small for it and its terminator.
  method Write(s: Snapshot, out: array?<char>, size: nat) returns (r: int)
    requires out != null ==> size <= out.Length
    modifies out
    ensures
      var text := Text(DocumentJson(s));
      r == if |text| > INT_MAX then -1 else if out != null && |text| + 1 > size then -2 else |text|
    ensures
      var text := Text(DocumentJson(s));
      out != null && size > 0 && |text| <= INT_MAX ==>
        var end := if |text| < size then |text| else size - 1;
        out[..end] == text[..end] && out[end] == '\0'
  {
    hide Text;
    hide DocumentJson;
    var w := new TextWriter(out, size);
    WriteDocument(w, s);
    ghost var text := Text(DocumentJson(s));
    assert "" + text == text;
    r := w.Finish();
    if r >= 0 && out != null && w.length + 1 > size {
      r := -2;
    }
  }

  // The document of a snapshot is read as the value it stands for.
  lemma DocumentReadsBack(s: Snapshot)
    ensures Read(Text(DocumentJson(s))) == Some((DocumentJson(s), ""))
  {
    hide Text;
    hide Read;
    hide DocumentJson;
    ReadBack(DocumentJson(s), "");
    assert Text(DocumentJson(s)) + "" == Text(DocumentJson(s));
  }
}
