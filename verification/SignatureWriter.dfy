/**
 The writer of canonical signatures: it walks the type graph and prints as it goes. What it prints
 is the text of the term that `TypeGraph` assigns to the type.
 */
module SignatureWriter {
  import opened Options
  import opened Decimals
  import opened Signatures
  import opened TypeGraph
  import opened TargetInfo
  import opened TextWriters

  // ---------------------------------------------------------------- the table as the machine holds it

  predicate FitsInt(s: string) {
    |s| <= INT_MAX
  }

  predicate MachineShape(s: Shape) {
    match s
    case IntegerType(_, _, _, enumTag) => FitsInt(enumTag)
    case FunctionType(_, parameters, _, _) => |parameters| <= INT_MAX
    case RecordType(_, tag, decl) =>
      FitsInt(tag) && (decl.Some? ==> |decl.value.members| <= INT_MAX && forall m <- decl.value.members :: FitsInt(m.name))
    case _ => true
  }

  // Ids are 32-bit and every length is an int.
  predicate MachineTable(g: Table) {
    |g.types.Keys| <= 0xFFFF_FFFF && forall id <- g.types :: MachineShape(g.types[id])
  }

  predicate IsPath(g: Table, path: seq<TypeId>) {
    && (forall i :: 0 <= i < |path| ==> path[i] in g.types)
    && forall i, j :: 0 <= i < j < |path| ==> path[i] != path[j]
  }

  // A path visits a type at most once, so it is no longer than the table.
  lemma PathFits(g: Table, path: seq<TypeId>)
    requires IsPath(g, path)
    ensures |path| <= |g.types.Keys|
  {
    DistinctFit(path, g.types.Keys);
  }

  lemma {:induction false} DistinctFit(path: seq<TypeId>, ids: set<TypeId>)
    requires forall i :: 0 <= i < |path| ==> path[i] in ids
    requires forall i, j :: 0 <= i < j < |path| ==> path[i] != path[j]
    ensures |path| <= |ids|
  {
    if path != [] {
      assert forall i :: 0 <= i < |path[1..]| ==> path[1..][i] == path[i + 1];
      DistinctFit(path[1..], ids - {path[0]});
    }
  }

  // ---------------------------------------------------------------- printing terms piece by piece

  function PutTerm(o: Out, t: Option<Term>): Out {
    if t.None? then Failed else Put(o, Text(t.value, ""))
  }

  // What follows a term is printed behind it.
  lemma {:induction false} TextAppends(t: Term, a: string, b: string)
    ensures Text(t, a + b) == Text(t, a) + b
    decreases t
  {
    NodeAppends(t.node, a, b);
    Assoc(t.quals, NodeText(t.node, a), b);
  }

  lemma {:induction false} NodeAppends(n: Node, a: string, b: string)
    ensures NodeText(n, a + b) == NodeText(n, a) + b
    decreases n
  {
    hide Decimal;
    hide CountedText;
    hide LeafText;
    hide Text;
    hide BodyText;
    hide CallText;
    match n {
      case LeafNode(leaf) => LeafAppends(leaf, a, b);
      case Pointer(target) =>
        Assoc(">", a, b);
        TextAppends(target, ">" + a, b);
        Assoc("p<", Text(target, ">" + a), b);
      case Array(length, element) =>
        Assoc(">", a, b);
        TextAppends(element, ">" + a, b);
        Assoc("<", Text(element, ">" + a), b);
        Assoc(Decimal(length), "<" + Text(element, ">" + a), b);
        Assoc("a", Decimal(length) + ("<" + Text(element, ">" + a)), b);
      case Function(result, call) =>
        CallAppends(call, a, b);
        TextAppends(result, CallText(call, a), b);
      case Anonymous(isStruct, body) =>
        Assoc("]", a, b);
        BodyAppends(body, "]" + a, b);
        Assoc(if isStruct then "s[" else "u[", BodyText(body, "]" + a), b);
      case Tagged(isStruct, tag, shape) =>
        if shape.Some? {
          Assoc("]", a, b);
          BodyAppends(shape.value, "]" + a, b);
          Assoc("[", BodyText(shape.value, "]" + a), b);
        }
        var behind := if shape.Some? then "[" + BodyText(shape.value, "]" + a) else a;
        TagAppends(tag, behind, b);
        Assoc(if isStruct then "s{" else "u{", CountedText(tag, "}" + behind), b);
    }
  }

  lemma TagAppends(tag: string, a: string, b: string)
    ensures CountedText(tag, "}" + (a + b)) == CountedText(tag, "}" + a) + b
  {
    hide CountedText;
    Assoc("}", a, b);
    CountedAppends(tag, "}" + a, b);
  }

  lemma CountedAppends(name: string, a: string, b: string)
    ensures CountedText(name, a + b) == CountedText(name, a) + b
  {
    hide Decimal;
    Assoc(name, a, b);
    Assoc(":", name + a, b);
    Assoc(Decimal(|name|), ":" + (name + a), b);
  }

  lemma DecimalAppends(lead: string, n: nat, a: string, b: string)
    ensures lead + (Decimal(n) + (a + b)) == lead + (Decimal(n) + a) + b
  {
    hide Decimal;
    Assoc(Decimal(n), a, b);
    Assoc(lead, Decimal(n) + a, b);
  }

  lemma LeafAppends(leaf: Leaf, a: string, b: string)
    ensures LeafText(leaf, a + b) == LeafText(leaf, a) + b
  {
    hide Decimal;
    hide CountedText;
    match leaf {
      case Ref(d) => DecimalAppends("r", d, a, b);
      case Void => Assoc("v", a, b);
      case Bool => Assoc("b", a, b);
      case AnonymousEnum(u, bits) =>
        Assoc("I>", a, b);
        DecimalAppends(if u then "e<u" else "e<i", bits, "I>" + a, b);
      case TaggedEnum(tag, u, bits) =>
        Assoc("I}", a, b);
        DecimalAppends(if u then ":u" else ":i", bits, "I}" + a, b);
        var behind := (if u then ":u" else ":i") + (Decimal(bits) + ("I}" + a));
        CountedAppends(tag, behind, b);
        Assoc("e{", CountedText(tag, behind), b);
      case PlainChar(bits) => DecimalAppends("c", bits, a, b);
      case LongLong(u, bits) => DecimalAppends(if u then "ull" else "ll", bits, a, b);
      case Long(u, bits) => DecimalAppends(if u then "ul" else "l", bits, a, b);
      case Integer(u, bits, suffix) =>
        Assoc(SuffixText(suffix), a, b);
        DecimalAppends(if u then "u" else "i", bits, SuffixText(suffix) + a, b);
      case Floating(c, bits, kind) =>
        Assoc(FloatText(kind), a, b);
        DecimalAppends(if c then "x" else "f", bits, FloatText(kind) + a, b);
    }
  }

  lemma {:induction false} CallAppends(call: Call, a: string, b: string)
    ensures CallText(call, a + b) == CallText(call, a) + b
    decreases call
  {
    Assoc(")", a, b);
    ArgumentsAppend(call.params, call.isVariadic, ")" + a, b);
    Assoc("(", ArgumentsText(call.params, call.isVariadic, ")" + a), b);
  }

  lemma {:induction false} ArgumentsAppend(ts: seq<Term>, isVariadic: bool, a: string, b: string)
    ensures ArgumentsText(ts, isVariadic, a + b) == ArgumentsText(ts, isVariadic, a) + b
    decreases ts
  {
    if ts == [] {
      Assoc(if isVariadic then "..." else "", a, b);
    } else {
      ArgumentsAppend(ts[1..], isVariadic, a, b);
      var behind := ArgumentsText(ts[1..], isVariadic, a);
      Assoc(",", behind, b);
      TextAppends(ts[0], if |ts| > 1 || isVariadic then "," + behind else behind, b);
    }
  }

  lemma {:induction false} BodyAppends(body: Body, a: string, b: string)
    ensures BodyText(body, a + b) == BodyText(body, a) + b
    decreases body
  {
    hide Decimal;
    MembersAppend(body.members, a, b);
    Assoc(Decimal(|body.members|), MembersText(body.members, a), b);
    Assoc(":", Decimal(|body.members|) + MembersText(body.members, a), b);
  }

  lemma {:induction false} MembersAppend(ms: seq<Member>, a: string, b: string)
    ensures MembersText(ms, a + b) == MembersText(ms, a) + b
    decreases ms
  {
    if ms != [] {
      MembersAppend(ms[1..], a, b);
      TextAppends(ms[0].term, MembersText(ms[1..], a), b);
      HeadAppends(ms[0], Text(ms[0].term, MembersText(ms[1..], a)), b);
    }
  }

  lemma HeadAppends(m: Member, a: string, b: string)
    ensures MemberHead(m, a + b) == MemberHead(m, a) + b
  {
    hide Decimal;
    hide Signed;
    hide CountedText;
    var ra := Decimal(m.alignment) + (":" + a);
    var rf := Flag(m.isAligned) + (":" + ra);
    var rs := (if m.bitIsSigned then "s:" else "u:") + ("m" + rf);
    Assoc(":", a, b);
    Assoc(Decimal(m.alignment), ":" + a, b);
    Assoc(":", ra, b);
    Assoc(Flag(m.isAligned), ":" + ra, b);
    Assoc("m", rf, b);
    Assoc(if m.bitIsSigned then "s:" else "u:", "m" + rf, b);
    Assoc(Signed(m.bitWidth), rs, b);
    Assoc(":", Signed(m.bitWidth) + rs, b);
    CountedAppends(m.name, ":" + (Signed(m.bitWidth) + rs), b);
    Assoc("|", CountedText(m.name, ":" + (Signed(m.bitWidth) + rs)), b);
  }

  // A term, then more text.
  lemma PutTermThen(o: Out, t: Term, rest: string)
    ensures Put(PutTerm(o, Some(t)), rest) == Put(o, Text(t, rest))
  {
    assert "" + rest == rest;
    TextAppends(t, "", rest);
    PutPut(o, Text(t, ""), rest);
  }

  // The parameter list as the writer prints it: a comma in front of all but the first.
  function PutArguments(o: Out, g: Table, qs: seq<QualType>, isVariadic: bool, path: seq<TypeId>, first: bool): Out
    decreases |qs|
  {
    if qs == [] then
      if isVariadic then Put(o, (if first then "" else ",") + "...") else o
    else
      var comma := if first then o else Put(o, ",");
      PutArguments(PutTerm(comma, TermOf(g, qs[0], path)), g, qs[1..], isVariadic, path, false)
  }

  // The comma in front or behind, the list reads the same.
  lemma {:induction false} ArgumentsArePut(
    o: Out, g: Table, qs: seq<QualType>, isVariadic: bool, path: seq<TypeId>, first: bool)
    requires TextWriters.Fits(o)
    ensures PutArguments(o, g, qs, isVariadic, path, first) ==
      match TermsOf(g, qs, path)
      case None => Failed
      case Some(ts) =>
        Put(o, (if first || (qs == [] && !isVariadic) then "" else ",") + ArgumentsText(ts, isVariadic, ""))
    decreases |qs|
  {
    hide TermOf;
    var lead := if first || (qs == [] && !isVariadic) then "" else ",";
    if qs == [] {
      assert (if isVariadic then "..." else "") + "" == if isVariadic then "..." else "";
      if !isVariadic && o.Written? {
        assert o.text + ("" + "") == o.text;
      }
    } else {
      var comma := if first then o else Put(o, ",");
      var t := TermOf(g, qs[0], path);
      ArgumentsArePut(PutTerm(comma, t), g, qs[1..], isVariadic, path, false);
      var more := |qs| > 1 || isVariadic;
      if t.Some? && TermsOf(g, qs[1..], path).Some? {
        var us := TermsOf(g, qs[1..], path).value;
        var ts := [t.value] + us;
        assert ts[1..] == us;
        var rest := (if more then "," else "") + ArgumentsText(us, isVariadic, "");
        assert !more ==> "" + ArgumentsText(us, isVariadic, "") == ArgumentsText(us, isVariadic, "");
        PutTermThen(comma, t.value, rest);
        assert ArgumentsText(ts, isVariadic, "") == Text(t.value, rest);
        PutPut(o, lead, Text(t.value, rest));
        assert first ==> "" + Text(t.value, rest) == Text(t.value, rest);
      }
    }
  }

  function InfoHead(info: MemberInfo): string {
    MemberHead(MemberNode(info, Term("", LeafNode(Void))), "")
  }

  // The members as the writer prints them, one after the other until one is malformed.
  function PutMembers(o: Out, g: Table, ms: seq<MemberDecl>, path: seq<TypeId>): Out
    decreases |ms|
  {
    if ms == [] then o
    else if !IsWellFormedMember(ms[0]) then Failed
    else PutMembers(PutTerm(Put(o, InfoHead(InfoOf(ms[0]))), TermOf(g, ms[0].memberType, path)), g, ms[1..], path)
  }

  lemma {:induction false} MembersArePut(o: Out, g: Table, ms: seq<MemberDecl>, path: seq<TypeId>)
    requires TextWriters.Fits(o)
    ensures !(forall m <- ms :: IsWellFormedMember(m)) ==> PutMembers(o, g, ms, path) == Failed
    ensures (forall m <- ms :: IsWellFormedMember(m)) ==>
      PutMembers(o, g, ms, path) ==
        match TermsOf(g, MemberTypes(ms), path)
        case None => Failed
        case Some(ts) => Put(o, MembersText(MemberNodes(Infos(ms), ts), ""))
    decreases |ms|
  {
    hide TermOf;
    if ms == [] {
      if o.Written? {
        assert o.text + "" == o.text;
      }
    } else if IsWellFormedMember(ms[0]) {
      assert ms == [ms[0]] + ms[1..];
      var head := Put(o, InfoHead(InfoOf(ms[0])));
      var t := TermOf(g, ms[0].memberType, path);
      MembersArePut(PutTerm(head, t), g, ms[1..], path);
      assert MemberTypes(ms)[1..] == MemberTypes(ms[1..]);
      if (forall m <- ms :: IsWellFormedMember(m)) && t.Some? && TermsOf(g, MemberTypes(ms[1..]), path).Some? {
        OneMemberIsPut(o, g, ms, path);
      }
    }
  }

  lemma OneMemberIsPut(o: Out, g: Table, ms: seq<MemberDecl>, path: seq<TypeId>)
    requires ms != [] && (forall m <- ms :: IsWellFormedMember(m))
    requires TermsOf(g, MemberTypes(ms), path).Some?
    ensures TermOf(g, ms[0].memberType, path).Some? && TermsOf(g, MemberTypes(ms[1..]), path).Some?
    ensures var t, us := TermOf(g, ms[0].memberType, path).value, TermsOf(g, MemberTypes(ms[1..]), path).value;
      Put(PutTerm(Put(o, InfoHead(InfoOf(ms[0]))), Some(t)), MembersText(MemberNodes(Infos(ms[1..]), us), "")) ==
      Put(o, MembersText(MemberNodes(Infos(ms), TermsOf(g, MemberTypes(ms), path).value), ""))
  {
    hide TermOf;
    hide MemberHead;
    assert MemberTypes(ms)[1..] == MemberTypes(ms[1..]);
    var t, us := TermOf(g, ms[0].memberType, path).value, TermsOf(g, MemberTypes(ms[1..]), path).value;
    var ts := [t] + us;
    var node := MemberNode(InfoOf(ms[0]), t);
    var rest := MembersText(MemberNodes(Infos(ms[1..]), us), "");
    assert ts[1..] == us && Infos(ms)[1..] == Infos(ms[1..]) && Infos(ms)[0] == InfoOf(ms[0]);
    assert MemberNodes(Infos(ms), ts)[1..] == MemberNodes(Infos(ms[1..]), us);
    PutTermThen(Put(o, InfoHead(InfoOf(ms[0]))), t, rest);
    HeadIgnoresTerm(InfoOf(ms[0]), t, Text(t, rest));
    PutPut(o, InfoHead(InfoOf(ms[0])), Text(t, rest));
  }

  lemma HeadIgnoresTerm(info: MemberInfo, t: Term, rest: string)
    ensures MemberHead(MemberNode(info, t), rest) == InfoHead(info) + rest
  {
    assert MemberHead(MemberNode(info, t), rest) == MemberHead(MemberNode(info, Term("", LeafNode(Void))), rest);
    assert "" + rest == rest;
    HeadAppends(MemberNode(info, Term("", LeafNode(Void))), "", rest);
  }

  // ---------------------------------------------------------------- the writer

  method PathDistance(path: seq<TypeId>, id: TypeId) returns (d: int)
    ensures d == Distance(path, id)
  {
    d := 0;
    assert path[0..] == path;
    while d < |path|
      invariant 0 <= d <= |path|
      invariant Distance(path, id) == (if Distance(path[d..], id) < 0 then -1 else Distance(path[d..], id) + d)
    {
      if path[d] == id {
        return;
      }
      assert path[d..][1..] == path[d + 1..];
      d := d + 1;
    }
    d := -1;
  }

  method WriteQualifiers(w: TextWriter, q: Qualifiers)
    requires w.Valid()
    modifies w, w.out
    ensures w.Valid() && w.Out() == Put(old(w.Out()), QualifierText(q))
  {
    ghost var o := w.Out();
    var k, v := if q.isConst then "k" else "", if q.isVolatile then "V" else "";
    var a, r := if q.isAtomic then "A" else "", if q.isRestrict then "R" else "";
    PutPut(o, k, v);
    PutPut(o, k + v, a);
    PutPut(o, k + v + a, r);
    w.WriteBytes(k);
    w.WriteBytes(v);
    w.WriteBytes(a);
    w.WriteBytes(r);
    assert k + v + (a + r) == k + v + a + r;
  }

  method WriteType(w: TextWriter, g: Table, q: QualType, path: seq<TypeId>)
    requires w.Valid() && MachineTable(g) && IsPath(g, path)
    modifies w, w.out
    ensures w.Valid() && w.Out() == PutTerm(old(w.Out()), TermOf(g, q, path))
    decreases Unvisited(g, path), 1, 0
  {
    hide Decimal;
    if q.id == INVALID_ID || q.id !in g.types {
      w.Fail();
      return;
    }
    ghost var o := w.Out();
    WriteQualifiers(w, q.quals);
    var distance := PathDistance(path, q.id);
    if distance >= 0 {
      PathFits(g, path);
      PutPut(o, QualifierText(q.quals), "r");
      PutPut(o, QualifierText(q.quals) + "r", Decimal(distance));
      w.WriteBytes("r");
      w.WriteUnsigned(distance);
      RefText(q.quals, distance);
      return;
    }
    WriteNode(w, g, q.id, path);
    NodeBehindQualifiers(o, g, q, path);
  }

  lemma RefText(q: Qualifiers, d: nat)
    ensures Text(Term(QualifierText(q), LeafNode(Ref(d))), "") == QualifierText(q) + "r" + Decimal(d)
  {
    hide Decimal;
    hide QualifierText;
    assert Decimal(d) + "" == Decimal(d);
    Assoc(QualifierText(q), "r", Decimal(d));
  }

  function PutNode(o: Out, n: Option<Node>): Out {
    if n.None? then Failed else Put(o, NodeText(n.value, ""))
  }

  lemma NodeBehindQualifiers(o: Out, g: Table, q: QualType, path: seq<TypeId>)
    requires Known(g, q.id) && q.id !in path
    ensures PutNode(Put(o, QualifierText(q.quals)), NodeOf(g, q.id, path)) == PutTerm(o, TermOf(g, q, path))
  {
    hide NodeOf;
    var n := NodeOf(g, q.id, path);
    if n.Some? {
      PutPut(o, QualifierText(q.quals), NodeText(n.value, ""));
    }
  }

  // ---------------------------------------------------------------- one node

  // A number between two pieces of text.
  method WriteNumber(w: TextWriter, lead: string, n: nat, tail: string)
    requires w.Valid() && n <= 0xFFFF_FFFF
    modifies w, w.out
    ensures w.Valid() && w.Out() == Put(old(w.Out()), lead + (Decimal(n) + tail))
  {
    hide Decimal;
    PutPut(w.Out(), lead, Decimal(n));
    PutPut(w.Out(), lead + Decimal(n), tail);
    Assoc(lead, Decimal(n), tail);
    w.WriteBytes(lead);
    w.WriteUnsigned(n);
    w.WriteBytes(tail);
  }

  // A name behind its length.
  method WriteName(w: TextWriter, name: string)
    requires w.Valid() && FitsInt(name)
    modifies w, w.out
    ensures w.Valid() && w.Out() == Put(old(w.Out()), CountedText(name, ""))
  {
    hide Decimal;
    ghost var o := w.Out();
    PutPut(o, "" + (Decimal(|name|) + ":"), name);
    assert "" + (Decimal(|name|) + ":") + name == Decimal(|name|) + (":" + (name + ""));
    WriteNumber(w, "", |name|, ":");
    if |name| > 0 {
      w.WriteBytes(name);
    } else {
      assert name == "";
      PutNothing(o, Decimal(0) + ":");
    }
  }

  lemma PutNothing(o: Out, s: string)
    ensures Put(Put(o, s), "") == Put(o, s)
  {
    assert s + "" == s;
    PutPut(o, s, "");
  }

  method WriteEnum(w: TextWriter, tag: string, isUnsigned: bool, bits: nat)
    requires w.Valid() && FitsInt(tag) && bits <= 0xFFFF_FFFF
    modifies w, w.out
    ensures w.Valid()
    ensures w.Out() == Put(old(w.Out()),
      LeafText(if IsGeneratedTag(tag) then AnonymousEnum(isUnsigned, bits) else TaggedEnum(tag, isUnsigned, bits), ""))
  {
    hide Decimal;
    hide IsGeneratedTag;
    ghost var o := w.Out();
    if IsGeneratedTag(tag) {
      WriteNumber(w, if isUnsigned then "e<u" else "e<i", bits, "I>");
      assert "I>" == "I>" + "";
    } else {
      w.WriteBytes("e{");
      WriteName(w, tag);
      WriteNumber(w, if isUnsigned then ":u" else ":i", bits, "I}");
      EnumText(o, tag, isUnsigned, bits);
    }
  }

  lemma EnumText(o: Out, tag: string, isUnsigned: bool, bits: nat)
    ensures
      Put(Put(Put(o, "e{"), CountedText(tag, "")), (if isUnsigned then ":u" else ":i") + (Decimal(bits) + "I}")) ==
      Put(o, LeafText(TaggedEnum(tag, isUnsigned, bits), ""))
  {
    hide Decimal;
    hide CountedText;
    hide Put;
    var rest := (if isUnsigned then ":u" else ":i") + (Decimal(bits) + "I}");
    assert "I}" == "I}" + "" && "" + rest == rest;
    PutPut(o, "e{", CountedText(tag, ""));
    PutPut(o, "e{" + CountedText(tag, ""), rest);
    CountedAppends(tag, "", rest);
    Assoc("e{", CountedText(tag, ""), rest);
  }

  method WriteInteger(w: TextWriter, layout: DataLayout, kind: IntegerKind, isUnsigned: bool, isPlainChar: bool,
      tag: string)
    requires w.Valid() && FitsInt(tag)
    modifies w, w.out
    ensures w.Valid()
    ensures w.Out() == Put(old(w.Out()), LeafText(IntegerLeaf(layout, kind, isUnsigned, isPlainChar, tag), ""))
  {
    hide Decimal;
    hide IntegerBits;
    hide IsGeneratedTag;
    hide CountedText;
    hide Put;
    var bits := IntegerBits(layout, kind, isPlainChar);
    assert forall s: string :: s + "" == s;
    if kind == EnumKind {
      WriteEnum(w, tag, isUnsigned, bits);
    } else if isPlainChar {
      WriteNumber(w, "c", bits, "");
    } else if kind == LongLongKind {
      WriteNumber(w, if isUnsigned then "ull" else "ll", bits, "");
    } else if kind == LongKind {
      WriteNumber(w, if isUnsigned then "ul" else "l", bits, "");
    } else {
      var suffix := if kind == CharKind then "C" else if kind == ShortKind then "S" else if kind == IntKind then "I" else "";
      WriteNumber(w, if isUnsigned then "u" else "i", bits, suffix);
    }
  }

  method WriteFloating(w: TextWriter, layout: DataLayout, kind: FloatingKind, isComplex: bool)
    requires w.Valid()
    modifies w, w.out
    ensures w.Valid()
    ensures w.Out() ==
      if kind == NoFloatingKind then Failed
      else
        var suffix := match kind case FloatKind => FloatF case DoubleKind => FloatD case _ => FloatL;
        Put(old(w.Out()), LeafText(Floating(isComplex, Bits(ScalarSize(layout, FloatingScalar(kind, isComplex))), suffix), ""))
  {
    hide Decimal;
    hide ScalarSize;
    hide Put;
    var bits := Bits(ScalarSize(layout, FloatingScalar(kind, isComplex)));
    assert forall s: string :: s + "" == s;
    var letter := match kind case FloatKind => "F" case DoubleKind => "D" case LongDoubleKind => "L" case NoFloatingKind => "";
    WriteNumber(w, if isComplex then "x" else "f", bits, letter);
    if kind == NoFloatingKind {
      w.Fail();
    }
  }

  // Going down a level puts the type on the path.
  lemma Descend(g: Table, id: TypeId, path: seq<TypeId>)
    requires IsPath(g, path) && Known(g, id) && id !in path
    ensures IsPath(g, [id] + path)
    ensures Unvisited(g, [id] + path) < Unvisited(g, path)
  {
    assert id in Unvisited(g, path) && id !in Unvisited(g, [id] + path);
    assert Unvisited(g, [id] + path) <= Unvisited(g, path);
  }

  lemma OneTerm(g: Table, q: QualType, path: seq<TypeId>)
    ensures TermsOf(g, [q], path) == if TermOf(g, q, path).None? then None else Some([TermOf(g, q, path).value])
  {
    hide TermOf;
    assert [q][1..] == [];
    assert TermsOf(g, [], path) == Some([]);
    assert TermOf(g, q, path).Some? ==> [TermOf(g, q, path).value] + [] == [TermOf(g, q, path).value];
  }

  // A leaf is printed as it stands.
  lemma LeafIsPut(o: Out, g: Table, id: TypeId, path: seq<TypeId>)
    requires Known(g, id) && id !in path && IsPrintable(g.types[id]) && LabelOf(g.layout, g.types[id]).LeafLabel?
    ensures PutNode(o, NodeOf(g, id, path)) == Put(o, LeafText(LabelOf(g.layout, g.types[id]).leaf, ""))
  {
    hide LeafText;
    hide IntegerLeaf;
    assert TermsOf(g, [], [id] + path) == Some([]);
  }

  lemma PointerIsPut(o: Out, g: Table, id: TypeId, path: seq<TypeId>)
    requires Known(g, id) && id !in path && g.types[id].PointerType?
    ensures Put(PutTerm(Put(o, "p<"), TermOf(g, g.types[id].pointee, [id] + path)), ">") == PutNode(o, NodeOf(g, id, path))
  {
    hide TermOf;
    OneTerm(g, g.types[id].pointee, [id] + path);
    var t := TermOf(g, g.types[id].pointee, [id] + path);
    if t.Some? {
      assert ">" == ">" + "";
      PutTermThen(Put(o, "p<"), t.value, ">");
      PutPut(o, "p<", Text(t.value, ">"));
    }
  }

  lemma ArrayIsPut(o: Out, g: Table, id: TypeId, path: seq<TypeId>)
    requires Known(g, id) && id !in path && g.types[id].ArrayType?
    ensures
      var length: nat := if g.types[id].length > 0 then g.types[id].length else 0;
      Put(PutTerm(Put(o, "a" + (Decimal(length) + "<")), TermOf(g, g.types[id].element, [id] + path)), ">") ==
      PutNode(o, NodeOf(g, id, path))
  {
    hide TermOf;
    hide Decimal;
    OneTerm(g, g.types[id].element, [id] + path);
    var length: nat := if g.types[id].length > 0 then g.types[id].length else 0;
    var t := TermOf(g, g.types[id].element, [id] + path);
    if t.Some? {
      var behind := Text(t.value, ">");
      assert ">" == ">" + "";
      PutTermThen(Put(o, "a" + (Decimal(length) + "<")), t.value, ">");
      PutPut(o, "a" + (Decimal(length) + "<"), behind);
      Assoc("a", Decimal(length) + "<", behind);
      Assoc(Decimal(length), "<", behind);
      assert NodeText(Array(length, t.value), "") == "a" + (Decimal(length) + ("<" + behind));
    }
  }

  lemma FunctionIsPut(o: Out, g: Table, id: TypeId, path: seq<TypeId>)
    requires Known(g, id) && id !in path && g.types[id].FunctionType?
    ensures
      var s := g.types[id];
      var head := Put(PutTerm(o, TermOf(g, s.result, [id] + path)), "(");
      Put(PutArguments(head, g, s.parameters, s.isVariadic, [id] + path, true), ")") == PutNode(o, NodeOf(g, id, path))
  {
    hide TermOf;
    var s := g.types[id];
    var t := TermOf(g, s.result, [id] + path);
    var head := Put(PutTerm(o, t), "(");
    ArgumentsArePut(head, g, s.parameters, s.isVariadic, [id] + path, true);
    assert ([s.result] + s.parameters)[1..] == s.parameters;
    var ts := TermsOf(g, s.parameters, [id] + path);
    if t.Some? && ts.Some? {
      assert ([t.value] + ts.value)[1..] == ts.value;
      FunctionTextIsPut(o, t.value, Call(ts.value, s.isVariadic));
    }
  }

  lemma FunctionTextIsPut(o: Out, t: Term, call: Call)
    ensures
      Put(Put(Put(PutTerm(o, Some(t)), "("), "" + ArgumentsText(call.params, call.isVariadic, "")), ")") ==
      Put(o, Text(t, CallText(call, "")))
  {
    hide Text;
    hide Put;
    hide PutTerm;
    var arguments := ArgumentsText(call.params, call.isVariadic, "");
    PutPut(PutTerm(o, Some(t)), "(", "" + arguments);
    PutPut(PutTerm(o, Some(t)), "(" + ("" + arguments), ")");
    ArgumentsAppend(call.params, call.isVariadic, "", ")");
    assert "" + arguments == arguments && "" + ")" == ")" && ")" + "" == ")";
    Assoc("(", arguments, ")");
    assert CallText(call, "") == "(" + arguments + ")";
    PutTermThen(o, t, CallText(call, ""));
  }

  // The record's list of members, once its head is written.
  function PutBody(o: Out, g: Table, decl: RecordDecl, path: seq<TypeId>): Out {
    PutMembers(Put(o, Flag(decl.isComplete) + (":" + Decimal(|decl.members|))), g, decl.members, path)
  }

  lemma BodyIsPut(o: Out, g: Table, decl: RecordDecl, path: seq<TypeId>, tail: string)
    ensures !(forall m <- decl.members :: IsWellFormedMember(m)) ==> PutBody(o, g, decl, path) == Failed
    ensures (forall m <- decl.members :: IsWellFormedMember(m)) ==>
      Put(PutBody(o, g, decl, path), tail) ==
        match TermsOf(g, MemberTypes(decl.members), path)
        case None => Failed
        case Some(ts) => Put(o, BodyText(Body(decl.isComplete, MemberNodes(Infos(decl.members), ts)), tail))
  {
    hide TermsOf;
    hide Decimal;
    var head := Flag(decl.isComplete) + (":" + Decimal(|decl.members|));
    MembersArePut(Put(o, head), g, decl.members, path);
    var ts := TermsOf(g, MemberTypes(decl.members), path);
    if (forall m <- decl.members :: IsWellFormedMember(m)) && ts.Some? {
      var ms := MemberNodes(Infos(decl.members), ts.value);
      PutPut(Put(o, head), MembersText(ms, ""), tail);
      MembersAppend(ms, "", tail);
      assert "" + tail == tail;
      PutPut(o, head, MembersText(ms, tail));
      Assoc(Flag(decl.isComplete), ":" + Decimal(|ms|), MembersText(ms, tail));
      Assoc(":", Decimal(|ms|), MembersText(ms, tail));
    }
  }

  function PutRecord(o: Out, g: Table, s: Shape, path: seq<TypeId>): Out
    requires s.RecordType?
  {
    if s.decl.Some? && s.decl.value.isAnonymous then
      Put(PutBody(Put(o, if s.isStruct then "s[" else "u["), g, s.decl.value, path), "]")
    else
      var head := Put(Put(Put(o, if s.isStruct then "s{" else "u{"), CountedText(s.tag, "")), "}");
      if s.decl.None? then head else Put(PutBody(Put(head, "["), g, s.decl.value, path), "]")
  }

  lemma RecordIsPut(o: Out, g: Table, id: TypeId, path: seq<TypeId>)
    requires Known(g, id) && id !in path && g.types[id].RecordType?
    ensures PutRecord(o, g, g.types[id], [id] + path) == PutNode(o, NodeOf(g, id, path))
  {
    hide TermsOf;
    hide PutBody;
    hide BodyText;
    hide CountedText;
    hide MemberNodes;
    hide Infos;
    hide IsWellFormedMember;
    var s := g.types[id];
    var first := if s.decl.Some? && s.decl.value.isAnonymous then if s.isStruct then "s[" else "u["
                 else if s.isStruct then "s{" else "u{";
    assert "]" + "" == "]";
    if s.decl.Some? {
      var ts := TermsOf(g, MemberTypes(s.decl.value.members), [id] + path);
      if s.decl.value.isAnonymous {
        BodyIsPut(Put(o, first), g, s.decl.value, [id] + path, "]");
        if IsPrintable(s) && ts.Some? {
          PutPut(o, first, BodyText(Body(s.decl.value.isComplete, MemberNodes(Infos(s.decl.value.members), ts.value)), "]"));
        }
      } else {
        TagIsPut(o, first, s.tag, "[");
        BodyIsPut(Put(Put(Put(Put(o, first), CountedText(s.tag, "")), "}"), "["), g, s.decl.value, [id] + path, "]");
        if IsPrintable(s) && ts.Some? {
          var body := BodyText(Body(s.decl.value.isComplete, MemberNodes(Infos(s.decl.value.members), ts.value)), "]");
          PutPut(o, first + CountedText(s.tag, "}["), body);
          TagBefore(first, s.tag, body);
          assert "}" + "[" == "}[";
        }
      }
    } else {
      TermsOfNone(g, [id] + path);
      TagIsPut(o, first, s.tag, "");
      PutNothingMore(Put(Put(Put(o, first), CountedText(s.tag, "")), "}"));
      assert "}" + "" == "}";
    }
  }

  lemma TermsOfNone(g: Table, path: seq<TypeId>)
    ensures TermsOf(g, [], path) == Some([])
  {}

  lemma PutNothingMore(o: Out)
    requires TextWriters.Fits(o)
    ensures Put(o, "") == o
  {
    if o.Written? {
      assert o.text + "" == o.text;
    }
  }

  lemma TagIsPut(o: Out, first: string, tag: string, more: string)
    ensures Put(Put(Put(Put(o, first), CountedText(tag, "")), "}"), more) == Put(o, first + CountedText(tag, "}" + more))
  {
    hide CountedText;
    hide Put;
    PutPut(o, first, CountedText(tag, ""));
    PutPut(o, first + CountedText(tag, ""), "}");
    PutPut(o, first + CountedText(tag, "") + "}", more);
    CountedAppends(tag, "", "}" + more);
    assert "" + ("}" + more) == "}" + more;
    Assoc(first + CountedText(tag, ""), "}", more);
    Assoc(first, CountedText(tag, ""), "}" + more);
  }

  lemma TagBefore(first: string, tag: string, body: string)
    ensures first + CountedText(tag, "}[") + body == first + CountedText(tag, "}" + ("[" + body))
  {
    hide CountedText;
    CountedAppends(tag, "}[", body);
    assert "}[" + body == "}" + ("[" + body);
    Assoc(first, CountedText(tag, "}["), body);
  }

  // ---------------------------------------------------------------- the recursive writer

  method WriteArguments(w: TextWriter, g: Table, parameters: seq<QualType>, isVariadic: bool, path: seq<TypeId>)
    requires w.Valid() && MachineTable(g) && IsPath(g, path)
    modifies w, w.out
    ensures w.Valid() && w.Out() == PutArguments(old(w.Out()), g, parameters, isVariadic, path, true)
    decreases Unvisited(g, path), 2, 0
  {
    ghost var goal := PutArguments(w.Out(), g, parameters, isVariadic, path, true);
    var i := 0;
    assert parameters[0..] == parameters;
    while i < |parameters|
      invariant 0 <= i <= |parameters| && w.Valid()
      invariant PutArguments(w.Out(), g, parameters[i..], isVariadic, path, i == 0) == goal
    {
      assert parameters[i..][1..] == parameters[i + 1..];
      if i > 0 {
        w.WriteBytes(",");
      }
      WriteType(w, g, parameters[i], path);
      i := i + 1;
    }
    if isVariadic {
      ghost var o := w.Out();
      if |parameters| > 0 {
        w.WriteBytes(",");
        PutPut(o, ",", "...");
      }
      w.WriteBytes("...");
      assert "" + "..." == "...";
    }
  }

  method WriteRecordBody(w: TextWriter, g: Table, decl: RecordDecl, path: seq<TypeId>)
    requires w.Valid() && MachineTable(g) && IsPath(g, path)
    requires |decl.members| <= INT_MAX && forall m <- decl.members :: FitsInt(m.name)
    modifies w, w.out
    ensures w.Valid() && w.Out() == PutBody(old(w.Out()), g, decl, path)
    decreases Unvisited(g, path), 2, 0
  {
    hide Decimal;
    hide TermOf;
    hide Put;
    hide PutTerm;
    hide InfoHead;
    ghost var o := w.Out();
    var ms := decl.members;
    WriteFlag(w, decl.isComplete);
    PutPut(o, Flag(decl.isComplete), ":" + (Decimal(|ms|) + ""));
    assert Decimal(|ms|) + "" == Decimal(|ms|);
    WriteNumber(w, ":", |ms|, "");
    var i := 0;
    assert ms[0..] == ms;
    while i < |ms|
      invariant 0 <= i <= |ms| && w.Valid()
      invariant PutMembers(w.Out(), g, ms[i..], path) == PutBody(o, g, decl, path)
    {
      assert ms[i..][1..] == ms[i + 1..];
      var m := ms[i];
      if (m.hasAlignmentSpecifier != 0 && m.hasAlignmentSpecifier != 1)
         || m.requestedAlignment < 0
         || (m.hasAlignmentSpecifier == 0 && m.requestedAlignment != 0) {
        w.Fail();
        return;
      }
      WriteMemberHead(w, m);
      WriteType(w, g, m.memberType, path);
      i := i + 1;
    }
  }

  method WriteFlag(w: TextWriter, flag: bool)
    requires w.Valid()
    modifies w, w.out
    ensures w.Valid() && w.Out() == Put(old(w.Out()), Flag(flag))
  {
    assert Decimal(0) == "0" && Decimal(1) == "1";
    w.WriteUnsigned(if flag then 1 else 0);
  }

  method WriteMemberHead(w: TextWriter, m: MemberDecl)
    requires w.Valid() && IsWellFormedMember(m) && FitsInt(m.name)
    modifies w, w.out
    ensures w.Valid() && w.Out() == Put(old(w.Out()), InfoHead(InfoOf(m)))
  {
    hide Decimal;
    hide Signed;
    ghost var o := w.Out();
    w.WriteBytes("|");
    WriteName(w, m.name);
    w.WriteBytes(":");
    w.WriteSigned(m.bitWidth);
    w.WriteBytes(if m.bitIsSigned then "s:" else "u:");
    w.WriteBytes("m");
    WriteFlag(w, m.hasAlignmentSpecifier == 1);
    WriteNumber(w, ":", m.requestedAlignment, ":");
    HeadIsPut(o, InfoOf(m));
  }

  lemma HeadIsPut(o: Out, info: MemberInfo)
    ensures
      var named := Put(Put(Put(o, "|"), CountedText(info.name, "")), ":");
      var sized := Put(Put(Put(named, Signed(info.bitWidth)), if info.bitIsSigned then "s:" else "u:"), "m");
      Put(Put(sized, Flag(info.isAligned)), ":" + (Decimal(info.alignment) + ":")) == Put(o, InfoHead(info))
  {
    hide Decimal;
    hide Signed;
    hide Put;
    hide CountedText;
    var name, width, sign := CountedText(info.name, ""), Signed(info.bitWidth), if info.bitIsSigned then "s:" else "u:";
    var flag, last := Flag(info.isAligned), ":" + (Decimal(info.alignment) + ":");
    assert ":" + "" == ":";
    var rf := flag + last;
    var rs := sign + ("m" + rf);
    PutPut(o, "|", name);
    PutPut(o, "|" + name, ":");
    PutPut(o, "|" + name + ":", width);
    PutPut(o, "|" + name + ":" + width, sign);
    PutPut(o, "|" + name + ":" + width + sign, "m");
    PutPut(o, "|" + name + ":" + width + sign + "m", flag);
    PutPut(o, "|" + name + ":" + width + sign + "m" + flag, last);
    Assoc("|" + name + ":" + width + sign + "m", flag, last);
    Assoc("|" + name + ":" + width + sign, "m", rf);
    Assoc("|" + name + ":" + width, sign, "m" + rf);
    Assoc("|" + name + ":", width, rs);
    Assoc("|" + name, ":", width + rs);
    Assoc("|", name, ":" + (width + rs));
    CountedAppends(info.name, "", ":" + (width + rs));
    assert "" + (":" + (width + rs)) == ":" + (width + rs);
    assert InfoHead(info) == "|" + CountedText(info.name, ":" + (width + rs));
  }

  method WriteRecord(w: TextWriter, g: Table, s: Shape, path: seq<TypeId>)
    requires w.Valid() && MachineTable(g) && IsPath(g, path) && s.RecordType? && MachineShape(s)
    modifies w, w.out
    ensures w.Valid() && w.Out() == PutRecord(old(w.Out()), g, s, path)
    decreases Unvisited(g, path), 3, 0
  {
    hide PutBody;
    hide CountedText;
    hide Put;
    if s.decl.Some? && s.decl.value.isAnonymous {
      w.WriteBytes(if s.isStruct then "s[" else "u[");
      WriteRecordBody(w, g, s.decl.value, path);
      w.WriteBytes("]");
      return;
    }
    w.WriteBytes(if s.isStruct then "s{" else "u{");
    WriteName(w, s.tag);
    w.WriteBytes("}");
    if s.decl.Some? {
      w.WriteBytes("[");
      WriteRecordBody(w, g, s.decl.value, path);
      w.WriteBytes("]");
    }
  }

  method WriteNode(w: TextWriter, g: Table, id: TypeId, path: seq<TypeId>)
    requires w.Valid() && MachineTable(g) && IsPath(g, path) && Known(g, id) && id !in path
    modifies w, w.out
    ensures w.Valid() && w.Out() == PutNode(old(w.Out()), NodeOf(g, id, path))
    decreases Unvisited(g, path), 0, 0
  {
    hide PutNode;
    hide Put;
    hide PutTerm;
    hide PutArguments;
    hide PutRecord;
    hide NodeOf;
    hide LeafText;
    ghost var o := w.Out();
    var s, current := g.types[id], [id] + path;
    Descend(g, id, path);
    match s {
      case VoidType =>
        LeafIsPut(o, g, id, path);
        VoidAndBool();
        w.WriteBytes("v");
      case BoolType =>
        LeafIsPut(o, g, id, path);
        VoidAndBool();
        w.WriteBytes("b");
      case IntegerType(kind, isUnsigned, isPlainChar, enumTag) =>
        LeafIsPut(o, g, id, path);
        WriteInteger(w, g.layout, kind, isUnsigned, isPlainChar, enumTag);
      case FloatingType(kind, isComplex) =>
        if kind != NoFloatingKind {
          LeafIsPut(o, g, id, path);
        } else {
          Unprintable(o, g, id, path);
        }
        WriteFloating(w, g.layout, kind, isComplex);
      case PointerType(pointee) =>
        PointerIsPut(o, g, id, path);
        w.WriteBytes("p<");
        WriteType(w, g, pointee, current);
        w.WriteBytes(">");
      case ArrayType(length, _, element) =>
        ArrayIsPut(o, g, id, path);
        WriteNumber(w, "a", if length > 0 then length else 0, "<");
        WriteType(w, g, element, current);
        w.WriteBytes(">");
      case FunctionType(result, parameters, _, isVariadic) =>
        FunctionIsPut(o, g, id, path);
        WriteType(w, g, result, current);
        w.WriteBytes("(");
        WriteArguments(w, g, parameters, isVariadic, current);
        w.WriteBytes(")");
      case RecordType(_, _, _) =>
        RecordIsPut(o, g, id, path);
        WriteRecord(w, g, s, current);
    }
  }

  lemma VoidAndBool()
    ensures LeafText(Void, "") == "v" && LeafText(Bool, "") == "b"
  {}

  lemma Unprintable(o: Out, g: Table, id: TypeId, path: seq<TypeId>)
    requires Known(g, id) && id !in path && !IsPrintable(g.types[id])
    ensures PutNode(o, NodeOf(g, id, path)) == Failed
  {}

  // ---------------------------------------------------------------- the formatter

  // psx_format_canonical_type_signature. Without a buffer it measures; with one it writes as much
  // as fits. Either way it answers the length of the whole signature.
  method Format(g: Table, isLayoutValid: bool, q: QualType, out: array?<char>, capacity: nat) returns (r: int)
    requires MachineTable(g) && (out != null ==> capacity <= out.Length)
    requires isLayoutValid <==> IsValidLayout(g.layout)
    modifies out
    ensures
      var s := if isLayoutValid then Signature(g, q) else None;
      if s.Some? && |s.value| <= INT_MAX then
        r == |s.value| &&
        (out != null && capacity > 0 ==>
          var end := if r < capacity then r else capacity - 1;
          out[..end] == s.value[..end] && out[end] == '\0')
      else r == -1
    ensures out != null && capacity > 0 ==> exists i :: 0 <= i < capacity && out[i] == '\0'
  {
    hide TermOf;
    hide Text;
    hide MachineTable;
    var w := new TextWriter(out, capacity);
    if !isLayoutValid {
      w.Fail();
    }
    if !w.failed {
      WriteType(w, g, q, []);
    }
    ghost var text := w.text;
    r := w.Finish();
    if isLayoutValid && Signature(g, q).Some? {
      assert "" + Signature(g, q).value == Signature(g, q).value;
    }
  }
}
