/**
 Unique decodability of canonical signatures: equal texts come from equal terms.
 */
module SignatureDecoding {
  import opened Options
  import opened Decimals
  import opened Signatures

  // ---------------------------------------------------------------- sizes, for the inductions

  function Size(t: Term): (n: nat)
    ensures n > 0
  {
    1 + NodeSize(t.node)
  }

  function NodeSize(n: Node): nat {
    match n
    case LeafNode(_) => 0
    case Pointer(target) => 1 + Size(target)
    case Array(_, element) => 1 + Size(element)
    case Function(result, call) => 1 + Size(result) + SizeAll(call.params)
    case Anonymous(_, body) => 1 + MembersSize(body.members)
    case Tagged(_, _, shape) => if shape.Some? then 1 + MembersSize(shape.value.members) else 0
  }

  function SizeAll(ts: seq<Term>): nat {
    if ts == [] then 0 else Size(ts[0]) + SizeAll(ts[1..])
  }

  function MembersSize(ms: seq<Member>): nat {
    if ms == [] then 0 else Size(ms[0].term) + MembersSize(ms[1..])
  }

  // ---------------------------------------------------------------- qualifiers

  predicate IsQualifier(c: char) {
    c in {'k', 'V', 'A', 'R'}
  }

  predicate StartsQualified(s: string) {
    s != "" && IsQualifier(s[0])
  }

  predicate AllQualifiers(q: string) {
    forall i :: 0 <= i < |q| ==> IsQualifier(q[i])
  }

  function LeadingQualifiers(s: string): nat {
    if StartsQualified(s) then 1 + LeadingQualifiers(s[1..]) else 0
  }

  lemma {:induction false} LeadingQualifiersOf(q: string, r: string)
    requires AllQualifiers(q) && !StartsQualified(r)
    ensures LeadingQualifiers(q + r) == |q|
  {
    if q == "" {
      assert q + r == r;
    } else {
      assert (q + r)[1..] == q[1..] + r;
      LeadingQualifiersOf(q[1..], r);
    }
  }

  lemma QualifiersCancel(p: string, q: string, r: string, s: string)
    requires AllQualifiers(p) && AllQualifiers(q) && !StartsQualified(r) && !StartsQualified(s)
    requires p + r == q + s
    ensures p == q && r == s
  {
    LeadingQualifiersOf(p, r);
    LeadingQualifiersOf(q, s);
    PartsCancel(p, q, r, s);
  }

  // Every term has only qualifier letters in front of its nodes, as the writer prints them.
  predicate WellQualified(t: Term) {
    && AllQualifiers(t.quals)
    && match t.node
       case LeafNode(_) => true
       case Pointer(target) => WellQualified(target)
       case Array(_, element) => WellQualified(element)
       case Function(result, call) => WellQualified(result) && WellQualifiedAll(call.params)
       case Anonymous(_, body) => WellQualifiedMembers(body.members)
       case Tagged(_, _, shape) => shape.Some? ==> WellQualifiedMembers(shape.value.members)
  }

  predicate WellQualifiedAll(ts: seq<Term>) {
    ts == [] || (WellQualified(ts[0]) && WellQualifiedAll(ts[1..]))
  }

  predicate WellQualifiedMembers(ms: seq<Member>) {
    ms == [] || (WellQualified(ms[0].term) && WellQualifiedMembers(ms[1..]))
  }

  // ---------------------------------------------------------------- which node a text starts with

  datatype NodeClass =
    | R | V | B | EU | EI | ET | C | ULL | LL | UL | L | U | I | X | F | P | A | SA | UA | ST | UT | NoClass

  function CharAt(s: string, i: nat): char {
    if i < |s| then s[i] else '\0'
  }

  // Read off the first characters.
  function ClassOfText(s: string): NodeClass {
    match CharAt(s, 0)
    case 'r' => R
    case 'v' => V
    case 'b' => B
    case 'c' => C
    case 'x' => X
    case 'f' => F
    case 'p' => P
    case 'a' => A
    case 'i' => I
    case 'l' => if CharAt(s, 1) == 'l' then LL else L
    case 's' => if CharAt(s, 1) == '[' then SA else ST
    case 'e' => if CharAt(s, 1) == '{' then ET else if CharAt(s, 2) == 'u' then EU else EI
    case 'u' =>
      (match CharAt(s, 1)
       case 'l' => if CharAt(s, 2) == 'l' then ULL else UL
       case '[' => UA
       case '{' => UT
       case _ => U)
    case _ => NoClass
  }

  function ClassOf(n: Node): NodeClass
    requires !n.Function?
  {
    match n
    case LeafNode(leaf) =>
      (match leaf
       case Ref(_) => R
       case Void => V
       case Bool => B
       case AnonymousEnum(isUnsigned, _) => if isUnsigned then EU else EI
       case TaggedEnum(_, _, _) => ET
       case PlainChar(_) => C
       case LongLong(isUnsigned, _) => if isUnsigned then ULL else LL
       case Long(isUnsigned, _) => if isUnsigned then UL else L
       case Integer(isUnsigned, _, _) => if isUnsigned then U else I
       case Floating(isComplex, _, _) => if isComplex then X else F)
    case Pointer(_) => P
    case Array(_, _) => A
    case Anonymous(isStruct, _) => if isStruct then SA else UA
    case Tagged(isStruct, _, _) => if isStruct then ST else UT
  }

  lemma NodeGivesClass(n: Node, rest: string)
    requires !n.Function?
    ensures ClassOfText(NodeText(n, rest)) == ClassOf(n)
    ensures !StartsQualified(NodeText(n, rest)) && NodeText(n, rest) != ""
  {
    hide Decimal;
    if n.LeafNode? {
      LeafGivesClass(n.leaf, rest);
    }
  }

  lemma LeafGivesClass(leaf: Leaf, rest: string)
    ensures ClassOfText(LeafText(leaf, rest)) == ClassOf(LeafNode(leaf))
    ensures !StartsQualified(LeafText(leaf, rest)) && LeafText(leaf, rest) != ""
  {
    hide Decimal;
    match leaf {
      case LongLong(u, bits) => LongLongGivesClass(u, bits, rest);
      case Long(u, bits) => LongGivesClass(u, bits, rest);
      case Integer(u, bits, suffix) => IntegerGivesClass(u, bits, SuffixText(suffix) + rest);
      case _ =>
    }
  }

  lemma LongLongGivesClass(isUnsigned: bool, bits: nat, rest: string)
    ensures var s := (if isUnsigned then "ull" else "ll") + (Decimal(bits) + rest);
      ClassOfText(s) == (if isUnsigned then ULL else LL) && !StartsQualified(s) && s != ""
  {
    DigitsBehind(if isUnsigned then "ull" else "ll", bits, rest);
  }

  lemma LongGivesClass(isUnsigned: bool, bits: nat, rest: string)
    ensures var s := (if isUnsigned then "ul" else "l") + (Decimal(bits) + rest);
      ClassOfText(s) == (if isUnsigned then UL else L) && !StartsQualified(s) && s != ""
  {
    DigitsBehind(if isUnsigned then "ul" else "l", bits, rest);
  }

  lemma IntegerGivesClass(isUnsigned: bool, bits: nat, rest: string)
    ensures var s := (if isUnsigned then "u" else "i") + (Decimal(bits) + rest);
      ClassOfText(s) == (if isUnsigned then U else I) && !StartsQualified(s) && s != ""
  {
    DigitsBehind(if isUnsigned then "u" else "i", bits, rest);
  }

  lemma DigitsBehind(a: string, n: nat, rest: string)
    ensures forall i: nat :: i < |a| ==> CharAt(a + (Decimal(n) + rest), i) == a[i]
    ensures IsDigit(CharAt(a + (Decimal(n) + rest), |a|))
  {
    hide Decimal;
  }

  // ---------------------------------------------------------------- what may follow

  // What follows a term in a signature, function types aside: nothing or a closing character.
  predicate Closed(r: string) {
    r == "" || r[0] in {',', ')', '>', '|', ']'}
  }

  // The same, or the parameter list of a function whose result the term is.
  predicate Follows(r: string) {
    Closed(r) || r[0] == '('
  }

  // ---------------------------------------------------------------- leaves

  lemma SuffixCancels(m: IntegerSuffix, n: IntegerSuffix, r: string, s: string)
    requires SuffixText(m) + r == SuffixText(n) + s && Follows(r) && Follows(s)
    ensures m == n && r == s
  {
    assert CharAt(SuffixText(m) + r, 0) == if m.NoSuffix? then CharAt(r, 0) else SuffixText(m)[0];
    assert CharAt(SuffixText(n) + s, 0) == if n.NoSuffix? then CharAt(s, 0) else SuffixText(n)[0];
    PartsCancel(SuffixText(m), SuffixText(n), r, s);
  }

  lemma FloatCancels(m: FloatSuffix, n: FloatSuffix, r: string, s: string)
    requires FloatText(m) + r == FloatText(n) + s
    ensures m == n && r == s
  {
    assert (FloatText(m) + r)[0] == FloatText(m)[0] && (FloatText(n) + s)[0] == FloatText(n)[0];
    PartsCancel(FloatText(m), FloatText(n), r, s);
  }

  // The same literal, then numerals.
  lemma LiteralDecimalCancel(a: string, m: nat, n: nat, r: string, s: string)
    requires a + (Decimal(m) + r) == a + (Decimal(n) + s)
    requires !StartsWithDigit(r) && !StartsWithDigit(s)
    ensures m == n && r == s
  {
    hide Decimal;
    PartsCancel(a, a, Decimal(m) + r, Decimal(n) + s);
    DecimalsCancel(m, n, r, s);
  }

  lemma CountedCancels(m: string, n: string, r: string, s: string)
    requires CountedText(m, r) == CountedText(n, s)
    ensures m == n && r == s
  {
    hide Decimal;
    DecimalsCancel(|m|, |n|, ":" + (m + r), ":" + (n + s));
    PartsCancel(":", ":", m + r, n + s);
    PartsCancel(m, n, r, s);
  }

  lemma LeafCancels(m: Leaf, n: Leaf, r: string, s: string)
    requires LeafText(m, r) == LeafText(n, s) && Follows(r) && Follows(s)
    ensures m == n && r == s
  {
    hide Decimal;
    hide ClassOfText;
    hide StartsQualified;
    LeafGivesClass(m, r);
    LeafGivesClass(n, s);
    match m {
      case Ref(d) => LiteralDecimalCancel("r", d, n.distance, r, s);
      case Void => PartsCancel("v", "v", r, s);
      case Bool => PartsCancel("b", "b", r, s);
      case AnonymousEnum(u, bits) =>
        LiteralDecimalCancel(if u then "e<u" else "e<i", bits, n.bits, "I>" + r, "I>" + s);
        PartsCancel("I>", "I>", r, s);
      case TaggedEnum(_, _, _) => EnumCancels(m, n, r, s);
      case PlainChar(bits) => LiteralDecimalCancel("c", bits, n.bits, r, s);
      case LongLong(u, bits) => LiteralDecimalCancel(if u then "ull" else "ll", bits, n.bits, r, s);
      case Long(u, bits) => LiteralDecimalCancel(if u then "ul" else "l", bits, n.bits, r, s);
      case Integer(u, bits, suffix) => IntegersCancel(if u then "u" else "i", bits, n.bits, suffix, n.suffix, r, s);
      case Floating(c, bits, kind) => FloatsCancel(if c then "x" else "f", bits, n.bits, kind, n.kind, r, s);
    }
  }

  lemma IntegersCancel(a: string, m: nat, n: nat, suffix: IntegerSuffix, tail: IntegerSuffix, r: string, s: string)
    requires a + (Decimal(m) + (SuffixText(suffix) + r)) == a + (Decimal(n) + (SuffixText(tail) + s))
    requires Follows(r) && Follows(s)
    ensures m == n && suffix == tail && r == s
  {
    hide Decimal;
    LiteralDecimalCancel(a, m, n, SuffixText(suffix) + r, SuffixText(tail) + s);
    SuffixCancels(suffix, tail, r, s);
  }

  lemma FloatsCancel(a: string, m: nat, n: nat, kind: FloatSuffix, tail: FloatSuffix, r: string, s: string)
    requires a + (Decimal(m) + (FloatText(kind) + r)) == a + (Decimal(n) + (FloatText(tail) + s))
    ensures m == n && kind == tail && r == s
  {
    hide Decimal;
    LiteralDecimalCancel(a, m, n, FloatText(kind) + r, FloatText(tail) + s);
    FloatCancels(kind, tail, r, s);
  }

  lemma EnumCancels(m: Leaf, n: Leaf, r: string, s: string)
    requires m.TaggedEnum? && n.TaggedEnum? && LeafText(m, r) == LeafText(n, s)
    ensures m == n && r == s
  {
    hide Decimal;
    hide CountedText;
    var x := (if m.isUnsigned then ":u" else ":i") + (Decimal(m.bits) + ("I}" + r));
    var y := (if n.isUnsigned then ":u" else ":i") + (Decimal(n.bits) + ("I}" + s));
    PartsCancel("e{", "e{", CountedText(m.tag, x), CountedText(n.tag, y));
    CountedCancels(m.tag, n.tag, x, y);
    assert x[1] == (if m.isUnsigned then 'u' else 'i') && y[1] == (if n.isUnsigned then 'u' else 'i');
    LiteralDecimalCancel(if m.isUnsigned then ":u" else ":i", m.bits, n.bits, "I}" + r, "I}" + s);
    PartsCancel("I}", "I}", r, s);
  }

  // ---------------------------------------------------------------- the spine of a function type

  // The innermost result of a function type and the parameter lists around it, innermost first.
  function Base(t: Term): (b: Term)
    ensures !b.node.Function?
  {
    if t.node.Function? then Base(t.node.result) else t
  }

  function Calls(t: Term): seq<Call> {
    if t.node.Function? then Calls(t.node.result) + [t.node.call] else []
  }

  function CallsText(calls: seq<Call>, rest: string): string {
    if calls == [] then rest else CallText(calls[0], CallsText(calls[1..], rest))
  }

  function CallsSize(calls: seq<Call>): nat {
    if calls == [] then 0 else 1 + SizeAll(calls[0].params) + CallsSize(calls[1..])
  }

  predicate GoodCalls(calls: seq<Call>) {
    calls == [] || (PlainAll(calls[0].params) && WellQualifiedAll(calls[0].params) && GoodCalls(calls[1..]))
  }

  lemma {:induction false} OneMoreCall(calls: seq<Call>, c: Call, rest: string)
    ensures CallsText(calls + [c], rest) == CallsText(calls, CallText(c, rest))
    ensures CallsSize(calls + [c]) == CallsSize(calls) + 1 + SizeAll(c.params)
    ensures GoodCalls(calls) && PlainAll(c.params) && WellQualifiedAll(c.params) ==> GoodCalls(calls + [c])
  {
    if calls == [] {
      assert calls + [c] == [c] && [c][1..] == [];
    } else {
      assert (calls + [c])[1..] == calls[1..] + [c];
      OneMoreCall(calls[1..], c, rest);
    }
  }

  lemma {:induction false} Spine(t: Term, rest: string)
    requires Plain(t) && WellQualified(t)
    ensures Text(t, rest) == Text(Base(t), CallsText(Calls(t), rest))
    ensures NodeSize(Base(t).node) + CallsSize(Calls(t)) < Size(t)
    ensures Plain(Base(t)) && WellQualified(Base(t)) && GoodCalls(Calls(t))
  {
    if t.node.Function? {
      var call := t.node.call;
      Spine(t.node.result, CallText(call, rest));
      OneMoreCall(Calls(t.node.result), call, rest);
    }
  }

  lemma {:induction false} SpineDetermines(t: Term, u: Term)
    requires Plain(t) && Plain(u) && Base(t) == Base(u) && Calls(t) == Calls(u)
    ensures t == u
  {
    if t.node.Function? {
      var x, y := Calls(t), Calls(u);
      assert x[|x| - 1] == t.node.call && y[|y| - 1] == u.node.call;
      assert x[..|x| - 1] == Calls(t.node.result) && y[..|y| - 1] == Calls(u.node.result);
      SpineDetermines(t.node.result, u.node.result);
    }
  }

  // ---------------------------------------------------------------- terms

  // A text starts with at most one term.
  lemma {:induction false} TermsCancel(t: Term, u: Term, r: string, s: string)
    requires Plain(t) && WellQualified(t) && Plain(u) && WellQualified(u)
    requires Text(t, r) == Text(u, s) && Closed(r) && Closed(s)
    ensures t == u && r == s
    decreases Size(t), 1
  {
    var a, b := Base(t), Base(u);
    var x, y := CallsText(Calls(t), r), CallsText(Calls(u), s);
    Spine(t, r);
    Spine(u, s);
    CallsFollow(Calls(t), r);
    CallsFollow(Calls(u), s);
    NodeGivesClass(a.node, x);
    NodeGivesClass(b.node, y);
    QualifiersCancel(a.quals, b.quals, NodeText(a.node, x), NodeText(b.node, y));
    NodesCancel(a.node, b.node, x, y);
    CallsCancel(Calls(t), Calls(u), r, s);
    SpineDetermines(t, u);
  }

  lemma CallsFollow(calls: seq<Call>, r: string)
    requires Closed(r)
    ensures Follows(CallsText(calls, r))
    ensures calls != [] <==> CallsText(calls, r) != "" && CallsText(calls, r)[0] == '('
  {}

  predicate GoodNode(n: Node) {
    !n.Function? && Plain(Term("", n)) && WellQualified(Term("", n))
  }

  lemma {:induction false} NodesCancel(m: Node, n: Node, r: string, s: string)
    requires GoodNode(m) && GoodNode(n)
    requires NodeText(m, r) == NodeText(n, s) && Follows(r) && Follows(s)
    ensures m == n && r == s
    decreases NodeSize(m), 1
  {
    hide Decimal;
    hide ClassOfText;
    hide CountedText;
    NodeGivesClass(m, r);
    NodeGivesClass(n, s);
    match m {
      case LeafNode(leaf) => LeafCancels(leaf, n.leaf, r, s);
      case Pointer(target) =>
        PartsCancel("p<", "p<", Text(target, ">" + r), Text(n.target, ">" + s));
        TermsCancel(target, n.target, ">" + r, ">" + s);
        PartsCancel(">", ">", r, s);
      case Array(length, element) =>
        LiteralDecimalCancel("a", length, n.length, "<" + Text(element, ">" + r), "<" + Text(n.element, ">" + s));
        PartsCancel("<", "<", Text(element, ">" + r), Text(n.element, ">" + s));
        TermsCancel(element, n.element, ">" + r, ">" + s);
        PartsCancel(">", ">", r, s);
      case Anonymous(isStruct, body) =>
        var lead := if isStruct then "s[" else "u[";
        PartsCancel(lead, lead, BodyText(body, "]" + r), BodyText(n.body, "]" + s));
        BodiesCancel(body, n.body, r, s);
      case Tagged(_, _, _) => TaggedCancels(m, n, r, s);
    }
  }

  lemma {:induction false} TaggedCancels(m: Node, n: Node, r: string, s: string)
    requires m.Tagged? && n.Tagged? && m.isStruct == n.isStruct && GoodNode(m) && GoodNode(n)
    requires NodeText(m, r) == NodeText(n, s) && Follows(r) && Follows(s)
    ensures m == n && r == s
    decreases NodeSize(m), 0
  {
    hide Decimal;
    hide CountedText;
    hide BodyText;
    var lead := if m.isStruct then "s{" else "u{";
    var x := if m.shape.Some? then "[" + BodyText(m.shape.value, "]" + r) else r;
    var y := if n.shape.Some? then "[" + BodyText(n.shape.value, "]" + s) else s;
    PartsCancel(lead, lead, CountedText(m.tag, "}" + x), CountedText(n.tag, "}" + y));
    CountedCancels(m.tag, n.tag, "}" + x, "}" + y);
    PartsCancel("}", "}", x, y);
    assert (m.shape.Some? <==> CharAt(x, 0) == '[') && (n.shape.Some? <==> CharAt(y, 0) == '[');
    if m.shape.Some? {
      PartsCancel("[", "[", BodyText(m.shape.value, "]" + r), BodyText(n.shape.value, "]" + s));
      BodiesCancel(m.shape.value, n.shape.value, r, s);
    }
  }

  lemma {:induction false} BodiesCancel(m: Body, n: Body, r: string, s: string)
    requires PlainMembers(m.members) && WellQualifiedMembers(m.members)
    requires PlainMembers(n.members) && WellQualifiedMembers(n.members)
    requires BodyText(m, "]" + r) == BodyText(n, "]" + s)
    ensures m == n && r == s
    decreases MembersSize(m.members), 3
  {
    hide Decimal;
    var x, y := MembersText(m.members, "]" + r), MembersText(n.members, "]" + s);
    assert BodyText(m, "]" + r)[0] == Flag(m.isComplete)[0] && BodyText(n, "]" + s)[0] == Flag(n.isComplete)[0];
    PartsCancel(Flag(m.isComplete), Flag(n.isComplete), ":" + (Decimal(|m.members|) + x), ":" + (Decimal(|n.members|) + y));
    MembersStart(m.members, "]" + r);
    MembersStart(n.members, "]" + s);
    LiteralDecimalCancel(":", |m.members|, |n.members|, x, y);
    MembersCancel(m.members, n.members, "]" + r, "]" + s);
    PartsCancel("]", "]", r, s);
  }

  lemma MembersStart(ms: seq<Member>, rest: string)
    ensures ms == [] ==> MembersText(ms, rest) == rest
    ensures ms != [] ==> MembersText(ms, rest) != "" && MembersText(ms, rest)[0] == '|'
  {}

  lemma {:induction false} MembersCancel(ms: seq<Member>, ns: seq<Member>, r: string, s: string)
    requires |ms| == |ns| && Closed(r) && Closed(s)
    requires PlainMembers(ms) && WellQualifiedMembers(ms) && PlainMembers(ns) && WellQualifiedMembers(ns)
    requires MembersText(ms, r) == MembersText(ns, s)
    ensures ms == ns && r == s
    decreases MembersSize(ms), 2, |ms|
  {
    hide MemberHead;
    if ms != [] {
      var x, y := MembersText(ms[1..], r), MembersText(ns[1..], s);
      MembersStart(ms[1..], r);
      MembersStart(ns[1..], s);
      MemberHeadsCancel(ms[0], ns[0], Text(ms[0].term, x), Text(ns[0].term, y));
      TermsCancel(ms[0].term, ns[0].term, x, y);
      MembersCancel(ms[1..], ns[1..], r, s);
      assert ms == [ms[0]] + ms[1..] && ns == [ns[0]] + ns[1..];
    }
  }

  lemma MemberHeadsCancel(m: Member, n: Member, r: string, s: string)
    requires MemberHead(m, r) == MemberHead(n, s)
    ensures m.(term := n.term) == n && r == s
  {
    hide Decimal;
    hide CountedText;
    hide Signed;
    var ra, sa := Decimal(m.alignment) + (":" + r), Decimal(n.alignment) + (":" + s);
    var rf, sf := Flag(m.isAligned) + (":" + ra), Flag(n.isAligned) + (":" + sa);
    var rs, ss := (if m.bitIsSigned then "s:" else "u:") + ("m" + rf), (if n.bitIsSigned then "s:" else "u:") + ("m" + sf);
    var rw, sw := ":" + (Signed(m.bitWidth) + rs), ":" + (Signed(n.bitWidth) + ss);
    PartsCancel("|", "|", CountedText(m.name, rw), CountedText(n.name, sw));
    CountedCancels(m.name, n.name, ":" + (Signed(m.bitWidth) + rs), ":" + (Signed(n.bitWidth) + ss));
    PartsCancel(":", ":", Signed(m.bitWidth) + rs, Signed(n.bitWidth) + ss);
    SignedCancel(m.bitWidth, n.bitWidth, rs, ss);
    assert (rs[0] == 's' <==> m.bitIsSigned) && (ss[0] == 's' <==> n.bitIsSigned);
    PartsCancel(if m.bitIsSigned then "s:" else "u:", if n.bitIsSigned then "s:" else "u:", "m" + rf, "m" + sf);
    PartsCancel("m", "m", rf, sf);
    assert (rf[0] == '1' <==> m.isAligned) && (sf[0] == '1' <==> n.isAligned);
    PartsCancel(Flag(m.isAligned), Flag(n.isAligned), ":" + ra, ":" + sa);
    LiteralDecimalCancel(":", m.alignment, n.alignment, ":" + r, ":" + s);
    PartsCancel(":", ":", r, s);
  }

  lemma {:induction false} CallsCancel(cs: seq<Call>, ds: seq<Call>, r: string, s: string)
    requires GoodCalls(cs) && GoodCalls(ds) && Closed(r) && Closed(s)
    requires CallsText(cs, r) == CallsText(ds, s)
    ensures cs == ds && r == s
    decreases CallsSize(cs), 2
  {
    CallsFollow(cs, r);
    CallsFollow(ds, s);
    if cs != [] {
      var x, y := CallsText(cs[1..], r), CallsText(ds[1..], s);
      var p, q := cs[0], ds[0];
      PartsCancel("(", "(", ArgumentsText(p.params, p.isVariadic, ")" + x), ArgumentsText(q.params, q.isVariadic, ")" + y));
      ArgumentsCancel(p.params, q.params, p.isVariadic, q.isVariadic, x, y);
      CallsCancel(cs[1..], ds[1..], r, s);
      assert cs == [cs[0]] + cs[1..] && ds == [ds[0]] + ds[1..];
    }
  }

  // No parameter starts with a dot or a closing parenthesis.
  lemma TermStart(t: Term, rest: string)
    requires Plain(t) && WellQualified(t)
    ensures Text(t, rest) != "" && Text(t, rest)[0] !in {'.', ')', ','}
  {
    hide Decimal;
    hide ClassOfText;
    Spine(t, rest);
    var b, x := Base(t), CallsText(Calls(t), rest);
    FirstOfNode(b.node, x);
    if b.quals != "" {
      assert Text(b, x)[0] == b.quals[0];
    } else {
      assert Text(b, x)[0] == NodeText(b.node, x)[0];
    }
  }

  lemma FirstOfNode(n: Node, rest: string)
    requires !n.Function?
    ensures NodeText(n, rest) != "" && NodeText(n, rest)[0] !in {'.', ')', ','}
  {
    hide Decimal;
  }

  lemma {:induction false} ArgumentsCancel(ps: seq<Term>, qs: seq<Term>, pv: bool, qv: bool, r: string, s: string)
    requires PlainAll(ps) && WellQualifiedAll(ps) && PlainAll(qs) && WellQualifiedAll(qs)
    requires ArgumentsText(ps, pv, ")" + r) == ArgumentsText(qs, qv, ")" + s)
    ensures ps == qs && pv == qv && r == s
    decreases SizeAll(ps), 3, |ps|
  {
    var x, y := ArgumentsText(ps, pv, ")" + r), ArgumentsText(qs, qv, ")" + s);
    ArgumentsStart(ps, pv, r);
    ArgumentsStart(qs, qv, s);
    if ps == [] {
      PartsCancel(if pv then "..." else "", if qv then "..." else "", ")" + r, ")" + s);
      PartsCancel(")", ")", r, s);
    } else {
      var bp, bq := ArgumentsText(ps[1..], pv, ")" + r), ArgumentsText(qs[1..], qv, ")" + s);
      var mp, mq := |ps| > 1 || pv, |qs| > 1 || qv;
      ArgumentsStart(ps[1..], pv, r);
      ArgumentsStart(qs[1..], qv, s);
      TermsCancel(ps[0], qs[0], if mp then "," + bp else bp, if mq then "," + bq else bq);
      if mp {
        assert mq;
        PartsCancel(",", ",", bp, bq);
      }
      ArgumentsCancel(ps[1..], qs[1..], pv, qv, r, s);
      assert ps == [ps[0]] + ps[1..] && qs == [qs[0]] + qs[1..];
    }
  }

  // The first character of a parameter list tells what it starts with.
  lemma ArgumentsStart(ps: seq<Term>, isVariadic: bool, r: string)
    requires PlainAll(ps) && WellQualifiedAll(ps)
    ensures var x := ArgumentsText(ps, isVariadic, ")" + r);
      && x != ""
      && x[0] != ','
      && (ps == [] && isVariadic <==> x[0] == '.')
      && (ps == [] && !isVariadic <==> x[0] == ')')
  {
    if ps != [] {
      var behind := ArgumentsText(ps[1..], isVariadic, ")" + r);
      TermStart(ps[0], if |ps| > 1 || isVariadic then "," + behind else behind);
    }
  }

  // ---------------------------------------------------------------- the main results

  lemma {:induction false} HoistWellQualified(t: Term)
    requires WellQualified(t)
    ensures WellQualified(Hoist(t))
    decreases t
  {
    match t.node {
      case LeafNode(_) =>
      case Pointer(target) => HoistWellQualified(target);
      case Array(_, element) => HoistWellQualified(element);
      case Function(result, call) =>
        HoistWellQualified(result);
        HoistWellQualifiedAll(call.params);
        QualifiedIsWell(t.quals, Hoist(result));
      case Anonymous(_, body) => HoistWellQualifiedMembers(body.members);
      case Tagged(_, _, shape) =>
        if shape.Some? {
          HoistWellQualifiedMembers(shape.value.members);
        }
    }
  }

  lemma QualifiedIsWell(quals: string, t: Term)
    requires AllQualifiers(quals) && WellQualified(t)
    ensures WellQualified(Qualified(quals, t))
  {
    if t.node.Function? {
      QualifiedIsWell(quals, t.node.result);
    }
  }

  lemma {:induction false} HoistWellQualifiedAll(ts: seq<Term>)
    requires WellQualifiedAll(ts)
    ensures WellQualifiedAll(HoistAll(ts))
    decreases ts
  {
    if ts != [] {
      HoistWellQualified(ts[0]);
      HoistWellQualifiedAll(ts[1..]);
      assert HoistAll(ts)[1..] == HoistAll(ts[1..]);
    }
  }

  lemma {:induction false} HoistWellQualifiedMembers(ms: seq<Member>)
    requires WellQualifiedMembers(ms)
    ensures WellQualifiedMembers(HoistMembers(ms))
    decreases ms
  {
    if ms != [] {
      HoistWellQualified(ms[0].term);
      HoistWellQualifiedMembers(ms[1..]);
      assert HoistMembers(ms)[1..] == HoistMembers(ms[1..]);
    }
  }

  // Two terms print alike exactly when they agree once the qualifiers of function types are
  // counted to their results.
  lemma SameTextIffSameHoisted(t: Term, u: Term)
    requires WellQualified(t) && WellQualified(u)
    ensures Text(t, "") == Text(u, "") <==> Hoist(t) == Hoist(u)
  {
    HoistKeepsText(t, "");
    HoistKeepsText(u, "");
    HoistWellQualified(t);
    HoistWellQualified(u);
    if Text(t, "") == Text(u, "") {
      TermsCancel(Hoist(t), Hoist(u), "", "");
    }
  }

  // Where no function type is qualified, as in C, the text determines the term.
  lemma TextDeterminesTerm(t: Term, u: Term)
    requires WellQualified(t) && WellQualified(u) && Plain(t) && Plain(u)
    ensures Text(t, "") == Text(u, "") <==> t == u
  {
    HoistPlain(t);
    HoistPlain(u);
    SameTextIffSameHoisted(t, u);
  }

  // The ambiguity: a const function returning int, and a function returning const int.
  lemma QualifiedFunctionIsAmbiguous()
    ensures var int32 := LeafNode(Integer(false, 32, IntSuffix));
      var t := Term("k", Function(Term("", int32), Call([], false)));
      var u := Term("", Function(Term("k", int32), Call([], false)));
      t != u && Text(t, "") == Text(u, "")
  {
    hide Decimal;
  }
}
