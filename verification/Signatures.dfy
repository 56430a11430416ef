/**
 Canonical type signatures as terms and as text.

 A term is what a signature says: the tree of a type in which a type met again on the way from the
 root is a reference to that ancestor. The text of a term is what the writer prints.
 The main result: the text determines the term, up to the one ambiguity the notation has.
 */
module Signatures {
  import opened Options
  import opened Decimals

  datatype IntegerSuffix = NoSuffix | CharSuffix | ShortSuffix | IntSuffix

  datatype FloatSuffix = FloatF | FloatD | FloatL

  // Nodes without children.
  datatype Leaf =
    | Ref(distance: nat)
    | Void
    | Bool
    | AnonymousEnum(isUnsigned: bool, bits: nat)
    | TaggedEnum(tag: string, isUnsigned: bool, bits: nat)
    | PlainChar(bits: nat)
    | LongLong(isUnsigned: bool, bits: nat)
    | Long(isUnsigned: bool, bits: nat)
    | Integer(isUnsigned: bool, bits: nat, suffix: IntegerSuffix)
    | Floating(isComplex: bool, bits: nat, kind: FloatSuffix)

  // `quals` holds the letters of the qualifiers.
  datatype Term = Term(quals: string, node: Node)

  datatype Node =
    | LeafNode(leaf: Leaf)
    | Pointer(target: Term)
    | Array(length: nat, element: Term)
    | Function(result: Term, call: Call)
    | Anonymous(isStruct: bool, body: Body)
    | Tagged(isStruct: bool, tag: string, shape: Option<Body>)

  datatype Call = Call(params: seq<Term>, isVariadic: bool)

  datatype Body = Body(isComplete: bool, members: seq<Member>)

  datatype Member = Member(name: string, bitWidth: int, bitIsSigned: bool, isAligned: bool, alignment: nat, term: Term)

  // ---------------------------------------------------------------- text

  // Every function prints in front of `rest`, the text that follows.

  function CountedText(name: string, rest: string): string {
    Decimal(|name|) + (":" + (name + rest))
  }

  function SuffixText(suffix: IntegerSuffix): string {
    match suffix
    case NoSuffix => ""
    case CharSuffix => "C"
    case ShortSuffix => "S"
    case IntSuffix => "I"
  }

  function FloatText(kind: FloatSuffix): string {
    match kind
    case FloatF => "F"
    case FloatD => "D"
    case FloatL => "L"
  }

  function LeafText(leaf: Leaf, rest: string): string {
    match leaf
    case Ref(distance) => "r" + (Decimal(distance) + rest)
    case Void => "v" + rest
    case Bool => "b" + rest
    case AnonymousEnum(isUnsigned, bits) => (if isUnsigned then "e<u" else "e<i") + (Decimal(bits) + ("I>" + rest))
    case TaggedEnum(tag, isUnsigned, bits) =>
      "e{" + CountedText(tag, (if isUnsigned then ":u" else ":i") + (Decimal(bits) + ("I}" + rest)))
    case PlainChar(bits) => "c" + (Decimal(bits) + rest)
    case LongLong(isUnsigned, bits) => (if isUnsigned then "ull" else "ll") + (Decimal(bits) + rest)
    case Long(isUnsigned, bits) => (if isUnsigned then "ul" else "l") + (Decimal(bits) + rest)
    case Integer(isUnsigned, bits, suffix) => (if isUnsigned then "u" else "i") + (Decimal(bits) + (SuffixText(suffix) + rest))
    case Floating(isComplex, bits, kind) => (if isComplex then "x" else "f") + (Decimal(bits) + (FloatText(kind) + rest))
  }

  function Text(t: Term, rest: string): string {
    t.quals + NodeText(t.node, rest)
  }

  function NodeText(n: Node, rest: string): string {
    match n
    case LeafNode(leaf) => LeafText(leaf, rest)
    case Pointer(target) => "p<" + Text(target, ">" + rest)
    case Array(length, element) => "a" + (Decimal(length) + ("<" + Text(element, ">" + rest)))
    case Function(result, call) => Text(result, CallText(call, rest))
    case Anonymous(isStruct, body) => (if isStruct then "s[" else "u[") + BodyText(body, "]" + rest)
    case Tagged(isStruct, tag, shape) =>
      (if isStruct then "s{" else "u{") +
      CountedText(tag, "}" + (if shape.Some? then "[" + BodyText(shape.value, "]" + rest) else rest))
  }

  function CallText(call: Call, rest: string): string {
    "(" + ArgumentsText(call.params, call.isVariadic, ")" + rest)
  }

  // The parameters from here on; the ellipsis counts as a last one.
  function ArgumentsText(params: seq<Term>, isVariadic: bool, rest: string): string {
    if params == [] then (if isVariadic then "..." else "") + rest
    else
      var behind := ArgumentsText(params[1..], isVariadic, rest);
      Text(params[0], if |params| > 1 || isVariadic then "," + behind else behind)
  }

  function Flag(b: bool): string {
    if b then "1" else "0"
  }

  function BodyText(body: Body, rest: string): string {
    Flag(body.isComplete) + (":" + (Decimal(|body.members|) + MembersText(body.members, rest)))
  }

  function MembersText(members: seq<Member>, rest: string): string {
    if members == [] then rest else MemberText(members[0], MembersText(members[1..], rest))
  }

  // What is said about a member in front of its type.
  function MemberHead(m: Member, rest: string): string {
    "|" + CountedText(m.name, ":" + (Signed(m.bitWidth) + ((if m.bitIsSigned then "s:" else "u:") +
    ("m" + (Flag(m.isAligned) + (":" + (Decimal(m.alignment) + (":" + rest))))))))
  }

  function MemberText(m: Member, rest: string): string {
    MemberHead(m, Text(m.term, rest))
  }

  // ---------------------------------------------------------------- the one ambiguity

  // A qualifier of a function type is printed in front of its result type, where the qualifiers
  // of the result stand as well. Hoisting moves it there.
  function Hoist(t: Term): Term {
    match t.node
    case LeafNode(_) => t
    case Pointer(target) => Term(t.quals, Pointer(Hoist(target)))
    case Array(length, element) => Term(t.quals, Array(length, Hoist(element)))
    case Function(result, call) =>
      var r := Hoist(result);
      Term("", Function(Qualified(t.quals, r), Call(HoistAll(call.params), call.isVariadic)))
    case Anonymous(isStruct, body) => Term(t.quals, Anonymous(isStruct, HoistBody(body)))
    case Tagged(isStruct, tag, shape) =>
      Term(t.quals, Tagged(isStruct, tag, if shape.Some? then Some(HoistBody(shape.value)) else None))
  }

  // More qualifiers in front of a hoisted term: they belong to the innermost result.
  function Qualified(quals: string, t: Term): Term {
    match t.node
    case Function(result, call) => Term(t.quals, Function(Qualified(quals, result), call))
    case _ => Term(quals + t.quals, t.node)
  }

  function HoistBody(body: Body): Body {
    Body(body.isComplete, HoistMembers(body.members))
  }

  function HoistAll(ts: seq<Term>): (hs: seq<Term>)
    ensures |hs| == |ts|
  {
    if ts == [] then [] else [Hoist(ts[0])] + HoistAll(ts[1..])
  }

  function HoistMembers(ms: seq<Member>): (hs: seq<Member>)
    ensures |hs| == |ms|
  {
    if ms == [] then [] else [ms[0].(term := Hoist(ms[0].term))] + HoistMembers(ms[1..])
  }

  // No function type in the term carries qualifiers.
  predicate Plain(t: Term) {
    match t.node
    case LeafNode(_) => true
    case Pointer(target) => Plain(target)
    case Array(_, element) => Plain(element)
    case Function(result, call) => t.quals == "" && Plain(result) && PlainAll(call.params)
    case Anonymous(_, body) => PlainMembers(body.members)
    case Tagged(_, _, shape) => shape.Some? ==> PlainMembers(shape.value.members)
  }

  predicate PlainAll(ts: seq<Term>) {
    ts == [] || (Plain(ts[0]) && PlainAll(ts[1..]))
  }

  predicate PlainMembers(ms: seq<Member>) {
    ms == [] || (Plain(ms[0].term) && PlainMembers(ms[1..]))
  }

  lemma QualifiedText(quals: string, t: Term, rest: string)
    requires Plain(t)
    ensures Plain(Qualified(quals, t)) && Text(Qualified(quals, t), rest) == quals + Text(t, rest)
    decreases t
  {
    if t.node.Function? {
      QualifiedText(quals, t.node.result, CallText(t.node.call, rest));
    }
  }

  // Hoisting does not change the text.
  lemma {:induction false} HoistKeepsText(t: Term, rest: string)
    ensures Plain(Hoist(t)) && Text(Hoist(t), rest) == Text(t, rest)
    decreases t
  {
    match t.node {
      case LeafNode(_) =>
      case Pointer(target) => HoistKeepsText(target, ">" + rest);
      case Array(_, element) => HoistKeepsText(element, ">" + rest);
      case Function(result, call) =>
        HoistKeepsArguments(call.params, call.isVariadic, ")" + rest);
        HoistKeepsText(result, CallText(call, rest));
        QualifiedText(t.quals, Hoist(result), CallText(call, rest));
        assert CallText(Call(HoistAll(call.params), call.isVariadic), rest) == CallText(call, rest);
        assert Text(Hoist(t), rest) == "" + Text(Qualified(t.quals, Hoist(result)), CallText(call, rest));
      case Anonymous(_, body) =>
        HoistKeepsMembers(body.members, "]" + rest);
        assert BodyText(HoistBody(body), "]" + rest) == BodyText(body, "]" + rest);
      case Tagged(_, _, shape) =>
        if shape.Some? {
          HoistKeepsMembers(shape.value.members, "]" + rest);
          assert BodyText(HoistBody(shape.value), "]" + rest) == BodyText(shape.value, "]" + rest);
        }
    }
  }

  lemma {:induction false} HoistKeepsArguments(ts: seq<Term>, isVariadic: bool, rest: string)
    ensures PlainAll(HoistAll(ts))
    ensures ArgumentsText(HoistAll(ts), isVariadic, rest) == ArgumentsText(ts, isVariadic, rest)
    decreases ts
  {
    if ts != [] {
      HoistKeepsArguments(ts[1..], isVariadic, rest);
      assert HoistAll(ts)[1..] == HoistAll(ts[1..]);
      var behind := ArgumentsText(ts[1..], isVariadic, rest);
      HoistKeepsText(ts[0], if |ts| > 1 || isVariadic then "," + behind else behind);
    }
  }

  lemma {:induction false} HoistKeepsMembers(ms: seq<Member>, rest: string)
    ensures PlainMembers(HoistMembers(ms))
    ensures MembersText(HoistMembers(ms), rest) == MembersText(ms, rest)
    decreases ms
  {
    if ms != [] {
      HoistKeepsMembers(ms[1..], rest);
      assert HoistMembers(ms)[1..] == HoistMembers(ms[1..]);
      HoistKeepsText(ms[0].term, MembersText(ms[1..], rest));
    }
  }

  // A term without qualified functions is its own hoisted form.
  lemma {:induction false} HoistPlain(t: Term)
    requires Plain(t)
    ensures Hoist(t) == t
    decreases t
  {
    match t.node {
      case LeafNode(_) =>
      case Pointer(target) => HoistPlain(target);
      case Array(_, element) => HoistPlain(element);
      case Function(result, call) =>
        HoistPlain(result);
        HoistPlainAll(call.params);
        QualifiedByNothing(result);
      case Anonymous(_, body) => HoistPlainMembers(body.members);
      case Tagged(_, _, shape) =>
        if shape.Some? {
          HoistPlainMembers(shape.value.members);
        }
    }
  }

  lemma {:induction false} QualifiedByNothing(t: Term)
    ensures Qualified("", t) == t
  {
    if t.node.Function? {
      QualifiedByNothing(t.node.result);
    } else {
      assert "" + t.quals == t.quals;
    }
  }

  lemma {:induction false} HoistPlainAll(ts: seq<Term>)
    requires PlainAll(ts)
    ensures HoistAll(ts) == ts
    decreases ts
  {
    if ts != [] {
      HoistPlain(ts[0]);
      HoistPlainAll(ts[1..]);
    }
  }

  lemma {:induction false} HoistPlainMembers(ms: seq<Member>)
    requires PlainMembers(ms)
    ensures HoistMembers(ms) == ms
    decreases ms
  {
    if ms != [] {
      HoistPlain(ms[0].term);
      HoistPlainMembers(ms[1..]);
    }
  }
}
