/**
 Which JSON texts are UTF-8, as section 8.1 of RFC 8259 asks of those that are exchanged: the writer
 copies bytes from 0x80 on as they are, so it is those whose strings are.
 */
module JsonUtf8 {
  import opened Decimals
  import opened Json
  import opened SnapshotJson
  import opened Snapshots
  import Unicode
  import DiagRecords

  // The bytes of a text.
  function Octets(s: string): (o: seq<Unicode.Byte>)
    ensures |o| == |s| && forall i :: 0 <= i < |s| ==> o[i] == s[i] as int % 0x100
  {
    seq(|s|, i requires 0 <= i < |s| => s[i] as int % 0x100)
  }

  ghost predicate IsUtf8(s: string) {
    Unicode.IsUtf8(Octets(s))
  }

  predicate IsAscii(s: string) {
    forall i :: 0 <= i < |s| ==> s[i] as int < 0x80
  }

  // ---------------------------------------------------------------- cutting texts at ASCII characters

  lemma {:induction false} OctetsOfAscii(s: string) returns (vs: seq<Unicode.Scalar>)
    requires IsAscii(s)
    ensures Unicode.Utf8All(vs) == Octets(s)
  {
    hide Unicode.Utf8;
    if s == "" {
      vs := [];
    } else {
      var rest := OctetsOfAscii(s[1..]);
      var v: Unicode.Scalar := s[0] as int;
      vs := [v] + rest;
      AsciiIsItself(v);
      assert vs[1..] == rest && vs[0] == v;
      assert Octets(s) == [v] + Octets(s[1..]);
    }
  }

  lemma AsciiIsItself(v: Unicode.Scalar)
    requires v < 0x80
    ensures Unicode.Utf8(v) == [v]
  {}

  lemma AsciiIsUtf8(s: string)
    requires IsAscii(s)
    ensures IsUtf8(s)
  {
    var vs := OctetsOfAscii(s);
  }

  lemma OctetsJoin(a: string, b: string)
    ensures Octets(a + b) == Octets(a) + Octets(b)
    ensures Octets(a + b)[..|a|] == Octets(a) && Octets(a + b)[|a|..] == Octets(b)
  {}

  lemma Utf8Joins(a: string, b: string)
    requires IsUtf8(a) && IsUtf8(b)
    ensures IsUtf8(a + b)
  {
    hide Octets;
    hide Unicode.Utf8All;
    var vs: seq<Unicode.Scalar> :| Unicode.Utf8All(vs) == Octets(a);
    var ws: seq<Unicode.Scalar> :| Unicode.Utf8All(ws) == Octets(b);
    Unicode.Utf8AllAppend(vs, ws);
    OctetsJoin(a, b);
  }

  lemma Utf8Parts(a: string, b: string)
    requires IsUtf8(a + b) && b != "" && b[0] as int < 0x80
    ensures IsUtf8(a) && IsUtf8(b)
  {
    hide Unicode.IsUtf8;
    OctetsJoin(a, b);
    assert Octets(a + b)[|a|] == b[0] as int;
    Unicode.PartsAreUtf8(Octets(a + b), |a|);
  }

  lemma CutInFront(a: string, b: string)
    requires b != "" && b[0] as int < 0x80
    ensures IsUtf8(a + b) <==> IsUtf8(a) && IsUtf8(b)
  {
    hide IsUtf8;
    if IsUtf8(a + b) {
      Utf8Parts(a, b);
    } else if IsUtf8(a) && IsUtf8(b) {
      Utf8Joins(a, b);
    }
  }

  lemma CutBehind(c: char, b: string)
    requires c as int < 0x80
    ensures IsUtf8([c] + b) <==> IsUtf8(b)
  {
    var s := [c] + b;
    assert Octets(s)[0] == c as int && Octets(s)[1..] == Octets(b);
    if IsUtf8(s) {
      var vs: seq<Unicode.Scalar> :| Unicode.Utf8All(vs) == Octets(s);
      Unicode.FirstAndRest(vs);
      AsciiLead(vs[0], Unicode.Utf8All(vs[1..]));
      assert Unicode.Utf8All(vs[1..]) == Octets(b);
    } else if IsUtf8(b) {
      AsciiIsUtf8([c]);
      Utf8Joins([c], b);
    }
  }

  lemma AsciiLead(v: Unicode.Scalar, rest: seq<Unicode.Byte>)
    requires (Unicode.Utf8(v) + rest)[0] < 0x80
    ensures Unicode.Utf8(v) + rest == [v] + rest
  {}

  lemma {:induction false} AsciiBehind(x: string, b: string)
    requires IsAscii(x)
    ensures IsUtf8(x + b) <==> IsUtf8(b)
  {
    hide IsUtf8;
    if x == "" {
      assert x + b == b;
    } else {
      assert x + b == [x[0]] + (x[1..] + b);
      CutBehind(x[0], x[1..] + b);
      AsciiBehind(x[1..], b);
    }
  }

  // Between two texts there is an ASCII text.
  lemma AsciiBetween(a: string, x: string, b: string)
    requires x != "" && IsAscii(x)
    ensures IsUtf8(a + (x + b)) <==> IsUtf8(a) && IsUtf8(b)
  {
    hide IsUtf8;
    assert (x + b)[0] == x[0];
    CutInFront(a, x + b);
    AsciiBehind(x, b);
  }

  lemma AsciiAtEnd(a: string, x: string)
    requires IsAscii(x)
    ensures IsUtf8(a + x) <==> IsUtf8(a)
  {
    hide IsUtf8;
    AsciiIsUtf8(x);
    if x == "" {
      assert a + x == a;
    } else {
      CutInFront(a, x);
    }
  }

  // ---------------------------------------------------------------- escaped strings

  function HighBytes(s: string): (n: nat)
    ensures n <= |s| && (forall i :: 0 <= i < n ==> s[i] as int >= 0x80) && (n < |s| ==> s[n] as int < 0x80)
  {
    if s != "" && s[0] as int >= 0x80 then 1 + HighBytes(s[1..]) else 0
  }

  lemma {:induction false} EscapesJoin(a: string, b: string)
    ensures Escapes(a + b) == Escapes(a) + Escapes(b)
  {
    hide Escaped;
    if a == "" {
      assert a + b == b;
    } else {
      assert (a + b)[1..] == a[1..] + b;
      EscapesJoin(a[1..], b);
      Assoc(Escaped(a[0]), Escapes(a[1..]), Escapes(b));
    }
  }

  lemma {:induction false} HighBytesStay(s: string)
    requires forall i :: 0 <= i < |s| ==> s[i] as int >= 0x80
    ensures Escapes(s) == s
  {
    if s != "" {
      HighBytesStay(s[1..]);
      assert s == [s[0]] + s[1..];
    }
  }

  lemma EscapedIsAscii(c: char)
    requires c as int < 0x80
    ensures Escaped(c) != "" && IsAscii(Escaped(c))
  {}

  // Escaping keeps what is UTF-8 and makes nothing UTF-8 that is not.
  lemma {:induction false} EscapesAreUtf8(s: string)
    ensures IsUtf8(Escapes(s)) <==> IsUtf8(s)
    decreases |s|
  {
    hide IsUtf8;
    hide Escaped;
    var n := HighBytes(s);
    HighBytesStay(s[..n]);
    if n < |s| {
      var c, rest := s[n], s[n + 1..];
      assert s == s[..n] + ([c] + rest);
      assert Escapes([c] + rest) == Escaped(c) + Escapes(rest) by { assert ([c] + rest)[1..] == rest; }
      EscapesJoin(s[..n], [c] + rest);
      EscapedIsAscii(c);
      AsciiBetween(s[..n], [c], rest);
      AsciiBetween(s[..n], Escaped(c), Escapes(rest));
      EscapesAreUtf8(rest);
    } else {
      assert s[..n] == s;
    }
  }

  lemma StringIsUtf8(s: string)
    ensures IsUtf8(StringText(s)) <==> IsUtf8(s)
  {
    hide IsUtf8;
    EscapesAreUtf8(s);
    AsciiBehind("\"", Escapes(s) + "\"");
    AsciiAtEnd(Escapes(s), "\"");
  }

  // ---------------------------------------------------------------- values

  // The strings and keys of a value.
  function Strings(v: JsonValue): seq<string> {
    match v
    case String(s) => [s]
    case List(items) => StringsOfItems(items)
    case Object(members) => StringsOfMembers(members)
    case _ => []
  }

  function StringsOfItems(items: seq<JsonValue>): seq<string> {
    if items == [] then [] else Strings(items[0]) + StringsOfItems(items[1..])
  }

  function StringsOfMembers(members: seq<Member>): seq<string> {
    if members == [] then [] else [members[0].key] + Strings(members[0].value) + StringsOfMembers(members[1..])
  }

  ghost predicate AreUtf8(ss: seq<string>) {
    forall s <- ss :: IsUtf8(s)
  }

  lemma NumberIsAscii(n: int)
    ensures IsAscii(Signed(n))
  {
    hide Decimal;
  }

  // The text of a value is UTF-8 exactly when every string in it is.
  lemma {:induction false} TextIsUtf8Iff(v: JsonValue)
    ensures IsUtf8(Text(v)) <==> AreUtf8(Strings(v))
    decreases v, 1
  {
    hide IsUtf8;
    hide StringText;
    match v {
      case Null => AsciiIsUtf8("null");
      case Boolean(b) => AsciiIsUtf8(if b then "true" else "false");
      case Number(n) =>
        NumberIsAscii(n);
        AsciiIsUtf8(Signed(n));
      case String(s) => StringIsUtf8(s);
      case List(items) =>
        ItemsAreUtf8Iff(items);
        AsciiBehind("[", ItemsText(items) + "]");
        AsciiAtEnd(ItemsText(items), "]");
      case Object(members) =>
        MembersAreUtf8Iff(members);
        AsciiBehind("{", MembersText(members) + "}");
        AsciiAtEnd(MembersText(members), "}");
    }
  }

  lemma {:induction false} ItemsAreUtf8Iff(items: seq<JsonValue>)
    ensures IsUtf8(ItemsText(items)) <==> AreUtf8(StringsOfItems(items))
    decreases items, 0
  {
    hide IsUtf8;
    hide Text;
    if items == [] {
      AsciiIsUtf8("");
    } else {
      TextIsUtf8Iff(items[0]);
      ItemsAreUtf8Iff(items[1..]);
      CommaBetween(Text(items[0]), |items| > 1, ItemsText(items[1..]));
    }
  }

  lemma CommaBetween(a: string, more: bool, b: string)
    requires !more ==> b == ""
    ensures IsUtf8(a + ((if more then "," else "") + b)) <==> IsUtf8(a) && IsUtf8(b)
  {
    hide IsUtf8;
    if more {
      AsciiBetween(a, ",", b);
    } else {
      AsciiIsUtf8("");
      assert a + ("" + b) == a;
    }
  }

  lemma {:induction false} MembersAreUtf8Iff(members: seq<Member>)
    ensures IsUtf8(MembersText(members)) <==> AreUtf8(StringsOfMembers(members))
    decreases members, 0
  {
    hide IsUtf8;
    hide Text;
    hide StringText;
    if members == [] {
      AsciiIsUtf8("");
    } else {
      var m, more := members[0], MembersText(members[1..]);
      TextIsUtf8Iff(m.value);
      MembersAreUtf8Iff(members[1..]);
      StringIsUtf8(m.key);
      CommaBetween(Text(m.value), |members| > 1, more);
      var behind := Text(m.value) + ((if |members| > 1 then "," else "") + more);
      Assoc(StringText(m.key), ":", behind);
      AsciiBetween(StringText(m.key), ":", behind);
    }
  }

  // ---------------------------------------------------------------- the document

  // The document of a snapshot is UTF-8 exactly when every string in it is.
  lemma DocumentIsUtf8Iff(s: Snapshot)
    ensures IsUtf8(Text(DocumentJson(s))) <==> AreUtf8(Strings(DocumentJson(s)))
  {
    TextIsUtf8Iff(DocumentJson(s));
  }

  lemma {:induction false} StringsOfItem(items: seq<JsonValue>, i: nat, t: string)
    requires i < |items| && t in Strings(items[i])
    ensures t in StringsOfItems(items)
  {
    if i > 0 {
      StringsOfItem(items[1..], i - 1, t);
    }
  }

  lemma {:induction false} StringsOfMember(members: seq<Member>, i: nat, t: string)
    requires i < |members| && t in Strings(members[i].value)
    ensures t in StringsOfMembers(members)
  {
    if i > 0 {
      StringsOfMember(members[1..], i - 1, t);
    }
  }

  lemma {:induction false} DiagnosticAt(ds: seq<Diagnostic>, i: nat)
    requires i < |ds|
    ensures DiagnosticsJson(ds)[i] == DiagnosticJson(ds[i])
  {
    hide DiagnosticJson;
    if i < |ds| - 1 {
      DiagnosticAt(ds[..|ds| - 1], i);
    }
  }

  lemma MessageIsString(d: Diagnostic)
    ensures d.message in Strings(DiagnosticJson(d))
  {
    hide KeyName;
    var ms := DiagnosticJson(d).members;
    assert ms[2].value == String(d.message);
    StringsOfMember(ms, 2, d.message);
  }

  // One message that is not UTF-8 spoils the document.
  lemma MessageSpoilsDocument(s: Snapshot, i: nat)
    requires i < |s.diagnostics| && !IsUtf8(s.diagnostics[i].message)
    ensures !IsUtf8(Text(DocumentJson(s)))
  {
    hide IsUtf8;
    hide Text;
    hide Strings;
    hide KeyName;
    var message, items := s.diagnostics[i].message, DiagnosticsJson(s.diagnostics);
    MessageIsString(s.diagnostics[i]);
    DiagnosticAt(s.diagnostics, i);
    StringsOfItem(items, i, message);
    ListStrings(items);
    var ms := DocumentJson(s).members;
    assert ms[0].value == List(items);
    StringsOfMember(ms, 0, message);
    ObjectStrings(ms);
    DocumentIsUtf8Iff(s);
  }

  lemma ListStrings(items: seq<JsonValue>)
    ensures Strings(List(items)) == StringsOfItems(items)
  {}

  lemma ObjectStrings(members: seq<Member>)
    ensures Strings(Object(members)) == StringsOfMembers(members)
  {}

  // A message that is cut to the size of its record may be cut inside a character.
  lemma CutMessageIsNotUtf8(message: string)
    requires |message| == DiagRecords.MESSAGE_CAP && IsAscii(message[..|message| - 2])
    requires Octets(message)[|message| - 2..] == [0xC3, 0xA9]
    ensures IsUtf8(message) && !IsUtf8(DiagRecords.Clipped(message, DiagRecords.MESSAGE_CAP))
  {
    var n := |message| - 2;
    var front, back := message[..n], message[n..];
    assert message == front + back && Octets(back) == [0xC3, 0xA9];
    assert Unicode.Utf8All([0xE9]) == [0xC3, 0xA9] by { assert Unicode.Utf8All([]) == []; }
    AsciiBehind(front, back);
    var cut := DiagRecords.Clipped(message, DiagRecords.MESSAGE_CAP);
    var lead := message[n..n + 1];
    assert cut == front + lead && Octets(lead) == [0xC3];
    AsciiBehind(front, lead);
    LeadIsNotUtf8();
  }

  lemma LeadIsNotUtf8()
    ensures !Unicode.IsUtf8([0xC3])
  {
    forall vs: seq<Unicode.Scalar> ensures Unicode.Utf8All(vs) != [0xC3] {
      if vs != [] {
        var first := Unicode.Utf8(vs[0]);
        assert Unicode.Utf8All(vs)[0] == first[0];
      }
    }
  }
}
