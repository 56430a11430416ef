/**
 JSON texts (RFC 8259) as the language service writes them, and reading them back. A string is a
 C string of bytes; bytes from 0x80 on stand for themselves.
 */
module Json {
  import opened Decimals
  import opened Options
  import opened Prefixes
  import opened Snapshots

  datatype JsonValue =
    | Null
    | Boolean(b: bool)
    | Number(n: int)
    | String(s: CString)
    | List(items: seq<JsonValue>)
    | Object(members: seq<Member>)

  datatype Member = Member(key: CString, value: JsonValue)

  // ---------------------------------------------------------------- text

  function Hex(d: nat): (c: char)
    requires d < 16
  {
    "0123456789abcdef"[d]
  }

  // Section 7 of RFC 8259: quotation mark, backslash and control characters are escaped.
  function Escaped(c: char): string {
    if c == '"' then "\\\""
    else if c == '\\' then "\\\\"
    else if c == '\n' then "\\n"
    else if c == '\r' then "\\r"
    else if c == '\t' then "\\t"
    else if c as int < 0x20 then "\\u00" + [Hex(c as int / 16), Hex(c as int % 16)]
    else [c]
  }

  function Escapes(s: string): string {
    if s == "" then "" else Escaped(s[0]) + Escapes(s[1..])
  }

  function StringText(s: string): string {
    "\"" + (Escapes(s) + "\"")
  }

  function Text(v: JsonValue): string {
    match v
    case Null => "null"
    case Boolean(b) => if b then "true" else "false"
    case Number(n) => Signed(n)
    case String(s) => StringText(s)
    case List(items) => "[" + (ItemsText(items) + "]")
    case Object(members) => "{" + (MembersText(members) + "}")
  }

  function ItemsText(items: seq<JsonValue>): string {
    if items == [] then ""
    else Text(items[0]) + ((if |items| > 1 then "," else "") + ItemsText(items[1..]))
  }

  function KeyText(key: CString): string {
    StringText(key) + ":"
  }

  function MembersText(members: seq<Member>): string {
    if members == [] then ""
    else
      KeyText(members[0].key) + (Text(members[0].value) + ((if |members| > 1 then "," else "") + MembersText(members[1..])))
  }

  // ---------------------------------------------------------------- reading

  function HexValue(c: char): int {
    if '0' <= c <= '9' then c as int - '0' as int
    else if 'a' <= c <= 'f' then c as int - 'a' as int + 10
    else if 'A' <= c <= 'F' then c as int - 'A' as int + 10
    else -1
  }

  // One character of a string, escaped or not, and how much text it takes. Of the `\u` escapes only
  // those of ASCII characters are read.
  function ReadChar(s: string): (r: Option<(char, nat)>)
    ensures r.Some? ==> 0 < r.value.1 <= |s|
  {
    if s == "" || s[0] == '"' || s[0] as int < 0x20 then None
    else if s[0] != '\\' then Some((s[0], 1))
    else if |s| < 2 then None
    else
      match s[1]
      case '"' => Some(('"', 2))
      case '\\' => Some(('\\', 2))
      case '/' => Some(('/', 2))
      case 'b' => Some((0x08 as char, 2))
      case 'f' => Some((0x0C as char, 2))
      case 'n' => Some(('\n', 2))
      case 'r' => Some(('\r', 2))
      case 't' => Some(('\t', 2))
      case 'u' =>
        if |s| < 6 || s[2] != '0' || s[3] != '0' || HexValue(s[4]) < 0 || HexValue(s[5]) < 0 || HexValue(s[4]) > 7 then None
        else Some(((HexValue(s[4]) * 16 + HexValue(s[5])) as char, 6))
      case _ => None
  }

  // The characters of a string up to its closing quotation mark, and the text behind it.
  function ReadChars(s: string): (r: Option<(string, string)>)
    ensures r.Some? ==> |r.value.1| < |s|
    decreases |s|
  {
    if s != "" && s[0] == '"' then Some(("", s[1..]))
    else
      var c := ReadChar(s);
      if c.None? then None
      else
        var more := ReadChars(s[c.value.1..]);
        if more.None? then None else Some(([c.value.0] + more.value.0, more.value.1))
  }

  function ReadNumber(s: string): (r: Option<(int, string)>)
    ensures r.Some? ==> |r.value.1| < |s|
  {
    if s != "" && s[0] == '-' then
      var n := Leading(s[1..]);
      if n == 0 then None else Some((-Value(s[1..][..n]), s[1..][n..]))
    else
      var n := Leading(s);
      if n == 0 then None else Some((Value(s[..n]), s[n..]))
  }

  // A value and the text behind it; white space between tokens is not read.
  function Read(s: string): (r: Option<(JsonValue, string)>)
    ensures r.Some? ==> |r.value.1| < |s|
    decreases |s|, 1
  {
    if s == "" then None
    else if s[0] == '"' then
      var chars := ReadChars(s[1..]);
      if chars.None? || '\0' in chars.value.0 then None else Some((String(chars.value.0), chars.value.1))
    else if s[0] == '[' then
      var items := if Behind(s[1..], "]").Some? then Some(([], Behind(s[1..], "]").value)) else ReadItems(s[1..]);
      if items.None? then None else Some((List(items.value.0), items.value.1))
    else if s[0] == '{' then
      var members := if Behind(s[1..], "}").Some? then Some(([], Behind(s[1..], "}").value)) else ReadMembers(s[1..]);
      if members.None? then None else Some((Object(members.value.0), members.value.1))
    else if Behind(s, "null").Some? then Some((Null, Behind(s, "null").value))
    else if Behind(s, "true").Some? then Some((Boolean(true), Behind(s, "true").value))
    else if Behind(s, "false").Some? then Some((Boolean(false), Behind(s, "false").value))
    else
      var n := ReadNumber(s);
      if n.None? then None else Some((Number(n.value.0), n.value.1))
  }

  // Items up to the closing bracket.
  function ReadItems(s: string): (r: Option<(seq<JsonValue>, string)>)
    ensures r.Some? ==> |r.value.1| < |s|
    decreases |s|, 2
  {
    var first := Read(s);
    if first.None? then None
    else if Behind(first.value.1, "]").Some? then Some(([first.value.0], Behind(first.value.1, "]").value))
    else if Behind(first.value.1, ",").Some? then
      var more := ReadItems(Behind(first.value.1, ",").value);
      if more.None? then None else Some(([first.value.0] + more.value.0, more.value.1))
    else None
  }

  function ReadMembers(s: string): (r: Option<(seq<Member>, string)>)
    ensures r.Some? ==> |r.value.1| < |s|
    decreases |s|, 2
  {
    if s == "" || s[0] != '"' then None
    else
      var key := ReadChars(s[1..]);
      if key.None? || '\0' in key.value.0 || Behind(key.value.1, ":").None? then None
      else
        var value := Read(Behind(key.value.1, ":").value);
        if value.None? then None
        else
          var member := Member(key.value.0, value.value.0);
          if Behind(value.value.1, "}").Some? then Some(([member], Behind(value.value.1, "}").value))
          else if Behind(value.value.1, ",").Some? then
            var more := ReadMembers(Behind(value.value.1, ",").value);
            if more.None? then None else Some(([member] + more.value.0, more.value.1))
          else None
  }

  // ---------------------------------------------------------------- what is written is read back

  lemma HexBack(d: nat)
    requires d < 16
    ensures HexValue(Hex(d)) == d
  {}

  lemma ReadCharBack(c: char, x: string)
    ensures ReadChar(Escaped(c) + x) == Some((c, |Escaped(c)|)) && (Escaped(c) + x)[|Escaped(c)|..] == x
    ensures (Escaped(c) + x)[0] != '"'
  {
    if c as int < 0x20 && c != '\n' && c != '\r' && c != '\t' {
      HexBack(c as int / 16);
      HexBack(c as int % 16);
    }
  }

  // A string that was escaped is unescaped to the same bytes.
  lemma {:induction false} ReadCharsBack(s: string, x: string)
    ensures ReadChars(Escapes(s) + ("\"" + x)) == Some((s, x))
    decreases |s|
  {
    hide ReadChar;
    hide Escaped;
    if s == "" {
      assert "" + ("\"" + x) == "\"" + x;
    } else {
      var more := Escapes(s[1..]) + ("\"" + x);
      Assoc(Escaped(s[0]), Escapes(s[1..]), "\"" + x);
      ReadCharBack(s[0], more);
      ReadCharsBack(s[1..], x);
      assert s == [s[0]] + s[1..];
    }
  }

  lemma StringTextThen(s: string, x: string)
    ensures StringText(s) + x == "\"" + (Escapes(s) + ("\"" + x))
  {
    Assoc("\"", Escapes(s) + "\"", x);
    Assoc(Escapes(s), "\"", x);
  }

  // What can stand behind a value.
  predicate Ends(x: string) {
    x == "" || x[0] == ',' || x[0] == ']' || x[0] == '}'
  }

  lemma ReadNumberBack(n: int, x: string)
    requires !StartsWithDigit(x)
    ensures ReadNumber(Signed(n) + x) == Some((n, x))
  {
    hide Decimal;
    var m: nat := if n < 0 then -n else n;
    LeadingDigits(Decimal(m), x);
    ValueOfDecimal(m);
    var digits := Decimal(m) + x;
    assert digits[..|Decimal(m)|] == Decimal(m) && digits[|Decimal(m)|..] == x;
    assert digits[0] == Decimal(m)[0];
    if n < 0 {
      Assoc("-", Decimal(m), x);
      assert ("-" + digits)[1..] == digits;
    }
  }

  // The first character of a value's text.
  lemma TextFront(v: JsonValue)
    ensures Text(v) != ""
    ensures
      var c := Text(v)[0];
      match v
      case Null => c == 'n'
      case Boolean(b) => c == if b then 't' else 'f'
      case Number(_) => c == '-' || IsDigit(c)
      case String(_) => c == '"'
      case List(_) => c == '['
      case Object(_) => c == '{'
  {
    hide Decimal;
  }

  // Every value reads back as itself.
  lemma {:induction false} ReadBack(v: JsonValue, x: string)
    requires Ends(x)
    ensures Read(Text(v) + x) == Some((v, x))
    decreases v, 1
  {
    hide ReadChars;
    hide ReadNumber;
    hide ReadItems;
    hide ReadMembers;
    hide Behind;
    hide StringText;
    TextFront(v);
    var s := Text(v) + x;
    assert s[0] == Text(v)[0];
    match v {
      case Null =>
        BehindPrefix("null", x);
      case Boolean(b) =>
        BehindOther(s, "null");
        BehindPrefix(Text(v), x);
        if !b {
          BehindOther(s, "true");
        }
      case Number(n) =>
        BehindOther(s, "null");
        BehindOther(s, "true");
        BehindOther(s, "false");
        ReadNumberBack(n, x);
      case String(t) =>
        StringTextThen(t, x);
        assert s[1..] == Escapes(t) + ("\"" + x);
        ReadCharsBack(t, x);
      case List(items) =>
        Assoc("[", ItemsText(items) + "]", x);
        Assoc(ItemsText(items), "]", x);
        assert s[1..] == ItemsText(items) + ("]" + x);
        ReadItemsBack(items, x);
      case Object(members) =>
        Assoc("{", MembersText(members) + "}", x);
        Assoc(MembersText(members), "}", x);
        assert s[1..] == MembersText(members) + ("}" + x);
        ReadMembersBack(members, x);
    }
  }

  lemma {:induction false} ReadItemsBack(items: seq<JsonValue>, x: string)
    ensures
      var s := ItemsText(items) + ("]" + x);
      if items == [] then Behind(s, "]") == Some(x)
      else Behind(s, "]") == None && ReadItems(s) == Some((items, x))
    decreases items, 0
  {
    hide Read;
    hide Text;
    hide Behind;
    var s := ItemsText(items) + ("]" + x);
    if items == [] {
      assert s == "]" + x;
      BehindPrefix("]", x);
    } else {
      var more := if |items| > 1 then "," + (ItemsText(items[1..]) + ("]" + x)) else "]" + x;
      ItemsSplit(items, x);
      TextFront(items[0]);
      assert s[0] == Text(items[0])[0];
      BehindOther(s, "]");
      ReadBack(items[0], more);
      assert items == [items[0]] + items[1..];
      if |items| > 1 {
        ReadItemsBack(items[1..], x);
        BehindOther(more, "]");
        BehindPrefix(",", ItemsText(items[1..]) + ("]" + x));
      } else {
        assert items == [items[0]];
        BehindPrefix("]", x);
      }
    }
  }

  lemma ItemsSplit(items: seq<JsonValue>, x: string)
    requires items != []
    ensures ItemsText(items) + ("]" + x) ==
      Text(items[0]) + if |items| > 1 then "," + (ItemsText(items[1..]) + ("]" + x)) else "]" + x
  {
    hide Text;
    var comma, more := if |items| > 1 then "," else "", ItemsText(items[1..]);
    Assoc(Text(items[0]), comma + more, "]" + x);
    Assoc(comma, more, "]" + x);
    assert |items| == 1 ==> more == "" && "" + ("" + ("]" + x)) == "]" + x;
  }

  lemma {:induction false} ReadMembersBack(members: seq<Member>, x: string)
    ensures
      var s := MembersText(members) + ("}" + x);
      if members == [] then Behind(s, "}") == Some(x)
      else Behind(s, "}") == None && ReadMembers(s) == Some((members, x))
    decreases members, 0
  {
    hide Read;
    hide ReadChars;
    hide Text;
    hide Behind;
    hide KeyText;
    var s := MembersText(members) + ("}" + x);
    if members == [] {
      assert s == "}" + x;
      BehindPrefix("}", x);
    } else {
      var m := members[0];
      var more := if |members| > 1 then "," + (MembersText(members[1..]) + ("}" + x)) else "}" + x;
      MembersSplit(members, x);
      KeyThen(m.key, Text(m.value) + more);
      BehindOther(s, "}");
      ReadCharsBack(m.key, ":" + (Text(m.value) + more));
      assert s[1..] == Escapes(m.key) + ("\"" + (":" + (Text(m.value) + more)));
      BehindPrefix(":", Text(m.value) + more);
      ReadBack(m.value, more);
      assert members == [m] + members[1..];
      if |members| > 1 {
        ReadMembersBack(members[1..], x);
        BehindOther(more, "}");
        BehindPrefix(",", MembersText(members[1..]) + ("}" + x));
      } else {
        assert members == [m];
        BehindPrefix("}", x);
      }
    }
  }

  lemma KeyThen(key: CString, x: string)
    ensures KeyText(key) + x == "\"" + (Escapes(key) + ("\"" + (":" + x)))
  {
    Assoc(StringText(key), ":", x);
    StringTextThen(key, ":" + x);
  }

  lemma MembersSplit(members: seq<Member>, x: string)
    requires members != []
    ensures MembersText(members) + ("}" + x) ==
      KeyText(members[0].key) +
      (Text(members[0].value) + if |members| > 1 then "," + (MembersText(members[1..]) + ("}" + x)) else "}" + x)
  {
    hide Text;
    hide KeyText;
    var key, value := KeyText(members[0].key), Text(members[0].value);
    var comma, more := if |members| > 1 then "," else "", MembersText(members[1..]);
    Assoc(key, value + (comma + more), "}" + x);
    Assoc(value, comma + more, "}" + x);
    Assoc(comma, more, "}" + x);
    assert |members| == 1 ==> more == "" && "" + ("" + ("}" + x)) == "}" + x;
  }
}
