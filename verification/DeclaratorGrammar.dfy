/**
 Reading C type names and declarations back (sections 6.7.2, 6.7.6 and 6.7.7 of C11).

 The reader follows the grammar: specifiers, then pointers, then a direct declarator with its
 suffixes, and gives the type that section 6.7.6 assigns. A reader that is not `strict` is more
 lenient than C11 in two places: it takes the word `_Atomic` in front of a parenthesis for a
 qualifier, and a list for one that has nothing but an ellipsis in it.
 */
module DeclaratorGrammar {
  import opened Decimals
  import opened Declarators
  import opened Options
  import opened Prefixes
  import opened TypeGraph

  // ---------------------------------------------------------------- words

  // The bytes of an identifier; those of a character beyond ASCII count.
  predicate IsWordChar(c: char) {
    'a' <= c <= 'z' || 'A' <= c <= 'Z' || '0' <= c <= '9' || c == '_' || c as int >= 0x80
  }

  function WordLength(s: string): (n: nat)
    ensures n <= |s|
  {
    if s == "" || !IsWordChar(s[0]) then 0 else 1 + WordLength(s[1..])
  }

  // The word a text starts with, if any, and what is behind it.
  function Word(s: string): string {
    s[..WordLength(s)]
  }

  function After(s: string): (r: string)
    ensures |r| + |Word(s)| == |s|
  {
    s[WordLength(s)..]
  }

  function Skip(s: string): (r: string)
    ensures |r| <= |s|
  {
    if s != "" && s[0] == ' ' then Skip(s[1..]) else s
  }

  // ---------------------------------------------------------------- specifiers

  predicate IsQualifier(w: string) {
    w == "const" || w == "volatile" || w == "_Atomic" || w == "restrict"
  }

  predicate OpensParenthesis(s: string) {
    s != "" && s[0] == '('
  }

  // `_Atomic` in front of a parenthesis is a type specifier (section 6.7.2.4, paragraph 4, of C11).
  predicate IsAtomicSpecifier(s: string) {
    Word(s) == "_Atomic" && OpensParenthesis(Skip(After(s)))
  }

  function ReadQualifiers(strict: bool, s: string): (r: (Qualifiers, string))
    ensures |r.1| <= |s|
    decreases |s|
  {
    var w := Word(s);
    if !IsQualifier(w) || (strict && IsAtomicSpecifier(s)) then (UNQUALIFIED, s)
    else
      var (q, rest) := ReadQualifiers(strict, Skip(After(s)));
      (Mark(w, q), rest)
  }

  function Mark(w: string, q: Qualifiers): Qualifiers {
    match w
    case "const" => q.(isConst := true)
    case "volatile" => q.(isVolatile := true)
    case "_Atomic" => q.(isAtomic := true)
    case _ => q.(isRestrict := true)
  }

  function ReadTag(s: string): (r: Option<(string, string)>)
    ensures r.Some? ==> |r.value.1| <= |s|
  {
    var t := Skip(s);
    if Word(t) == "" then None else Some((Word(t), After(t)))
  }

  function ReadInteger(isUnsigned: bool, s: string): (r: Option<(Specifier, string)>)
    ensures r.Some? ==> |r.value.1| <= |s|
  {
    var behind := After(s);
    match Word(s)
    case "char" => Some((IntegerSpecifier(isUnsigned, CharWord), behind))
    case "short" => Some((IntegerSpecifier(isUnsigned, ShortWord), behind))
    case "int" => Some((IntegerSpecifier(isUnsigned, IntWord), behind))
    case "long" =>
      if Word(Skip(behind)) == "long" then Some((IntegerSpecifier(isUnsigned, LongLongWord), After(Skip(behind))))
      else Some((IntegerSpecifier(isUnsigned, LongWord), behind))
    case _ => None
  }

  function ReadComplex(kind: FloatingSpelling, s: string): (r: (Specifier, string))
    ensures |r.1| <= |s|
  {
    if Word(Skip(s)) == "_Complex" then (FloatingSpecifier(kind, true), After(Skip(s)))
    else (FloatingSpecifier(kind, false), s)
  }

  function ReadSpecifier(s: string): (r: Option<(Specifier, string)>)
    ensures r.Some? ==> |r.value.1| <= |s|
  {
    var behind := After(s);
    match Word(s)
    case "void" => Some((VoidSpecifier, behind))
    case "_Bool" => Some((BoolSpecifier, behind))
    case "enum" =>
      var tag := ReadTag(behind);
      if tag.None? then None else Some((EnumSpecifier(tag.value.0), tag.value.1))
    case "struct" =>
      var tag := ReadTag(behind);
      if tag.None? then None else Some((RecordSpecifier(true, tag.value.0), tag.value.1))
    case "union" =>
      var tag := ReadTag(behind);
      if tag.None? then None else Some((RecordSpecifier(false, tag.value.0), tag.value.1))
    case "float" => Some(ReadComplex(FloatWord, behind))
    case "double" => Some(ReadComplex(DoubleWord, behind))
    case "unsigned" => ReadInteger(true, Skip(behind))
    case "long" =>
      if Word(Skip(behind)) == "double" then Some(ReadComplex(LongDoubleWord, After(Skip(behind))))
      else ReadInteger(false, s)
    case _ => ReadInteger(false, s)
  }

  // ---------------------------------------------------------------- declarators

  // A type name (`name` empty) or a declaration of `name`.
  function ReadType(strict: bool, s: string, name: string): (r: Option<(CType, string)>)
    ensures r.Some? ==> |r.value.1| <= |s|
    decreases |s|, 4
  {
    var (quals, body) := ReadQualifiers(strict, s);
    var spec := ReadSpecifier(body);
    if spec.None? then None
    else
      var base, behind := Base(quals, spec.value.0), spec.value.1;
      if behind != "" && behind[0] == ' ' then
        var d := ReadDeclarator(strict, behind[1..], name);
        if d.None? then None else Some((Meaning(d.value.0, base), d.value.1))
      else if name == "" then Some((base, behind))
      else None
  }

  // declarator: pointers, then a direct declarator.
  function ReadDeclarator(strict: bool, s: string, name: string): (r: Option<(Declarator, string)>)
    ensures r.Some? ==> |r.value.1| <= |s|
    decreases |s|, 2
  {
    if s != "" && s[0] == '*' then
      var (quals, behind) := ReadQualifiers(strict, Skip(s[1..]));
      var d := ReadDeclarator(strict, behind, name);
      if Word(behind) == "_Atomic" || d.None? then None else Some((Pointing(quals, d.value.0), d.value.1))
    else ReadDirect(strict, s, name)
  }

  // A parenthesis opens a declarator, not a parameter list, when the name is still to come or when
  // the next token cannot start a parameter.
  predicate OpensGroup(s: string, name: string) {
    |s| > 1 && s[0] == '(' && (name != "" || s[1] == '*' || s[1] == '(' || s[1] == '[')
  }

  // direct-declarator: the name or a declarator in parentheses, then suffixes.
  function ReadDirect(strict: bool, s: string, name: string): (r: Option<(Declarator, string)>)
    ensures r.Some? ==> |r.value.1| <= |s|
    decreases |s|, 1
  {
    if OpensGroup(s, name) then
      var d := ReadDeclarator(strict, s[1..], name);
      if d.None? then None
      else
        var rest := Behind(d.value.1, ")");
        if rest.None? then None else ReadSuffixes(strict, Group(d.value.0), rest.value)
    else if name != "" then if Word(s) == name then ReadSuffixes(strict, Hole, After(s)) else None
    else ReadSuffixes(strict, Hole, s)
  }

  function ReadSuffixes(strict: bool, d: Declarator, s: string): (r: Option<(Declarator, string)>)
    ensures r.Some? ==> |r.value.1| <= |s|
    decreases |s|, 0
  {
    if s != "" && s[0] == '[' then
      var bound := ReadBound(s[1..]);
      if bound.None? then None else ReadSuffixes(strict, Suffixed(d, ArraySuffix(bound.value.0)), bound.value.1)
    else if s != "" && s[0] == '(' then
      var params := ReadParameters(strict, s[1..]);
      if params.None? then None else ReadSuffixes(strict, Suffixed(d, CallSuffix(params.value.0)), params.value.1)
    else Some((d, s))
  }

  // Behind '['.
  function ReadBound(s: string): (r: Option<(Bound, string)>)
    ensures r.Some? ==> |r.value.1| < |s|
  {
    if Behind(s, "]").Some? then Some((NoBound, Behind(s, "]").value))
    else if Behind(s, "*]").Some? then Some((Star, Behind(s, "*]").value))
    else
      var n := Leading(s);
      var rest := Behind(s[n..], "]");
      if n == 0 || rest.None? then None else Some((Fixed(Value(s[..n])), rest.value))
  }

  // Behind '('. `(void)` says that there are no parameters; an ellipsis stands behind some parameter
  // (section 6.7.6 of C11).
  function ReadParameters(strict: bool, s: string): (r: Option<(Parameters, string)>)
    ensures r.Some? ==> |r.value.1| <= |s|
    decreases |s|, 6
  {
    if Behind(s, ")").Some? then Some((Unspecified, Behind(s, ")").value))
    else if Behind(s, "void)").Some? then Some((Listed([], false), Behind(s, "void)").value))
    else if strict && Behind(s, "...").Some? then None
    else
      var list := ReadList(strict, s);
      if list.None? then None else Some((Listed(list.value.0, list.value.1), list.value.2))
  }

  function ReadList(strict: bool, s: string): (r: Option<(seq<CType>, bool, string)>)
    ensures r.Some? ==> |r.value.2| <= |s|
    decreases |s|, 5
  {
    if Behind(s, "...)").Some? then Some(([], true, Behind(s, "...)").value))
    else
      var first := ReadType(strict, s, "");
      if first.None? then None
      else if Behind(first.value.1, ", ").Some? then
        var more := ReadList(strict, Behind(first.value.1, ", ").value);
        if more.None? then None else Some(([first.value.0] + more.value.0, more.value.1, more.value.2))
      else
        var rest := Behind(first.value.1, ")");
        if rest.None? then None else Some(([first.value.0], false, rest.value))
  }
}
