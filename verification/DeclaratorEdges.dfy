/**
 Where the printer's own texts are no type names of C: an atomic pointer in front of a parenthesis,
 and a parameter list with nothing but an ellipsis in it.

 Both are decided by walking along the type, with what the text around the hole starts with.
 */
module DeclaratorEdges {
  import opened DeclaratorGrammar
  import opened Declarators
  import opened TypeGraph

  // What a declarator starts with: its name, or the place of the missing one; a pointer; a
  // parenthesis; the bracket of an array.
  datatype Edge = NameEdge | PointerEdge | ParenthesisEdge | BracketEdge

  // With one more suffix: a pointer gets its parentheses, and a missing name leaves the suffix.
  function Under(e: Edge, isCall: bool, named: bool): Edge {
    match e
    case PointerEdge => ParenthesisEdge
    case NameEdge => if named then NameEdge else if isCall then ParenthesisEdge else BracketEdge
    case _ => e
  }

  // Nothing tells `* _Atomic` from the specifier `_Atomic (` but another qualifier behind it.
  predicate IsAtomicLast(q: Qualifiers) {
    q.isAtomic && !q.isRestrict
  }

  // Whether the text of `t`, printed around a declarator that starts with `e`, is one that C reads.
  predicate Parses(t: CType, e: Edge, named: bool) {
    match t
    case Base(_, _) => true
    case PointerTo(quals, target) => !(IsAtomicLast(quals) && e.ParenthesisEdge?) && Parses(target, PointerEdge, named)
    case ArrayOf(_, element) => Parses(element, Under(e, false, named), named)
    case FunctionOf(params, result) => ParametersParse(params) && Parses(result, Under(e, true, named), named)
  }

  predicate ParametersParse(params: Parameters) {
    params.Listed? ==>
      (params.types == [] ==> !params.isVariadic) && forall u <- params.types :: Parses(u, NameEdge, false)
  }

  // ---------------------------------------------------------------- the same on declarators

  function EdgeOf(d: Declarator, named: bool): Edge {
    match d
    case Hole => NameEdge
    case Group(_) => ParenthesisEdge
    case Pointing(_, _) => PointerEdge
    case Suffixed(direct, suffix) => Under(EdgeOf(direct, named), suffix.CallSuffix?, named)
  }

  predicate DeclaratorParses(d: Declarator, named: bool) {
    match d
    case Hole => true
    case Group(inner) => DeclaratorParses(inner, named)
    case Pointing(quals, inner) =>
      !(IsAtomicLast(quals) && EdgeOf(inner, named).ParenthesisEdge?) && DeclaratorParses(inner, named)
    case Suffixed(direct, suffix) => (suffix.CallSuffix? ==> ParametersParse(suffix.params)) && DeclaratorParses(direct, named)
  }

  lemma {:induction false} DeclareParses(t: CType, d: Declarator, named: bool)
    ensures DeclaratorParses(Declare(t, d).0, named) <==> DeclaratorParses(d, named) && Parses(t, EdgeOf(d, named), named)
    decreases t
  {
    hide ParametersParse;
    match t {
      case Base(_, _) =>
      case PointerTo(quals, target) => DeclareParses(target, Pointing(quals, d), named);
      case ArrayOf(bound, element) => DeclareParses(element, Suffixed(Wrap(d), ArraySuffix(bound)), named);
      case FunctionOf(params, result) => DeclareParses(result, Suffixed(Wrap(d), CallSuffix(params)), named);
    }
  }

  lemma {:induction false} NamelessEdge(d: Declarator)
    ensures EdgeOf(d, false).NameEdge? <==> d.Hole?
  {
    if d.Suffixed? {
      NamelessEdge(d.direct);
    }
  }

  // The edge says whether the text starts with a parenthesis.
  lemma {:induction false} RenderEdge(d: Declarator, name: string, x: string)
    requires IsWellFormed(d) && (name == "" || IsWordChar(name[0]))
    ensures
      OpensParenthesis(Render(d, name, x)) <==>
      EdgeOf(d, name != "").ParenthesisEdge? || (name == "" && d.Hole? && OpensParenthesis(x))
    decreases d
  {
    hide ListText;
    match d {
      case Hole => assert name == "" ==> name + x == x;
      case Group(inner) =>
      case Pointing(quals, inner) =>
      case Suffixed(direct, suffix) =>
        RenderEdge(direct, name, SuffixText(suffix) + x);
        assert OpensParenthesis(SuffixText(suffix) + x) <==> suffix.CallSuffix?;
        if name == "" {
          NamelessEdge(direct);
        } else {
          NamedEdge(direct);
        }
    }
  }

  lemma {:induction false} NamedEdge(d: Declarator)
    requires IsWellFormed(d)
    ensures d.Pointing? <==> EdgeOf(d, true).PointerEdge?
  {
    if d.Suffixed? {
      NamedEdge(d.direct);
    }
  }
}
