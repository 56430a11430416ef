/**
 What equal signatures say about the types: a type graph, followed from a type along all paths,
 unfolds into a possibly infinite tree, and signatures describe these trees.
 */
module Unfoldings {
  import opened Faces
  import opened Options
  import opened Signatures
  import SignatureDecoding
  import opened TypeGraph
  import opened TargetInfo

  // The tree of a type down to a depth.
  datatype Tree = Cut | Unknown | Tree(quals: Qualifiers, face: Face, children: seq<Tree>)

  function Unfold(g: Table, q: QualType, depth: nat): Tree
    decreases depth, 0
  {
    if depth == 0 then Cut
    else if !Known(g, q.id) || !IsPrintable(g.types[q.id]) then Unknown
    else Tree(q.quals, FaceOf(g.layout, g.types[q.id]), UnfoldAll(g, ChildrenOf(g.types[q.id]), depth - 1))
  }

  function UnfoldAll(g: Table, qs: seq<QualType>, depth: nat): (ts: seq<Tree>)
    ensures |ts| == |qs|
    decreases depth, 1, |qs|
  {
    if qs == [] then [] else [Unfold(g, qs[0], depth)] + UnfoldAll(g, qs[1..], depth)
  }

  lemma QualifierLetters(q: Qualifiers)
    ensures var s := QualifierText(q);
      && ('k' in s <==> q.isConst)
      && ('V' in s <==> q.isVolatile)
      && ('A' in s <==> q.isAtomic)
      && ('R' in s <==> q.isRestrict)
  {
    var k, v := if q.isConst then "k" else "", if q.isVolatile then "V" else "";
    var a, r := if q.isAtomic then "A" else "", if q.isRestrict then "R" else "";
    assert forall c :: c in QualifierText(q) <==> c in k || c in v || c in a || c in r;
  }

  lemma QualifierTextInjective(p: Qualifiers, q: Qualifiers)
    requires QualifierText(p) == QualifierText(q)
    ensures p == q
  {
    hide QualifierText;
    QualifierLetters(p);
    QualifierLetters(q);
  }

  // ---------------------------------------------------------------- equal signatures, equal trees

  // Two paths whose types, one by one, have the same node below the same ancestors.
  ghost predicate Paired(g: Table, path: seq<TypeId>, h: Table, qath: seq<TypeId>)
    requires |path| == |qath|
  {
    forall i {:trigger path[i]} {:trigger qath[i]} :: 0 <= i < |path| ==>
      && Known(g, path[i]) && path[i] !in path[i + 1..]
      && Known(h, qath[i]) && qath[i] !in qath[i + 1..]
      && NodeOf(g, path[i], path[i + 1..]).Some?
      && NodeOf(g, path[i], path[i + 1..]) == NodeOf(h, qath[i], qath[i + 1..])
  }

  lemma PairedTail(g: Table, path: seq<TypeId>, h: Table, qath: seq<TypeId>, k: nat)
    requires |path| == |qath| && Paired(g, path, h, qath) && k <= |path|
    ensures Paired(g, path[k..], h, qath[k..])
  {
    forall i | 0 <= i < |path| - k
      ensures path[k..][i] == path[i + k] && path[k..][i + 1..] == path[i + k + 1..]
      ensures qath[k..][i] == qath[i + k] && qath[k..][i + 1..] == qath[i + k + 1..]
    {}
  }

  lemma PairedGrows(g: Table, a: TypeId, path: seq<TypeId>, h: Table, b: TypeId, qath: seq<TypeId>)
    requires |path| == |qath| && Paired(g, path, h, qath)
    requires Known(g, a) && a !in path && Known(h, b) && b !in qath
    requires NodeOf(g, a, path).Some? && NodeOf(g, a, path) == NodeOf(h, b, qath)
    ensures Paired(g, [a] + path, h, [b] + qath)
  {
    hide NodeOf;
    var p, q := [a] + path, [b] + qath;
    forall i | 0 <= i < |p|
      ensures
        && Known(g, p[i]) && p[i] !in p[i + 1..]
        && Known(h, q[i]) && q[i] !in q[i + 1..]
        && NodeOf(g, p[i], p[i + 1..]).Some?
        && NodeOf(g, p[i], p[i + 1..]) == NodeOf(h, q[i], q[i + 1..])
    {
      BehindFirst(a, path, i);
      BehindFirst(b, qath, i);
      if i > 0 {
        PairedAt(g, path, h, qath, i - 1);
      }
    }
  }

  lemma BehindFirst(a: TypeId, path: seq<TypeId>, i: nat)
    requires i <= |path|
    ensures ([a] + path)[i + 1..] == path[i..] && ([a] + path)[i] == (if i == 0 then a else path[i - 1]) && path[0..] == path
  {}

  // Equal terms below paired ancestors unfold to equal trees. A reference is followed to the
  // ancestor it names, with one level less to go.
  lemma {:induction false} SameTermSameTree(
    g: Table, p: QualType, path: seq<TypeId>, h: Table, q: QualType, qath: seq<TypeId>, depth: nat)
    requires |path| == |qath| && Paired(g, path, h, qath)
    requires TermOf(g, p, path).Some? && TermOf(g, p, path) == TermOf(h, q, qath)
    ensures Unfold(g, p, depth) == Unfold(h, q, depth)
    decreases depth, 1
  {
    hide NodeOf;
    hide Paired;
    if depth > 0 {
      QualifierTextInjective(p.quals, q.quals);
      RefsAreRefs(g, p, path);
      RefsAreRefs(h, q, qath);
      var k := Distance(path, p.id);
      if k >= 0 {
        PairedAt(g, path, h, qath, k);
        PairedTail(g, path, h, qath, k + 1);
        SameNodeSameTree(g, p.id, path[k + 1..], h, q.id, qath[k + 1..], depth);
      } else {
        SameNodeSameTree(g, p.id, path, h, q.id, qath, depth);
      }
    }
  }

  // A term is a reference exactly when its type is on the path.
  lemma RefsAreRefs(g: Table, q: QualType, path: seq<TypeId>)
    requires TermOf(g, q, path).Some?
    ensures Known(g, q.id)
    ensures var node := TermOf(g, q, path).value.node;
      if Distance(path, q.id) >= 0 then node == LeafNode(Ref(Distance(path, q.id)))
      else NodeOf(g, q.id, path) == Some(node) && !(node.LeafNode? && node.leaf.Ref?)
  {}

  lemma PairedAt(g: Table, path: seq<TypeId>, h: Table, qath: seq<TypeId>, k: nat)
    requires |path| == |qath| && Paired(g, path, h, qath) && k < |path|
    ensures Known(g, path[k]) && path[k] !in path[k + 1..] && Known(h, qath[k]) && qath[k] !in qath[k + 1..]
    ensures NodeOf(g, path[k], path[k + 1..]).Some?
    ensures NodeOf(g, path[k], path[k + 1..]) == NodeOf(h, qath[k], qath[k + 1..])
  {}

  lemma {:induction false} SameNodeSameTree(
    g: Table, a: TypeId, path: seq<TypeId>, h: Table, b: TypeId, qath: seq<TypeId>, depth: nat)
    requires |path| == |qath| && Paired(g, path, h, qath) && depth > 0
    requires Known(g, a) && a !in path && Known(h, b) && b !in qath
    requires NodeOf(g, a, path).Some? && NodeOf(g, a, path) == NodeOf(h, b, qath)
    ensures IsPrintable(g.types[a]) && IsPrintable(h.types[b])
    ensures FaceOf(g.layout, g.types[a]) == FaceOf(h.layout, h.types[b])
    ensures UnfoldAll(g, ChildrenOf(g.types[a]), depth - 1) == UnfoldAll(h, ChildrenOf(h.types[b]), depth - 1)
    decreases depth, 0
  {
    hide Paired;
    hide FaceOf;
    hide LabelOf;
    PairedGrows(g, a, path, h, b, qath);
    var ps, qs := ChildrenOf(g.types[a]), ChildrenOf(h.types[b]);
    NodesHaveTerms(g, a, path);
    NodesHaveTerms(h, b, qath);
    var ts, us := TermsOf(g, ps, [a] + path).value, TermsOf(h, qs, [b] + qath).value;
    BuildInjective(LabelOf(g.layout, g.types[a]), LabelOf(h.layout, h.types[b]), ts, us);
    LabelsAgreeIff(g.layout, g.types[a], h.layout, h.types[b]);
    forall i | 0 <= i < |ps| ensures Unfold(g, ps[i], depth - 1) == Unfold(h, qs[i], depth - 1) {
      TermsOfAt(g, ps, [a] + path, i);
      TermsOfAt(h, qs, [b] + qath, i);
      SameTermSameTree(g, ps[i], [a] + path, h, qs[i], [b] + qath, depth - 1);
    }
    UnfoldAllEqual(g, ps, h, qs, depth - 1);
  }

  lemma NodesHaveTerms(g: Table, id: TypeId, path: seq<TypeId>)
    requires Known(g, id) && id !in path && NodeOf(g, id, path).Some?
    ensures IsPrintable(g.types[id])
    ensures var ts := TermsOf(g, ChildrenOf(g.types[id]), [id] + path);
      && ts.Some?
      && Fits(LabelOf(g.layout, g.types[id]), |ts.value|)
      && NodeOf(g, id, path).value == Build(LabelOf(g.layout, g.types[id]), ts.value)
  {}

  lemma {:induction false} UnfoldAllEqual(g: Table, ps: seq<QualType>, h: Table, qs: seq<QualType>, depth: nat)
    requires |ps| == |qs|
    requires forall i :: 0 <= i < |ps| ==> Unfold(g, ps[i], depth) == Unfold(h, qs[i], depth)
    ensures UnfoldAll(g, ps, depth) == UnfoldAll(h, qs, depth)
  {
    hide Unfold;
    if ps != [] {
      assert forall i :: 0 <= i < |ps[1..]| ==> ps[1..][i] == ps[i + 1] && qs[1..][i] == qs[i + 1];
      UnfoldAllEqual(g, ps[1..], h, qs[1..], depth);
    }
  }

  // ---------------------------------------------------------------- tables without qualified functions

  // C has no qualified function types.
  predicate SoundUse(g: Table, q: QualType) {
    q.id in g.types && g.types[q.id].FunctionType? ==> q.quals == UNQUALIFIED
  }

  ghost predicate SoundTable(g: Table) {
    forall id <- g.types :: forall q <- ChildrenOf(g.types[id]) :: SoundUse(g, q)
  }

  lemma {:induction false} TermIsPlain(g: Table, q: QualType, path: seq<TypeId>)
    requires SoundTable(g) && SoundUse(g, q) && TermOf(g, q, path).Some?
    ensures Plain(TermOf(g, q, path).value) && SignatureDecoding.WellQualified(TermOf(g, q, path).value)
    decreases Unvisited(g, path), 1, 0
  {
    if Distance(path, q.id) < 0 {
      var shape := g.types[q.id];
      assert q.id in Unvisited(g, path) && q.id !in Unvisited(g, [q.id] + path);
      assert Unvisited(g, [q.id] + path) <= Unvisited(g, path);
      NodesHaveTerms(g, q.id, path);
      TermsArePlain(g, ChildrenOf(shape), [q.id] + path);
      var l, ts := LabelOf(g.layout, shape), TermsOf(g, ChildrenOf(shape), [q.id] + path).value;
      BuiltIsPlain(QualifierText(q.quals), l, ts);
    }
  }

  lemma BuiltIsPlain(quals: string, l: Label, ts: seq<Term>)
    requires Fits(l, |ts|) && PlainAll(ts) && SignatureDecoding.WellQualifiedAll(ts)
    requires SignatureDecoding.AllQualifiers(quals) && (l.FunctionLabel? ==> quals == "")
    ensures Plain(Term(quals, Build(l, ts))) && SignatureDecoding.WellQualified(Term(quals, Build(l, ts)))
  {
    match l {
      case AnonymousLabel(_, info) => MembersArePlain(info.members, ts);
      case TaggedLabel(_, _, shape) =>
        if shape.Some? {
          MembersArePlain(shape.value.members, ts);
        }
      case _ =>
    }
  }

  lemma {:induction false} MembersArePlain(infos: seq<MemberInfo>, ts: seq<Term>)
    requires |infos| == |ts| && PlainAll(ts) && SignatureDecoding.WellQualifiedAll(ts)
    ensures PlainMembers(MemberNodes(infos, ts)) && SignatureDecoding.WellQualifiedMembers(MemberNodes(infos, ts))
  {
    if ts != [] {
      MembersArePlain(infos[1..], ts[1..]);
      assert MemberNodes(infos, ts)[1..] == MemberNodes(infos[1..], ts[1..]);
    }
  }

  lemma {:induction false} TermsArePlain(g: Table, qs: seq<QualType>, path: seq<TypeId>)
    requires SoundTable(g) && (forall q <- qs :: SoundUse(g, q)) && TermsOf(g, qs, path).Some?
    ensures PlainAll(TermsOf(g, qs, path).value) && SignatureDecoding.WellQualifiedAll(TermsOf(g, qs, path).value)
    decreases Unvisited(g, path), 2, |qs|
  {
    if qs != [] {
      TermIsPlain(g, qs[0], path);
      TermsArePlain(g, qs[1..], path);
      assert TermsOf(g, qs, path).value[1..] == TermsOf(g, qs[1..], path).value;
    }
  }

  // Types with equal signatures, of whatever tables and targets, unfold to the same tree at every
  // depth.
  lemma EqualSignaturesEqualUnfoldings(g: Table, p: QualType, h: Table, q: QualType, depth: nat)
    requires SoundTable(g) && SoundUse(g, p) && SoundTable(h) && SoundUse(h, q)
    requires Signature(g, p).Some? && Signature(g, p) == Signature(h, q)
    ensures Unfold(g, p, depth) == Unfold(h, q, depth)
  {
    TermIsPlain(g, p, []);
    TermIsPlain(h, q, []);
    SignatureDecoding.TextDeterminesTerm(TermOf(g, p, []).value, TermOf(h, q, []).value);
    SameTermSameTree(g, p, [], h, q, [], depth);
  }

  lemma {:induction false} DistanceByPosition(path: seq<TypeId>, a: TypeId, qath: seq<TypeId>, b: TypeId)
    requires |path| == |qath| && forall i :: 0 <= i < |path| ==> (path[i] == a <==> qath[i] == b)
    ensures Distance(path, a) == Distance(qath, b)
  {
    if path != [] {
      assert forall i :: 0 <= i < |path[1..]| ==> path[1..][i] == path[i + 1] && qath[1..][i] == qath[i + 1];
      DistanceByPosition(path[1..], a, qath[1..], b);
    }
  }

  // ---------------------------------------------------------------- ids do not matter

  // `f` renames the types of `g` to those of `h`, and a use of no type to a use of no type.
  predicate RenamesUse(f: map<TypeId, TypeId>, g: Table, p: QualType, h: Table, q: QualType) {
    p.quals == q.quals && if Known(g, p.id) then p.id in f && q.id == f[p.id] else !Known(h, q.id)
  }

  ghost predicate Renames(f: map<TypeId, TypeId>, g: Table, h: Table) {
    && (forall a, b | a in f && b in f && f[a] == f[b] :: a == b)
    && forall id | Known(g, id) ::
         && id in f && Known(h, f[id])
         && (IsPrintable(g.types[id]) <==> IsPrintable(h.types[f[id]]))
         && (IsPrintable(g.types[id]) ==> LabelOf(g.layout, g.types[id]) == LabelOf(h.layout, h.types[f[id]]))
         && |ChildrenOf(g.types[id])| == |ChildrenOf(h.types[f[id]])|
         && forall i :: 0 <= i < |ChildrenOf(g.types[id])| ==>
              RenamesUse(f, g, ChildrenOf(g.types[id])[i], h, ChildrenOf(h.types[f[id]])[i])
  }

  ghost predicate RenamesPath(f: map<TypeId, TypeId>, path: seq<TypeId>, qath: seq<TypeId>) {
    |path| == |qath| && forall i :: 0 <= i < |path| ==> path[i] in f && qath[i] == f[path[i]]
  }

  lemma {:induction false} RenamedTerm(
    f: map<TypeId, TypeId>, g: Table, p: QualType, path: seq<TypeId>, h: Table, q: QualType, qath: seq<TypeId>)
    requires Renames(f, g, h) && RenamesUse(f, g, p, h, q) && RenamesPath(f, path, qath)
    ensures TermOf(h, q, qath) == TermOf(g, p, path)
    decreases Unvisited(g, path), 1, 0
  {
    if Known(g, p.id) {
      DistanceByPosition(path, p.id, qath, q.id);
      if Distance(path, p.id) < 0 && IsPrintable(g.types[p.id]) {
        assert p.id in Unvisited(g, path) && p.id !in Unvisited(g, [p.id] + path);
        assert Unvisited(g, [p.id] + path) <= Unvisited(g, path);
        assert RenamesPath(f, [p.id] + path, [q.id] + qath);
        RenamedTerms(f, g, ChildrenOf(g.types[p.id]), [p.id] + path, h, ChildrenOf(h.types[q.id]), [q.id] + qath);
      }
    }
  }

  lemma {:induction false} RenamedTerms(
    f: map<TypeId, TypeId>, g: Table, ps: seq<QualType>, path: seq<TypeId>,
    h: Table, qs: seq<QualType>, qath: seq<TypeId>)
    requires Renames(f, g, h) && RenamesPath(f, path, qath) && |ps| == |qs|
    requires forall i :: 0 <= i < |ps| ==> RenamesUse(f, g, ps[i], h, qs[i])
    ensures TermsOf(h, qs, qath) == TermsOf(g, ps, path)
    decreases Unvisited(g, path), 2, |ps|
  {
    hide Renames;
    hide RenamesUse;
    hide RenamesPath;
    if ps != [] {
      RenamedTerm(f, g, ps[0], path, h, qs[0], qath);
      assert forall i :: 0 <= i < |ps[1..]| ==> ps[1..][i] == ps[i + 1] && qs[1..][i] == qs[i + 1];
      RenamedTerms(f, g, ps[1..], path, h, qs[1..], qath);
    }
  }

  // Renaming type ids changes no signature, so signatures can be compared across translation units.
  lemma SignatureIgnoresIds(f: map<TypeId, TypeId>, g: Table, p: QualType, h: Table, q: QualType)
    requires Renames(f, g, h) && RenamesUse(f, g, p, h, q)
    ensures Signature(h, q) == Signature(g, p)
  {
    RenamedTerm(f, g, p, [], h, q, []);
  }

  // ---------------------------------------------------------------- references

  // Every reference in the term names one of the nodes around it, or one of `outer` more.
  predicate Scoped(t: Term, outer: nat) {
    match t.node
    case LeafNode(leaf) => leaf.Ref? ==> leaf.distance < outer
    case Pointer(target) => Scoped(target, outer + 1)
    case Array(_, element) => Scoped(element, outer + 1)
    case Function(result, call) => Scoped(result, outer + 1) && ScopedAll(call.params, outer + 1)
    case Anonymous(_, body) => ScopedMembers(body.members, outer + 1)
    case Tagged(_, _, shape) => shape.Some? ==> ScopedMembers(shape.value.members, outer + 1)
  }

  predicate ScopedAll(ts: seq<Term>, outer: nat) {
    ts == [] || (Scoped(ts[0], outer) && ScopedAll(ts[1..], outer))
  }

  predicate ScopedMembers(ms: seq<Member>, outer: nat) {
    ms == [] || (Scoped(ms[0].term, outer) && ScopedMembers(ms[1..], outer))
  }

  lemma {:induction false} TermIsScoped(g: Table, q: QualType, path: seq<TypeId>)
    requires TermOf(g, q, path).Some?
    ensures Scoped(TermOf(g, q, path).value, |path|)
    decreases Unvisited(g, path), 1, 0
  {
    if Distance(path, q.id) < 0 {
      assert q.id in Unvisited(g, path) && q.id !in Unvisited(g, [q.id] + path);
      assert Unvisited(g, [q.id] + path) <= Unvisited(g, path);
      NodesHaveTerms(g, q.id, path);
      TermsAreScoped(g, ChildrenOf(g.types[q.id]), [q.id] + path);
      var l, ts := LabelOf(g.layout, g.types[q.id]), TermsOf(g, ChildrenOf(g.types[q.id]), [q.id] + path).value;
      match l {
        case AnonymousLabel(_, info) => MembersAreScoped(info.members, ts, |path| + 1);
        case TaggedLabel(_, _, shape) =>
          if shape.Some? {
            MembersAreScoped(shape.value.members, ts, |path| + 1);
          }
        case _ =>
      }
    }
  }

  lemma {:induction false} MembersAreScoped(infos: seq<MemberInfo>, ts: seq<Term>, outer: nat)
    requires |infos| == |ts| && ScopedAll(ts, outer)
    ensures ScopedMembers(MemberNodes(infos, ts), outer)
  {
    if ts != [] {
      MembersAreScoped(infos[1..], ts[1..], outer);
      assert MemberNodes(infos, ts)[1..] == MemberNodes(infos[1..], ts[1..]);
    }
  }

  lemma {:induction false} TermsAreScoped(g: Table, qs: seq<QualType>, path: seq<TypeId>)
    requires TermsOf(g, qs, path).Some?
    ensures ScopedAll(TermsOf(g, qs, path).value, |path|)
    decreases Unvisited(g, path), 2, |qs|
  {
    if qs != [] {
      TermIsScoped(g, qs[0], path);
      TermsAreScoped(g, qs[1..], path);
      assert TermsOf(g, qs, path).value[1..] == TermsOf(g, qs[1..], path).value;
    }
  }
}
