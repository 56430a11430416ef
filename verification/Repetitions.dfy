/**
 When types with the same trees have the same signature.

 A signature names a type met again on the way from the root by its distance. It recognizes the type
 by its id, so a second type with the same tree, such as a structure declared again with the same
 tag and members in an inner scope, is printed in full where the first one would be named.
 */
module Repetitions {
  import opened Faces
  import opened Options
  import opened Signatures
  import SignatureDecoding
  import opened TargetInfo
  import opened TypeGraph
  import opened Unfoldings

  // ---------------------------------------------------------------- types with the same trees

  ghost predicate SameTrees(g: Table, p: QualType, h: Table, q: QualType) {
    forall depth: nat :: Unfold(g, p, depth) == Unfold(h, q, depth)
  }

  function Bare(id: TypeId): QualType {
    QualType(id, UNQUALIFIED)
  }

  lemma SameTreesCompose(
    f: Table, p: QualType, g: Table, q: QualType, h: Table, r: QualType)
    requires SameTrees(f, p, g, q) && SameTrees(f, p, h, r)
    ensures SameTrees(g, q, h, r)
  {
    forall depth: nat ensures Unfold(g, q, depth) == Unfold(h, r, depth) {
      assert Unfold(f, p, depth) == Unfold(g, q, depth) && Unfold(f, p, depth) == Unfold(h, r, depth);
    }
  }

  lemma SameTreesFlip(g: Table, p: QualType, h: Table, q: QualType)
    requires SameTrees(g, p, h, q)
    ensures SameTrees(h, q, g, p)
  {
    forall depth: nat ensures Unfold(h, q, depth) == Unfold(g, p, depth) {
      assert Unfold(g, p, depth) == Unfold(h, q, depth);
    }
  }

  lemma BareTrees(g: Table, p: QualType, h: Table, q: QualType)
    requires Known(g, p.id) && IsPrintable(g.types[p.id]) && SameTrees(g, p, h, q)
    ensures Known(h, q.id) && IsPrintable(h.types[q.id]) && p.quals == q.quals
    ensures SameTrees(g, Bare(p.id), h, Bare(q.id))
  {
    assert Unfold(g, p, 1) == Unfold(h, q, 1);
    forall depth: nat ensures Unfold(g, Bare(p.id), depth) == Unfold(h, Bare(q.id), depth) {
      assert Unfold(g, p, depth) == Unfold(h, q, depth);
      if depth > 0 {
        assert Unfold(g, Bare(p.id), depth) == Unfold(g, p, depth).(quals := UNQUALIFIED);
        assert Unfold(h, Bare(q.id), depth) == Unfold(h, q, depth).(quals := UNQUALIFIED);
      }
    }
  }

  lemma ChildTrees(g: Table, a: TypeId, h: Table, b: TypeId, i: nat)
    requires Known(g, a) && IsPrintable(g.types[a]) && SameTrees(g, Bare(a), h, Bare(b))
    ensures Known(h, b) && IsPrintable(h.types[b])
    ensures LabelOf(g.layout, g.types[a]) == LabelOf(h.layout, h.types[b])
    ensures |ChildrenOf(g.types[a])| == |ChildrenOf(h.types[b])|
    ensures i < |ChildrenOf(g.types[a])| ==> SameTrees(g, ChildrenOf(g.types[a])[i], h, ChildrenOf(h.types[b])[i])
  {
    hide LabelOf;
    hide FaceOf;
    assert Unfold(g, Bare(a), 1) == Unfold(h, Bare(b), 1);
    LabelsAgreeIff(g.layout, g.types[a], h.layout, h.types[b]);
    var ps, qs := ChildrenOf(g.types[a]), ChildrenOf(h.types[b]);
    assert |UnfoldAll(g, ps, 0)| == |UnfoldAll(h, qs, 0)|;
    if i < |ps| {
      forall depth: nat ensures Unfold(g, ps[i], depth) == Unfold(h, qs[i], depth) {
        assert Unfold(g, Bare(a), depth + 1) == Unfold(h, Bare(b), depth + 1);
        UnfoldAllAt(g, ps, depth, i);
        UnfoldAllAt(h, qs, depth, i);
      }
    }
  }

  lemma {:induction false} UnfoldAllAt(g: Table, qs: seq<QualType>, depth: nat, i: nat)
    requires i < |qs|
    ensures UnfoldAll(g, qs, depth)[i] == Unfold(g, qs[i], depth)
  {
    if i > 0 {
      UnfoldAllAt(g, qs[1..], depth, i - 1);
    }
  }

  // ---------------------------------------------------------------- paths

  // `q` uses the type the path starts from, or is used by the type at its inner end; the inner end
  // of a path comes first.
  ghost predicate Reaches(g: Table, root: TypeId, path: seq<TypeId>, q: QualType) {
    if path == [] then q.id == root else Known(g, path[0]) && q in ChildrenOf(g.types[path[0]])
  }

  // A way from `root` down the types of the table on which no type is met twice: what the formatter
  // has on its path at some time.
  ghost predicate IsPath(g: Table, root: TypeId, path: seq<TypeId>) {
    path == [] ||
    (&& Known(g, path[0]) && IsPrintable(g.types[path[0]]) && path[0] !in path[1..]
     && (exists q: QualType :: q.id == path[0] && Reaches(g, root, path[1..], q))
     && IsPath(g, root, path[1..]))
  }

  // No such way meets two types with the same trees.
  ghost predicate Unrepeated(g: Table, root: TypeId) {
    forall path | IsPath(g, root, path) ::
      forall i, j | 0 <= i < j < |path| :: !SameTrees(g, Bare(path[i]), g, Bare(path[j]))
  }

  lemma PathGrows(g: Table, root: TypeId, path: seq<TypeId>, q: QualType)
    requires IsPath(g, root, path) && Reaches(g, root, path, q)
    requires Known(g, q.id) && IsPrintable(g.types[q.id]) && q.id !in path
    ensures IsPath(g, root, [q.id] + path)
  {
    assert ([q.id] + path)[1..] == path;
  }

  lemma {:induction false} PathHasNoDoubles(g: Table, root: TypeId, path: seq<TypeId>, i: nat, j: nat)
    requires IsPath(g, root, path) && i < j < |path|
    ensures path[i] != path[j]
  {
    assert path[j] == path[1..][j - 1];
    if i > 0 {
      PathHasNoDoubles(g, root, path[1..], i - 1, j - 1);
    }
  }

  lemma Once(g: Table, root: TypeId, path: seq<TypeId>, i: nat, j: nat)
    requires Unrepeated(g, root) && IsPath(g, root, path) && i < |path| && j < |path|
    requires SameTrees(g, Bare(path[i]), g, Bare(path[j]))
    ensures i == j
  {
    hide SameTrees;
    hide IsPath;
    SameTreesFlip(g, Bare(path[i]), g, Bare(path[j]));
  }

  // Where no trees repeat, a type with the tree of one on the path is that one.
  lemma MetAgain(g: Table, root: TypeId, path: seq<TypeId>, q: QualType, i: nat)
    requires IsPath(g, root, path) && Reaches(g, root, path, q) && Unrepeated(g, root)
    requires Known(g, q.id) && IsPrintable(g.types[q.id])
    requires i < |path| && SameTrees(g, Bare(q.id), g, Bare(path[i]))
    ensures path[i] == q.id
  {
    hide SameTrees;
    hide IsPath;
    hide Reaches;
    hide Unrepeated;
    var whole := if q.id in path then path else [q.id] + path;
    if q.id !in path {
      PathGrows(g, root, path, q);
    }
    var k :| 0 <= k < |whole| && whole[k] == q.id;
    Once(g, root, whole, k, i + |whole| - |path|);
  }

  // ---------------------------------------------------------------- same trees, same terms

  // Two paths with, one by one, the same trees.
  ghost predicate Alike(g: Table, path: seq<TypeId>, h: Table, qath: seq<TypeId>)
    requires |path| == |qath|
  {
    forall i {:trigger path[i]} {:trigger qath[i]} :: 0 <= i < |path| ==>
      && Known(g, path[i]) && IsPrintable(g.types[path[i]]) && Known(h, qath[i])
      && SameTrees(g, Bare(path[i]), h, Bare(qath[i]))
  }

  // Both paths are ways down, and both types are the next on them.
  ghost predicate SideBySide(
    g: Table, r: TypeId, path: seq<TypeId>, p: QualType, h: Table, s: TypeId, qath: seq<TypeId>, q: QualType)
  {
    && |path| == |qath| && Alike(g, path, h, qath)
    && IsPath(g, r, path) && Reaches(g, r, path, p)
    && IsPath(h, s, qath) && Reaches(h, s, qath, q)
  }

  // Where no trees repeat, a type is met again exactly where its counterpart is.
  lemma AlikeDistance(
    g: Table, r: TypeId, path: seq<TypeId>, p: QualType, h: Table, s: TypeId, qath: seq<TypeId>, q: QualType)
    requires SideBySide(g, r, path, p, h, s, qath, q) && Unrepeated(g, r) && Unrepeated(h, s)
    requires Known(g, p.id) && IsPrintable(g.types[p.id]) && Known(h, q.id) && IsPrintable(h.types[q.id])
    requires SameTrees(g, Bare(p.id), h, Bare(q.id))
    ensures Distance(path, p.id) == Distance(qath, q.id)
  {
    hide SameTrees;
    hide IsPath;
    hide Reaches;
    hide Unrepeated;
    var a, b := p.id, q.id;
    forall i | 0 <= i < |path| ensures path[i] == a <==> qath[i] == b {
      if path[i] == a {
        SameTreesCompose(g, Bare(a), h, Bare(b), h, Bare(qath[i]));
        MetAgain(h, s, qath, q, i);
      }
      if qath[i] == b {
        SameTreesFlip(g, Bare(a), h, Bare(b));
        SameTreesFlip(g, Bare(path[i]), h, Bare(b));
        SameTreesCompose(h, Bare(b), g, Bare(a), g, Bare(path[i]));
        MetAgain(g, r, path, p, i);
      }
    }
    DistanceByPosition(path, a, qath, b);
  }

  lemma SideBySideGrows(
    g: Table, r: TypeId, path: seq<TypeId>, p: QualType, h: Table, s: TypeId, qath: seq<TypeId>, q: QualType, i: nat)
    requires SideBySide(g, r, path, p, h, s, qath, q) && p.id !in path && q.id !in qath
    requires Known(g, p.id) && IsPrintable(g.types[p.id]) && Known(h, q.id) && IsPrintable(h.types[q.id])
    requires SameTrees(g, Bare(p.id), h, Bare(q.id))
    requires i < |ChildrenOf(g.types[p.id])| == |ChildrenOf(h.types[q.id])|
    ensures
      SideBySide(g, r, [p.id] + path, ChildrenOf(g.types[p.id])[i], h, s, [q.id] + qath, ChildrenOf(h.types[q.id])[i])
  {
    hide SameTrees;
    PathGrows(g, r, path, p);
    PathGrows(h, s, qath, q);
  }

  lemma {:induction false} SameTreesSameTerm(
    g: Table, r: TypeId, path: seq<TypeId>, p: QualType, h: Table, s: TypeId, qath: seq<TypeId>, q: QualType)
    requires SideBySide(g, r, path, p, h, s, qath, q) && Unrepeated(g, r) && Unrepeated(h, s)
    requires TermOf(g, p, path).Some? && SameTrees(g, p, h, q)
    ensures TermOf(h, q, qath) == TermOf(g, p, path)
    decreases Unvisited(g, path), 1, 0
  {
    hide SameTrees;
    hide SideBySide;
    hide Unrepeated;
    KnownIsPrintable(g, r, path, p, h, s, qath, q);
    BareTrees(g, p, h, q);
    AlikeDistance(g, r, path, p, h, s, qath, q);
    if Distance(path, p.id) < 0 {
      assert p.id in Unvisited(g, path) && p.id !in Unvisited(g, [p.id] + path);
      assert Unvisited(g, [p.id] + path) <= Unvisited(g, path);
      ChildTrees(g, p.id, h, q.id, 0);
      var ps, qs := ChildrenOf(g.types[p.id]), ChildrenOf(h.types[q.id]);
      forall i | 0 <= i < |ps|
        ensures SameTrees(g, ps[i], h, qs[i]) && SideBySide(g, r, [p.id] + path, ps[i], h, s, [q.id] + qath, qs[i])
      {
        ChildTrees(g, p.id, h, q.id, i);
        SideBySideGrows(g, r, path, p, h, s, qath, q, i);
      }
      SameTreesSameTerms(g, r, [p.id] + path, ps, h, s, [q.id] + qath, qs);
    }
  }

  // A type on the path was printable when it was entered, and one that is not is printable now.
  lemma KnownIsPrintable(
    g: Table, r: TypeId, path: seq<TypeId>, p: QualType, h: Table, s: TypeId, qath: seq<TypeId>, q: QualType)
    requires SideBySide(g, r, path, p, h, s, qath, q) && TermOf(g, p, path).Some?
    ensures Known(g, p.id) && IsPrintable(g.types[p.id]) && |path| == |qath|
  {
    hide SameTrees;
    hide IsPath;
  }

  lemma {:induction false} SameTreesSameTerms(
    g: Table, r: TypeId, path: seq<TypeId>, ps: seq<QualType>, h: Table, s: TypeId, qath: seq<TypeId>, qs: seq<QualType>)
    requires Unrepeated(g, r) && Unrepeated(h, s) && |ps| == |qs| && TermsOf(g, ps, path).Some?
    requires forall i :: 0 <= i < |ps| ==>
      SameTrees(g, ps[i], h, qs[i]) && SideBySide(g, r, path, ps[i], h, s, qath, qs[i])
    ensures TermsOf(h, qs, qath) == TermsOf(g, ps, path)
    decreases Unvisited(g, path), 2, |ps|
  {
    hide SameTrees;
    hide SideBySide;
    hide Unrepeated;
    if ps != [] {
      SameTreesSameTerm(g, r, path, ps[0], h, s, qath, qs[0]);
      assert forall i :: 0 <= i < |ps[1..]| ==> ps[1..][i] == ps[i + 1] && qs[1..][i] == qs[i + 1];
      SameTreesSameTerms(g, r, path, ps[1..], h, s, qath, qs[1..]);
    }
  }

  // ---------------------------------------------------------------- same terms, same repetitions

  // Equal terms have the same ways down: every path has a counterpart with the same trees. The
  // type at the inner end is printed in full on both sides, so that neither was met before.
  lemma {:induction false} Counterpart(
    g: Table, p: QualType, path: seq<TypeId>, h: Table, q: QualType) returns (qath: seq<TypeId>)
    requires TermOf(g, p, []).Some? && TermOf(g, p, []) == TermOf(h, q, [])
    requires IsPath(g, p.id, path)
    ensures IsPath(h, q.id, qath) && |qath| == |path| && Paired(g, path, h, qath)
    decreases |path|
  {
    hide TermOf;
    hide Paired;
    hide Reaches;
    if path == [] {
      qath := [];
      NothingPaired(g, h);
    } else {
      var puter := Counterpart(g, p, path[1..], h, q);
      var a: QualType :| a.id == path[0] && Reaches(g, p.id, path[1..], a);
      qath := CounterpartGrows(g, p, path[1..], a, h, q, puter);
      assert path == [path[0]] + path[1..];
    }
  }

  lemma CounterpartGrows(
    g: Table, p: QualType, path: seq<TypeId>, a: QualType, h: Table, q: QualType, qath: seq<TypeId>)
    returns (longer: seq<TypeId>)
    requires TermOf(g, p, []).Some? && TermOf(g, p, []) == TermOf(h, q, []) && |path| == |qath|
    requires Paired(g, path, h, qath) && IsPath(h, q.id, qath)
    requires Reaches(g, p.id, path, a) && a.id !in path
    ensures IsPath(h, q.id, longer) && |longer| == |path| + 1 && Paired(g, [a.id] + path, h, longer)
  {
    hide NodeOf;
    hide Paired;
    hide IsPath;
    hide TermOf;
    var c := if path == [] then p else a;
    assert Reaches(g, p.id, path, c) && c.id == a.id;
    var b := CounterpartUse(g, p, path, c, h, q, qath);
    RefsAreRefs(g, c, path);
    RefsAreRefs(h, b, qath);
    NodesHaveTerms(h, b.id, qath);
    PathGrows(h, q.id, qath, b);
    PairedGrows(g, c.id, path, h, b.id, qath);
    longer := [b.id] + qath;
  }

  lemma NothingPaired(g: Table, h: Table)
    ensures Paired(g, [], h, [])
  {}

  // What is used at the inner end of a path has a counterpart with the same term.
  lemma CounterpartUse(
    g: Table, p: QualType, path: seq<TypeId>, a: QualType, h: Table, q: QualType, qath: seq<TypeId>)
    returns (b: QualType)
    requires TermOf(g, p, []).Some? && TermOf(g, p, []) == TermOf(h, q, []) && |path| == |qath|
    requires Paired(g, path, h, qath) && Reaches(g, p.id, path, a) && (path == [] ==> a == p)
    ensures Reaches(h, q.id, qath, b)
    ensures TermOf(g, a, path).Some? && TermOf(g, a, path) == TermOf(h, b, qath)
  {
    hide NodeOf;
    if path == [] {
      b := q;
    } else {
      PairedAt(g, path, h, qath, 0);
      var x, y := path[0], qath[0];
      assert [x] + path[1..] == path && [y] + qath[1..] == qath;
      var ps, qs := ChildrenOf(g.types[x]), ChildrenOf(h.types[y]);
      NodesHaveTerms(g, x, path[1..]);
      NodesHaveTerms(h, y, qath[1..]);
      var ts, us := TermsOf(g, ps, path).value, TermsOf(h, qs, qath).value;
      BuildInjective(LabelOf(g.layout, g.types[x]), LabelOf(h.layout, h.types[y]), ts, us);
      var i :| 0 <= i < |ps| && ps[i] == a;
      b := qs[i];
      TermsOfAt(g, ps, path, i);
      TermsOfAt(h, qs, qath, i);
    }
  }

  // Whether trees repeat can be told from the signature.
  lemma EqualSignaturesRepeatAlike(g: Table, p: QualType, h: Table, q: QualType)
    requires SoundTable(g) && SoundUse(g, p) && SoundTable(h) && SoundUse(h, q)
    requires Signature(g, p).Some? && Signature(g, p) == Signature(h, q)
    ensures Unrepeated(g, p.id) <==> Unrepeated(h, q.id)
  {
    hide Unrepeated;
    TermIsPlain(g, p, []);
    TermIsPlain(h, q, []);
    SignatureDecoding.TextDeterminesTerm(TermOf(g, p, []).value, TermOf(h, q, []).value);
    if Unrepeated(h, q.id) {
      UnrepeatedCarries(g, p, h, q);
    }
    if Unrepeated(g, p.id) {
      UnrepeatedCarries(h, q, g, p);
    }
  }

  lemma UnrepeatedCarries(g: Table, p: QualType, h: Table, q: QualType)
    requires TermOf(g, p, []).Some? && TermOf(g, p, []) == TermOf(h, q, []) && Unrepeated(h, q.id)
    ensures Unrepeated(g, p.id)
  {
    hide SameTrees;
    hide IsPath;
    forall path, i: nat, j: nat | IsPath(g, p.id, path) && i < j < |path|
      ensures !SameTrees(g, Bare(path[i]), g, Bare(path[j]))
    {
      var qath := Counterpart(g, p, path, h, q);
      if SameTrees(g, Bare(path[i]), g, Bare(path[j])) {
        PairedTrees(g, path, h, qath, i);
        PairedTrees(g, path, h, qath, j);
        SameTreesCompose(g, Bare(path[i]), g, Bare(path[j]), h, Bare(qath[i]));
        SameTreesCompose(g, Bare(path[j]), h, Bare(qath[i]), h, Bare(qath[j]));
      }
    }
  }

  lemma PairedTrees(g: Table, path: seq<TypeId>, h: Table, qath: seq<TypeId>, i: nat)
    requires |path| == |qath| && Paired(g, path, h, qath) && i < |path|
    ensures SameTrees(g, Bare(path[i]), h, Bare(qath[i]))
  {
    hide Paired;
    hide NodeOf;
    PairedAt(g, path, h, qath, i);
    PairedTail(g, path, h, qath, i + 1);
    forall depth: nat ensures Unfold(g, Bare(path[i]), depth) == Unfold(h, Bare(qath[i]), depth) {
      if depth > 0 {
        SameNodeSameTree(g, path[i], path[i + 1..], h, qath[i], qath[i + 1..], depth);
      }
    }
  }

  // ---------------------------------------------------------------- exactly when signatures are complete

  // Where no trees repeat, the signature is a complete invariant: it is the same exactly for types
  // that unfold to the same trees.
  lemma SignatureIsComplete(g: Table, p: QualType, h: Table, q: QualType)
    requires SoundTable(g) && SoundUse(g, p) && SoundTable(h) && SoundUse(h, q)
    requires Unrepeated(g, p.id) && Unrepeated(h, q.id) && Signature(g, p).Some?
    ensures Signature(h, q) == Signature(g, p) <==> SameTrees(g, p, h, q)
  {
    hide Unrepeated;
    if Signature(h, q) == Signature(g, p) {
      forall depth: nat ensures Unfold(g, p, depth) == Unfold(h, q, depth) {
        EqualSignaturesEqualUnfoldings(g, p, h, q, depth);
      }
    }
    if SameTrees(g, p, h, q) {
      SameTreesSameTerm(g, p.id, [], p, h, q.id, [], q);
    }
  }

  // A type in which trees repeat has another signature than every type with the same trees in which
  // they do not.
  lemma SameTreesSameSignatureIff(g: Table, p: QualType, h: Table, q: QualType)
    requires SoundTable(g) && SoundUse(g, p) && SoundTable(h) && SoundUse(h, q)
    requires SameTrees(g, p, h, q) && Unrepeated(h, q.id) && Signature(g, p).Some?
    ensures Signature(g, p) == Signature(h, q) <==> Unrepeated(g, p.id)
  {
    hide Unrepeated;
    hide SameTrees;
    if Unrepeated(g, p.id) {
      SignatureIsComplete(g, p, h, q);
    }
    if Signature(g, p) == Signature(h, q) {
      EqualSignaturesRepeatAlike(g, p, h, q);
    }
  }

  // No two types of the table unfold alike.
  ghost predicate Reduced(g: Table) {
    forall a, b | Known(g, a) && Known(g, b) && SameTrees(g, Bare(a), g, Bare(b)) :: a == b
  }

  // In a table without duplicates no trees repeat.
  lemma ReducedIsUnrepeated(g: Table, root: TypeId)
    requires Reduced(g)
    ensures Unrepeated(g, root)
  {
    hide SameTrees;
    forall path, i: nat, j: nat | IsPath(g, root, path) && i < j < |path|
      ensures !SameTrees(g, Bare(path[i]), g, Bare(path[j]))
    {
      PathIsKnown(g, root, path, i);
      PathIsKnown(g, root, path, j);
      PathHasNoDoubles(g, root, path, i, j);
    }
  }

  lemma {:induction false} PathIsKnown(g: Table, root: TypeId, path: seq<TypeId>, i: nat)
    requires IsPath(g, root, path) && i < |path|
    ensures Known(g, path[i])
  {
    if i > 0 {
      PathIsKnown(g, root, path[1..], i - 1);
    }
  }

  // ---------------------------------------------------------------- a structure declared again

  const S_RECORD :=
    RecordType(true, "S", Some(RecordDecl(false, true, [MemberDecl("p", 0, false, 0, 0, Bare(2))])))

  // `struct S; typedef struct S *P; struct S { P p; };` and, in an inner scope, `struct S { P p; };`.
  const REDECLARED := Table(map[1 := S_RECORD, 2 := PointerType(Bare(1)), 3 := S_RECORD], HOST)

  lemma OneChild(g: Table, id: TypeId, path: seq<TypeId>, to: TypeId, t: Term)
    requires Known(g, id) && id !in path && IsPrintable(g.types[id]) && ChildrenOf(g.types[id]) == [Bare(to)]
    requires TermOf(g, Bare(to), [id] + path) == Some(t)
    ensures Fits(LabelOf(g.layout, g.types[id]), 1)
    ensures TermOf(g, Bare(id), path) == Some(Term("", Build(LabelOf(g.layout, g.types[id]), [t])))
  {
    hide LabelOf;
    hide Build;
    LabelFits(g.layout, g.types[id]);
    assert [Bare(to)][1..] == [];
    assert TermsOf(g, [], [id] + path) == Some([]);
    assert [t] + [] == [t];
    assert TermsOf(g, [Bare(to)], [id] + path) == Some([t]);
    assert QualifierText(UNQUALIFIED) == "";
  }

  lemma RedeclaredShapes()
    ensures IsPrintable(S_RECORD) && IsPrintable(PointerType(Bare(1)))
    ensures ChildrenOf(S_RECORD) == [Bare(2)] && ChildrenOf(PointerType(Bare(1))) == [Bare(1)]
    ensures LabelOf(HOST, PointerType(Bare(1))) == PointerLabel && LabelOf(HOST, S_RECORD).TaggedLabel?
  {
    var ms := S_RECORD.decl.value.members;
    assert ms[1..] == [] && MemberTypes(ms[1..]) == [];
    assert [Bare(2)] + [] == [Bare(2)];
  }

  // The terms of the two structures: only the inner one is met again.
  lemma RedeclaredTerms()
    ensures TermOf(REDECLARED, Bare(1), []).Some? && TermOf(REDECLARED, Bare(3), []).Some?
    ensures TermOf(REDECLARED, Bare(1), []) != TermOf(REDECLARED, Bare(3), [])
  {
    hide LabelOf;
    hide Build;
    hide TermsOf;
    RedeclaredShapes();
    var l, ref := LabelOf(HOST, S_RECORD), Term("", LeafNode(Ref(1)));
    assert QualifierText(UNQUALIFIED) == "";
    RedeclaredPaths();
    OneChild(REDECLARED, 2, [1], 1, ref);
    var x := Term("", Build(PointerLabel, [ref]));
    OneChild(REDECLARED, 1, [], 2, x);
    OneChild(REDECLARED, 1, [2, 3], 2, ref);
    var inner := Term("", Build(l, [ref]));
    OneChild(REDECLARED, 2, [3], 1, inner);
    var y := Term("", Build(PointerLabel, [inner]));
    OneChild(REDECLARED, 3, [], 2, y);
    if Build(l, [x]) == Build(l, [y]) {
      BuildInjective(l, l, [x], [y]);
      assert [x][0] == [y][0];
      BuildInjective(PointerLabel, PointerLabel, [ref], [inner]);
      assert [ref][0] == [inner][0];
      BuiltIsTagged(l, [ref]);
    }
  }

  lemma BuiltIsTagged(l: Label, ts: seq<Term>)
    requires l.TaggedLabel? && Fits(l, |ts|)
    ensures Build(l, ts).Tagged?
  {}

  lemma RedeclaredPaths()
    ensures [2] + [1] == [2, 1] && [1] + [] == [1] && [3] + [] == [3] && [2] + [3] == [2, 3] && [1] + [2, 3] == [1, 2, 3]
    ensures Distance([2, 1], 1) == 1 && Distance([1, 2, 3], 2) == 1
  {
    assert [2, 1][1..] == [1] && [1, 2, 3][1..] == [2, 3];
  }

  lemma RedeclaredTrees()
    ensures SameTrees(REDECLARED, Bare(1), REDECLARED, Bare(3))
  {
    forall depth: nat ensures Unfold(REDECLARED, Bare(1), depth) == Unfold(REDECLARED, Bare(3), depth) {}
  }

  // The two structures have the same trees and different signatures; on the way from the second one
  // down a tree repeats.
  lemma RedeclaredStructuresDiffer()
    ensures SameTrees(REDECLARED, Bare(1), REDECLARED, Bare(3))
    ensures Signature(REDECLARED, Bare(1)).Some? && Signature(REDECLARED, Bare(3)).Some?
    ensures Signature(REDECLARED, Bare(1)) != Signature(REDECLARED, Bare(3))
    ensures IsPath(REDECLARED, 3, [1, 2, 3]) && !Unrepeated(REDECLARED, 3) && Unrepeated(REDECLARED, 1)
  {
    hide SameTrees;
    hide TermOf;
    RedeclaredTrees();
    RedeclaredTerms();
    RedeclaredIsSound();
    TermIsPlain(REDECLARED, Bare(1), []);
    TermIsPlain(REDECLARED, Bare(3), []);
    SignatureDecoding.TextDeterminesTerm(TermOf(REDECLARED, Bare(1), []).value, TermOf(REDECLARED, Bare(3), []).value);
    RedeclaredPath();
    OuterIsUnrepeated();
    assert [1, 2, 3][0] == 1 && [1, 2, 3][2] == 3;
  }

  lemma RedeclaredIsSound()
    ensures SoundTable(REDECLARED) && SoundUse(REDECLARED, Bare(1)) && SoundUse(REDECLARED, Bare(3))
  {}

  lemma RedeclaredPath()
    ensures IsPath(REDECLARED, 3, [1, 2, 3])
  {
    RedeclaredShapes();
    RedeclaredPaths();
    hide IsPrintable;
    hide ChildrenOf;
    assert IsPath(REDECLARED, 3, []);
    PathGrows(REDECLARED, 3, [], Bare(3));
    PathGrows(REDECLARED, 3, [3], Bare(2));
    PathGrows(REDECLARED, 3, [2, 3], Bare(1));
  }

  lemma {:induction false} OuterPath(path: seq<TypeId>, i: nat)
    requires IsPath(REDECLARED, 1, path) && i < |path|
    ensures path[i] in {1, 2}
    decreases |path|
  {
    if i > 0 {
      OuterPath(path[1..], i - 1);
    } else if |path| > 1 {
      OuterPath(path[1..], 0);
      RedeclaredShapes();
    }
  }

  lemma OuterIsUnrepeated()
    ensures Unrepeated(REDECLARED, 1)
  {
    hide SameTrees;
    hide IsPath;
    RedeclaredShapes();
    hide LabelOf;
    hide IsPrintable;
    hide ChildrenOf;
    forall path, i: nat, j: nat | IsPath(REDECLARED, 1, path) && i < j < |path|
      ensures !SameTrees(REDECLARED, Bare(path[i]), REDECLARED, Bare(path[j]))
    {
      OuterPath(path, i);
      OuterPath(path, j);
      PathHasNoDoubles(REDECLARED, 1, path, i, j);
      if SameTrees(REDECLARED, Bare(path[i]), REDECLARED, Bare(path[j])) {
        ChildTrees(REDECLARED, path[i], REDECLARED, path[j], 0);
      }
    }
  }
}
