/**
 Which types have a signature: those from which no way down the table leads to a type that is not in
 it or that cannot be told.
 */
module SignatureFailures {
  import opened Faces
  import opened Options
  import opened Repetitions
  import opened Signatures
  import opened TypeGraph

  // The use of a type that is not in the table; a floating type of no kind; a record with a member whose
  // alignment specifier is no flag, or whose alignment is negative or set without one.
  predicate IsBroken(g: Table, q: QualType) {
    q.id == 0 || q.id !in g.types ||
    match g.types[q.id]
    case FloatingType(floating, _) => floating == NoFloatingKind
    case RecordType(_, _, Some(decl)) =>
      exists i :: 0 <= i < |decl.members| && !IsSoundMember(decl.members[i])
    case _ => false
  }

  predicate IsSoundMember(m: MemberDecl) {
    if m.hasAlignmentSpecifier == 0 then m.requestedAlignment == 0
    else m.hasAlignmentSpecifier == 1 && m.requestedAlignment >= 0
  }

  lemma BrokenIff(g: Table, q: QualType)
    ensures IsBroken(g, q) <==> !Known(g, q.id) || !IsPrintable(g.types[q.id])
  {
    if Known(g, q.id) && g.types[q.id].RecordType? && g.types[q.id].decl.Some? {
      var ms := g.types[q.id].decl.value.members;
      forall m: MemberDecl ensures IsSoundMember(m) <==> IsWellFormedMember(m) {}
      if m :| m in ms && !IsWellFormedMember(m) {
        var i :| 0 <= i < |ms| && ms[i] == m;
        assert !IsSoundMember(ms[i]);
      }
    }
  }

  // What is used at the inner end of a path of printed types is printed there.
  lemma {:induction false} UsedIsPrinted(g: Table, p: QualType, path: seq<TypeId>, q: QualType)
    requires TermOf(g, p, []).Some? && IsPath(g, p.id, path) && Reaches(g, p.id, path, q) && (path == [] ==> q == p)
    ensures TermOf(g, q, path).Some?
    decreases |path|
  {
    hide NodeOf;
    if path != [] {
      var outer, a := path[1..], path[0];
      var use: QualType := p;
      if outer != [] {
        use :| use.id == a && Reaches(g, p.id, outer, use);
      }
      UsedIsPrinted(g, p, outer, use);
      assert path == [a] + outer;
      PrintedChildren(g, use, outer, q);
    }
  }

  lemma PrintedChildren(g: Table, use: QualType, outer: seq<TypeId>, q: QualType)
    requires TermOf(g, use, outer).Some? && use.id !in outer && Known(g, use.id) && q in ChildrenOf(g.types[use.id])
    ensures TermOf(g, q, [use.id] + outer).Some?
  {
    var qs := ChildrenOf(g.types[use.id]);
    var i :| 0 <= i < |qs| && qs[i] == q;
    assert TermsOf(g, qs, [use.id] + outer).Some?;
    TermsOfAt(g, qs, [use.id] + outer, i);
  }

  // Where no term is found, the way to what is broken.
  lemma {:induction false} BrokenIsFound(g: Table, root: TypeId, path: seq<TypeId>, q: QualType)
    returns (longer: seq<TypeId>, c: QualType)
    requires IsPath(g, root, path) && Reaches(g, root, path, q) && TermOf(g, q, path).None?
    ensures IsPath(g, root, longer) && Reaches(g, root, longer, c) && IsBroken(g, c) && (longer == [] ==> path == [] && c == q)
    decreases Unvisited(g, path), 1, 0
  {
    BrokenIff(g, q);
    if IsBroken(g, q) {
      longer, c := path, q;
    } else {
      assert Distance(path, q.id) < 0;
      assert q.id in Unvisited(g, path) && q.id !in Unvisited(g, [q.id] + path);
      assert Unvisited(g, [q.id] + path) <= Unvisited(g, path);
      PathGrows(g, root, path, q);
      longer, c := BrokenAmong(g, root, [q.id] + path, ChildrenOf(g.types[q.id]));
    }
  }

  lemma {:induction false} BrokenAmong(g: Table, root: TypeId, path: seq<TypeId>, qs: seq<QualType>)
    returns (longer: seq<TypeId>, c: QualType)
    requires path != [] && IsPath(g, root, path) && TermsOf(g, qs, path).None?
    requires forall q <- qs :: Reaches(g, root, path, q)
    ensures IsPath(g, root, longer) && Reaches(g, root, longer, c) && IsBroken(g, c) && longer != []
    decreases Unvisited(g, path), 2, |qs|
  {
    hide IsBroken;
    if TermOf(g, qs[0], path).None? {
      longer, c := BrokenIsFound(g, root, path, qs[0]);
    } else {
      longer, c := BrokenAmong(g, root, path, qs[1..]);
    }
  }

  // A type has a signature exactly when nothing is broken that is used at the end of a way down from it.
  lemma SignatureIff(g: Table, q: QualType)
    ensures Signature(g, q).Some? <==>
      !IsBroken(g, q) && forall path, c | path != [] && IsPath(g, q.id, path) && Reaches(g, q.id, path, c) :: !IsBroken(g, c)
  {
    hide IsBroken;
    hide IsPath;
    hide Reaches;
    Beginning(g, q);
    if TermOf(g, q, []).None? {
      var path, c := BrokenIsFound(g, q.id, [], q);
    } else {
      PrintedIsSound(g, q, []);
      forall path, c | path != [] && IsPath(g, q.id, path) && Reaches(g, q.id, path, c) ensures !IsBroken(g, c) {
        UsedIsPrinted(g, q, path, c);
        PathIsSound(g, q, path, c);
      }
    }
  }

  lemma Beginning(g: Table, q: QualType)
    ensures IsPath(g, q.id, []) && Reaches(g, q.id, [], q)
  {}

  lemma PrintedIsSound(g: Table, q: QualType, path: seq<TypeId>)
    requires TermOf(g, q, path).Some? && q.id !in path
    ensures !IsBroken(g, q)
  {
    BrokenIff(g, q);
  }

  // A type on a path was printable when the path came to it.
  lemma {:induction false} OnPathIsPrintable(g: Table, root: TypeId, path: seq<TypeId>, id: TypeId)
    requires IsPath(g, root, path) && id in path
    ensures Known(g, id) && IsPrintable(g.types[id])
    decreases |path|
  {
    if path[0] != id {
      OnPathIsPrintable(g, root, path[1..], id);
    }
  }

  lemma PathIsSound(g: Table, q: QualType, path: seq<TypeId>, c: QualType)
    requires IsPath(g, q.id, path) && TermOf(g, c, path).Some?
    ensures !IsBroken(g, c)
  {
    BrokenIff(g, c);
    if c.id in path {
      OnPathIsPrintable(g, q.id, path, c.id);
    }
  }
}
