/**
 From offsets in the normalized text back to offsets in the original source.
 */
module OffsetMap {
  import opened Options
  import opened Phases

  // ---------------------------------------------------------------- cutting a source between elements

  // `o` lies between two elements of `s`.
  predicate Between(s: string, o: nat, tri: bool)
    decreases |s|
  {
    o == 0 || (s != "" && Width(s, tri) <= o && Between(s[Width(s, tri)..], o - Width(s, tri), tri))
  }

  lemma {:induction false} BetweenInside(s: string, o: nat, tri: bool)
    requires Between(s, o, tri)
    ensures o <= |s|
    decreases |s|
  {
    hide SpliceSize;
    hide PhaseOneWidth;
    if o > 0 {
      BetweenInside(s[Width(s, tri)..], o - Width(s, tri), tri);
    }
  }

  lemma {:induction false} CutBetween(s: string, o: nat, tri: bool)
    requires Between(s, o, tri)
    ensures o <= |s| && Normalize(s, tri) == Normalize(s[..o], tri) + Normalize(s[o..], tri)
    decreases |s|
  {
    hide SpliceSize;
    hide PhaseOneWidth;
    hide Text;
    hide Width;
    hide Normalize;
    BetweenInside(s, o, tri);
    NormalizeStep(s[..o], tri);
    if o == 0 {
      assert s[..o] == "" && s[o..] == s;
    } else {
      var w := Width(s, tri);
      NormalizeStep(s, tri);
      CutBetween(s[w..], o - w, tri);
      ElementOfPrefix(s, o, tri);
      assert s[..o][w..] == s[w..][..o - w];
      DropDrop(s, w, o);
    }
  }

  // ---------------------------------------------------------------- the map

  // An offset further on, or -1 for none.
  function Shift(o: int, delta: nat): int {
    if o < 0 then -1 else o + delta
  }

  // Where the normalized offset `k` of `s` is in `s`, -1 if `s` has no such offset. `after` skips
  // removed bytes in front of it.
  function Locate(s: string, k: nat, after: bool, tri: bool): (o: int)
    ensures -1 <= o <= |s|
    decreases |s|
  {
    if s == "" then if k == 0 then 0 else -1
    else if SpliceSize(s, 0, tri) > 0 then
      if k == 0 && !after then 0
      else Shift(Locate(s[Width(s, tri)..], k, after, tri), Width(s, tri))
    else if k == 0 then 0
    else Shift(Locate(s[Width(s, tri)..], k - 1, after, tri), Width(s, tri))
  }

  lemma DropDrop(s: string, w: nat, o: nat)
    requires w <= o <= |s|
    ensures s[w..][o - w..] == s[o..]
  {}

  // One round of the scan, at an offset of the source.
  lemma LocateStep(s: string, at: nat, k: nat, after: bool, tri: bool)
    requires at <= |s|
    ensures at == |s| ==> Locate(s[at..], k, after, tri) == if k == 0 then 0 else -1
    ensures at < |s| ==>
      var w := SpliceSize(s, at, tri);
      if w > 0 then
        Locate(s[at..], k, after, tri) == if k == 0 && !after then 0 else Shift(Locate(s[at + w..], k, after, tri), w)
      else
        0 < PhaseOneWidth(s, at, tri) <= |s| - at
        && Locate(s[at..], k, after, tri) ==
             if k == 0 then 0
             else Shift(Locate(s[at + PhaseOneWidth(s, at, tri)..], k - 1, after, tri), PhaseOneWidth(s, at, tri))
  {
    hide SpliceSize;
    hide PhaseOneWidth;
    SpliceShift(s, at, tri);
    if at < |s| {
      DropDrop(s, at, at + Width(s[at..], tri));
    }
  }

  method OriginalOffset(s: string, k: nat, after: bool, tri: bool) returns (o: int)
    ensures o == Locate(s, k, after, tri)
  {
    hide SpliceSize;
    hide PhaseOneWidth;
    hide Locate;
    var original, normalized := 0, 0;
    assert s[0..] == s;
    while original < |s|
      invariant original <= |s| && normalized <= k
      invariant Locate(s, k, after, tri) == Shift(Locate(s[original..], k - normalized, after, tri), original)
    {
      LocateStep(s, original, k - normalized, after, tri);
      var spliceSize := SpliceSize(s, original, tri);
      if spliceSize > 0 {
        if normalized == k && !after {
          return original;
        }
        original := original + spliceSize;
      } else {
        if normalized == k {
          return original;
        }
        original := original + PhaseOneWidth(s, original, tri);
        normalized := normalized + 1;
      }
    }
    LocateStep(s, original, k - normalized, after, tri);
    o := if normalized != k then -1 else original;
  }

  // The map is a right inverse of the two phases: the original in front of the offset normalizes
  // to exactly the normalized text in front of it, and likewise behind; only offsets past the
  // end of the normalized text have no original.
  lemma {:induction false} LocateIsRightInverse(s: string, k: nat, after: bool, tri: bool)
    ensures Locate(s, k, after, tri) >= 0 <==> k <= |Normalize(s, tri)|
    ensures Locate(s, k, after, tri) >= 0 ==>
      var o, n := Locate(s, k, after, tri), Normalize(s, tri);
      Between(s, o, tri) && Normalize(s[..o], tri) == n[..k] && Normalize(s[o..], tri) == n[k..]
  {
    hide SpliceSize;
    hide PhaseOneWidth;
    hide Normalize;
    hide Locate;
    hide Between;
    LocateCuts(s, k, after, tri);
    if Locate(s, k, after, tri) >= 0 {
      var o := Locate(s, k, after, tri);
      CutBetween(s, o, tri);
      assert |Normalize(s[..o], tri)| == k;
    }
  }

  lemma {:induction false} LocateCuts(s: string, k: nat, after: bool, tri: bool)
    ensures Locate(s, k, after, tri) >= 0 <==> k <= |Normalize(s, tri)|
    ensures Locate(s, k, after, tri) >= 0 ==>
      var o := Locate(s, k, after, tri);
      && Between(s, o, tri)
      && |Normalize(s[o..], tri)| == |Normalize(s, tri)| - k
    decreases |s|
  {
    hide SpliceSize;
    hide PhaseOneWidth;
    hide Normalize;
    hide Text;
    hide Width;
    NormalizeStep(s, tri);
    assert s[0..] == s;
    if s != "" {
      var w := Width(s, tri);
      var k' := if SpliceSize(s, 0, tri) > 0 || k == 0 then k else k - 1;
      LocateCuts(s[w..], k', after, tri);
      if Locate(s, k, after, tri) > 0 {
        var o := Locate(s, k, after, tri);
        DropDrop(s, w, o);
      }
    }
  }

  // `after` picks the last place between elements with that many normalized bytes in front,
  // its absence the first.
  lemma {:induction false} LocateIsExtreme(s: string, k: nat, p: nat, tri: bool)
    requires Between(s, p, tri) && p <= |s| && |Normalize(s[..p], tri)| == k
    ensures 0 <= Locate(s, k, false, tri) <= p <= Locate(s, k, true, tri)
    decreases |s|
  {
    hide SpliceSize;
    hide PhaseOneWidth;
    hide Normalize;
    hide Text;
    hide Width;
    LocateCuts(s, k, false, tri);
    LocateCuts(s, k, true, tri);
    CutBetween(s, p, tri);
    NormalizeStep(s[..p], tri);
    NormalizeStep(s, tri);
    if p > 0 {
      var w := Width(s, tri);
      ElementOfPrefix(s, p, tri);
      assert s[..p][w..] == s[w..][..p - w];
      BetweenInside(s[w..], p - w, tri);
      LocateIsExtreme(s[w..], k - |Text(s, tri)|, p - w, tri);
    }
  }

  // One round of the scan, at the front of a text.
  lemma LocateHead(s: string, k: nat, after: bool, tri: bool)
    requires s != ""
    ensures
      var w, rest := Width(s, tri), s[Width(s, tri)..];
      Locate(s, k, after, tri) ==
        if SpliceSize(s, 0, tri) > 0 then if k == 0 && !after then 0 else Shift(Locate(rest, k, after, tri), w)
        else if k == 0 then 0
        else Shift(Locate(rest, k - 1, after, tri), w)
  {}

  lemma LocateInNothing(k: nat, after: bool, tri: bool)
    ensures Locate("", k, after, tri) == if k == 0 then 0 else -1
  {}

  // The offset of a later normalized byte is the offset, from there, of the distance.
  lemma {:induction false} LocateFrom(s: string, a: nat, b: nat, after: bool, tri: bool)
    requires a < b && Locate(s, a, true, tri) >= 0
    ensures var o := Locate(s, a, true, tri);
      Locate(s, b, after, tri) == Shift(Locate(s[o..], b - a, after, tri), o)
    decreases |s|
  {
    hide Locate;
    hide SpliceSize;
    hide Width;
    var o := Locate(s, a, true, tri);
    assert s[0..] == s;
    if s == "" {
      LocateInNothing(a, true, tri);
    } else {
      LocateHead(s, a, true, tri);
    }
    if o > 0 {
      LocateHead(s, b, after, tri);
      var w, spliced := Width(s, tri), SpliceSize(s, 0, tri) > 0;
      LocateFrom(s[w..], if spliced then a else a - 1, if spliced then b else b - 1, after, tri);
      DropDrop(s, w, o);
    }
  }

  // `after` never stops in front of a splice.
  lemma {:induction false} NotAtSplice(s: string, a: nat, tri: bool)
    requires Locate(s, a, true, tri) >= 0
    ensures SpliceSize(s[Locate(s, a, true, tri)..], 0, tri) == 0
    decreases |s|
  {
    hide SpliceSize;
    hide PhaseOneWidth;
    var o := Locate(s, a, true, tri);
    if o > 0 {
      var w := Width(s, tri);
      NotAtSplice(s[w..], if SpliceSize(s, 0, tri) > 0 then a else a - 1, tri);
      DropDrop(s, w, o);
    } else {
      assert s[0..] == s;
      NothingToSplice(s, tri);
    }
  }

  lemma NothingToSplice(s: string, tri: bool)
    ensures s == "" ==> SpliceSize(s, 0, tri) == 0
  {}

  lemma StrictlyMonotone(s: string, a: nat, b: nat, first: bool, second: bool, tri: bool)
    requires a < b <= |Normalize(s, tri)|
    ensures 0 <= Locate(s, a, first, tri) < Locate(s, b, second, tri)
  {
    hide SpliceSize;
    hide PhaseOneWidth;
    hide Normalize;
    hide Locate;
    hide Between;
    LocateIsRightInverse(s, a, first, tri);
    LocateIsRightInverse(s, b, second, tri);
    LocateIsRightInverse(s, a, true, tri);
    LocateIsExtreme(s, a, Locate(s, a, first, tri), tri);
    LocateFrom(s, a, b, second, tri);
    var o := Locate(s, a, true, tri);
    NotAtSplice(s, a, tri);
    LocateIsPositive(s[o..], b - a, second, tri);
  }

  lemma LocateIsPositive(s: string, k: nat, after: bool, tri: bool)
    requires k > 0 && Locate(s, k, after, tri) >= 0
    ensures Locate(s, k, after, tri) > 0
  {}

  // ---------------------------------------------------------------- ranges

  datatype Range = Range(start: nat, end: nat)

  // The slow path: the start behind removed bytes, the end in front of them.
  function LocateRange(s: string, a: nat, b: nat, tri: bool): Option<Range>
    requires a <= b
  {
    var first := Locate(s, a, true, tri);
    if first < 0 then None
    else if a == b then Some(Range(first, first))
    else
      var last := Locate(s, b, false, tri);
      if last < 0 then None else Some(Range(first, last))
  }

  // The original range normalizes to exactly the normalized range, is empty only if that is, and
  // no range between elements that stands for the same bytes is tighter.
  lemma RangeNormalizesBack(s: string, a: nat, b: nat, tri: bool)
    requires a <= b
    ensures LocateRange(s, a, b, tri).Some? <==> b <= |Normalize(s, tri)|
    ensures LocateRange(s, a, b, tri).Some? ==>
      var r := LocateRange(s, a, b, tri).value;
      && r.start <= r.end <= |s|
      && (a < b ==> r.start < r.end)
      && Normalize(s[r.start..r.end], tri) == Normalize(s, tri)[a..b]
      && forall p: nat, q: nat | p <= q <= |s| && Between(s, p, tri) && Between(s, q, tri)
           && |Normalize(s[..p], tri)| == a && |Normalize(s[..q], tri)| == b && a < b
           :: p <= r.start && r.end <= q
  {
    hide SpliceSize;
    hide PhaseOneWidth;
    hide Locate;
    hide Between;
    LocateIsRightInverse(s, a, true, tri);
    LocateIsRightInverse(s, b, false, tri);
    if LocateRange(s, a, b, tri).Some? && a < b {
      var r := LocateRange(s, a, b, tri).value;
      StrictlyMonotone(s, a, b, true, false, tri);
      LocateFrom(s, a, b, false, tri);
      CutOut(s, r.start, r.end, a, b, tri);
      forall p: nat, q: nat | p <= q <= |s| && Between(s, p, tri) && Between(s, q, tri)
        && |Normalize(s[..p], tri)| == a && |Normalize(s[..q], tri)| == b
        ensures p <= r.start && r.end <= q
      {
        LocateIsExtreme(s, a, p, tri);
        LocateIsExtreme(s, b, q, tri);
      }
    } else if LocateRange(s, a, b, tri).Some? {
      assert s[..0] == "" && Normalize("", tri) == "";
    }
  }

  // What stands between two mapped offsets.
  lemma CutOut(s: string, from: nat, to: nat, a: nat, b: nat, tri: bool)
    requires a <= b <= |Normalize(s, tri)| && from <= to <= |s|
    requires Normalize(s[from..], tri) == Normalize(s, tri)[a..]
    requires Locate(s[from..], b - a, false, tri) == to - from
    ensures Normalize(s[from..to], tri) == Normalize(s, tri)[a..b]
  {
    hide Normalize;
    hide Locate;
    hide Between;
    var rest := s[from..];
    LocateIsRightInverse(rest, b - a, false, tri);
    assert rest[..to - from] == s[from..to];
    assert Normalize(s, tri)[a..][..b - a] == Normalize(s, tri)[a..b];
  }

  // Every range that is found, an empty one as well, stands where it belongs: what is in front of it
  // and behind it normalizes to what is in front and behind in the normalized text. An empty one is
  // behind everything that is removed there.
  lemma RangeIsPlaced(s: string, a: nat, b: nat, tri: bool)
    requires a <= b && LocateRange(s, a, b, tri).Some?
    ensures
      var r, n := LocateRange(s, a, b, tri).value, Normalize(s, tri);
      && b <= |n| && r.end <= |s|
      && Between(s, r.start, tri) && Between(s, r.end, tri)
      && Normalize(s[..r.start], tri) == n[..a]
      && Normalize(s[r.end..], tri) == n[b..]
      && (a == b ==> r.start == r.end)
      && (a == b ==> forall p: nat | p <= |s| && Between(s, p, tri) && |Normalize(s[..p], tri)| == a :: p <= r.start)
  {
    hide SpliceSize;
    hide PhaseOneWidth;
    hide Locate;
    hide Between;
    hide Normalize;
    RangeNormalizesBack(s, a, b, tri);
    LocateIsRightInverse(s, a, true, tri);
    LocateIsRightInverse(s, b, false, tri);
    if a == b {
      forall p: nat | p <= |s| && Between(s, p, tri) && |Normalize(s[..p], tri)| == a ensures p <= Locate(s, a, true, tri) {
        LocateIsExtreme(s, a, p, tri);
      }
    }
  }

  // ---------------------------------------------------------------- the fast path

  // There is something in `s` that phases 1 and 2 would change.
  function Changes(s: string, tri: bool): bool
    decreases |s|
  {
    s != "" && (Width(s, tri) > 1 || Changes(s[1..], tri))
  }

  method SourceNeedsOffsetMapping(s: string, tri: bool) returns (needs: bool)
    ensures needs == Changes(s, tri)
  {
    var cursor := 0;
    assert s[0..] == s;
    while cursor < |s|
      invariant cursor <= |s|
      invariant Changes(s, tri) == Changes(s[cursor..], tri)
    {
      SpliceShift(s, cursor, tri);
      assert s[cursor..][1..] == s[cursor + 1..];
      if SpliceSize(s, cursor, tri) > 0 {
        return true;
      }
      var width := PhaseOneWidth(s, cursor, tri);
      if width > 1 {
        return true;
      }
      cursor := cursor + width;
    }
    needs := false;
  }

  lemma {:induction false} NormalizeShrinks(s: string, tri: bool)
    ensures |Normalize(s, tri)| <= |s|
    ensures Changes(s, tri) ==> |Normalize(s, tri)| < |s|
    ensures !Changes(s, tri) ==> Normalize(s, tri) == s
    decreases |s|
  {
    hide Normalize;
    hide SpliceSize;
    hide PhaseOneWidth;
    NormalizeStep(s, tri);
    if s != "" {
      var w := Width(s, tri);
      NormalizeShrinks(s[w..], tri);
    }
  }

  // The scan answers yes exactly for the sources whose normalized text differs.
  lemma NeedsMappingIffChanged(s: string, tri: bool)
    ensures Changes(s, tri) <==> Normalize(s, tri) != s
  {
    NormalizeShrinks(s, tri);
  }

  lemma {:induction false} IdentityWhenUnchanged(s: string, k: nat, after: bool, tri: bool)
    requires !Changes(s, tri)
    ensures Locate(s, k, after, tri) == if k <= |s| then k else -1
    decreases |s|
  {
    if s != "" && k > 0 {
      IdentityWhenUnchanged(s[1..], k - 1, after, tri);
    }
  }

  // analysis_original_range once the source is found. `sameText` says that the declaration was
  // read from the very buffer of the original, `primary` that this is the source under analysis.
  method OriginalRange(s: string, sameText: bool, primary: bool, needsMapping: bool, a: nat, b: nat, tri: bool)
    returns (r: Option<Range>)
    requires primary ==> needsMapping == Changes(s, tri)
    ensures b < a ==> r.None?
    ensures a <= b && sameText ==> r == if b <= |s| then Some(Range(a, b)) else None
    ensures a <= b && !sameText ==> r == LocateRange(s, a, b, tri)
  {
    if b < a {
      return None;
    }
    if sameText || (primary && !needsMapping) {
      if !sameText {
        IdentityWhenUnchanged(s, a, true, tri);
        IdentityWhenUnchanged(s, b, false, tri);
      }
      if b > |s| {
        return None;
      }
      return Some(Range(a, b));
    }
    var first := OriginalOffset(s, a, true, tri);
    if first < 0 {
      return None;
    }
    if a == b {
      return Some(Range(first, first));
    }
    var last := OriginalOffset(s, b, false, tri);
    r := if last < 0 then None else Some(Range(first, last));
  }
}
