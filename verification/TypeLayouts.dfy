/**
 Sizes and alignments of types: scalars and pointers from the target's data layout, records from
 their completed layouts, arrays as products, atomic types promoted to a power of two.
 */
module TypeLayouts {
  import opened Options
  import opened TargetInfo
  import opened TypeGraph

  type Size = x: int | 0 <= x <= 0x7FFF_FFFF

  datatype Layout = Layout(size: Size, alignment: Size, isComplete: bool)

  const INCOMPLETE := Layout(0, 1, false)

  // ---------------------------------------------------------------- powers of two

  predicate IsPowerOfTwo(n: int) {
    n == 1 || (n > 1 && n % 2 == 0 && IsPowerOfTwo(n / 2))
  }

  // The first of p, 2p, 4p, ... that is not below n.
  function Doubled(p: nat, n: nat): (m: nat)
    requires p > 0
    ensures m >= n && m >= p && (m > p ==> m < 2 * n)
    decreases n - p
  {
    if p >= n then p else Doubled(2 * p, n)
  }

  lemma {:induction false} NextPower(p: int, q: int)
    requires IsPowerOfTwo(p) && IsPowerOfTwo(q) && p < q
    ensures 2 * p <= q && q % p == 0
    decreases q
  {
    if p > 1 {
      NextPower(p / 2, q / 2);
      assert q == 2 * (q / 2) && p == 2 * (p / 2);
      DoubleDivides(q / 2, p / 2);
    }
  }

  lemma DoubleDivides(x: nat, y: nat)
    requires y > 0 && x % y == 0
    ensures (2 * x) % (2 * y) == 0
  {
    var k := x / y;
    assert x == k * y;
    assert 2 * x == k * (2 * y);
    MultipleDivides(k, 2 * y);
  }

  lemma MultipleDivides(k: nat, m: nat)
    requires m > 0
    ensures k * m % m == 0
  {
    var q, r := k * m / m, k * m % m;
    assert k * m == q * m + r;
    assert (k - q) * m == r;
    if k > q {
      AtLeastOnce(k - q, m);
    } else if k < q {
      AtLeastOnce(q - k, m);
    }
  }

  lemma AtLeastOnce(k: nat, m: nat)
    requires k > 0
    ensures k * m >= m
  {
  }

  lemma TwiceIsPower(p: nat)
    requires IsPowerOfTwo(p)
    ensures p > 0 && IsPowerOfTwo(2 * p)
  {}

  // Doubling from one gives the least power of two that is not below n.
  lemma {:induction false} DoubledIsLeast(p: nat, n: nat, q: int)
    requires IsPowerOfTwo(p) && IsPowerOfTwo(q) && n <= q && p <= q
    ensures IsPowerOfTwo(Doubled(p, n)) && Doubled(p, n) <= q
    decreases n - p
  {
    hide IsPowerOfTwo;
    if p < n {
      TwiceIsPower(p);
      NextPower(p, q);
      DoubledIsLeast(2 * p, n, q);
    }
  }

  lemma {:induction false} DoubledIsPower(p: nat, n: nat)
    requires IsPowerOfTwo(p)
    ensures IsPowerOfTwo(Doubled(p, n))
    decreases n - p
  {
    hide IsPowerOfTwo;
    if p < n {
      TwiceIsPower(p);
      DoubledIsPower(2 * p, n);
    }
  }

  // ---------------------------------------------------------------- one type

  function ScalarLayout(layout: DataLayout, s: Shape): Layout {
    match s
    case BoolType => KindLayout(layout, CharScalar)
    case IntegerType(kind, _, _, _) =>
      (match kind
       case CharKind => KindLayout(layout, CharScalar)
       case ShortKind => KindLayout(layout, ShortScalar)
       case IntKind => KindLayout(layout, IntScalar)
       case EnumKind => KindLayout(layout, IntScalar)
       case LongKind => KindLayout(layout, LongScalar)
       case LongLongKind => KindLayout(layout, LongLongScalar)
       case _ => INCOMPLETE)
    case FloatingType(kind, isComplex) => KindLayout(layout, FloatingScalar(kind, isComplex))
    case _ => INCOMPLETE
  }

  function Positive(n: CInt): Size {
    if n > 0 then n else 0
  }

  function KindLayout(layout: DataLayout, kind: ScalarKind): Layout {
    Layout(ScalarSize(layout, kind), ScalarAlignment(layout, kind), true)
  }

  // A type that is no array; a record without a completed layout is incomplete.
  function PlainLayout(g: Table, records: map<TypeId, Layout>, id: TypeId): Layout
    requires id in g.types
  {
    match g.types[id]
    case PointerType(_) => Layout(Positive(g.layout.pointerSize), Positive(g.layout.pointerAlignment), true)
    case RecordType(_, _, _) => if id in records then Layout(records[id].size, records[id].alignment, true) else INCOMPLETE
    case _ => ScalarLayout(g.layout, g.types[id])
  }

  // What `_Atomic` makes of a layout.
  function AtomicLayout(layout: DataLayout, l: Layout): Option<Layout> {
    if !l.isComplete || l.size <= 0 || layout.atomicPromotedMaxSize <= 0 || layout.atomicMaxAlignment <= 0 then None
    else if l.size > layout.atomicPromotedMaxSize then Some(l)
    else if Doubled(1, l.size) > layout.atomicPromotedMaxSize then None
    else
      var promoted: int := Doubled(1, l.size);
      var atomic := if promoted < layout.atomicMaxAlignment then promoted else layout.atomicMaxAlignment;
      Some(Layout(promoted, if atomic > l.alignment then atomic else l.alignment, l.isComplete))
  }

  function ArrayLayout(length: CInt, isVla: bool, element: Layout): Option<Layout> {
    if !element.isComplete || isVla || length <= 0 then Some(Layout(0, element.alignment, false))
    else if length * element.size > INT_MAX then None
    else Some(Layout(length * element.size, element.alignment, true))
  }

  // The layout of a type, none where the type is unknown, atomic without being a complete object
  // type other than an array, or too large.
  ghost function LayoutOf(g: Table, rank: TypeId -> nat, records: map<TypeId, Layout>, q: QualType): Option<Layout>
    requires Ranked(g, rank)
    decreases rank(q.id)
  {
    if !Known(g, q.id) then None
    else
      match g.types[q.id]
      case ArrayType(length, isVla, element) =>
        var e := LayoutOf(g, rank, records, element);
        if q.quals.isAtomic || e.None? then None else ArrayLayout(length, isVla, e.value)
      case _ =>
        if q.quals.isAtomic then AtomicLayout(g.layout, PlainLayout(g, records, q.id)) else Some(PlainLayout(g, records, q.id))
  }

  // ---------------------------------------------------------------- the code

  // apply_atomic_layout
  method ApplyAtomic(isAtomic: bool, layout: DataLayout, l: Layout) returns (r: Option<Layout>)
    ensures r == if isAtomic then AtomicLayout(layout, l) else Some(l)
  {
    if !isAtomic {
      return Some(l);
    }
    if !l.isComplete || l.size <= 0 {
      return None;
    }
    var promotedMax, maxAlignment := Positive(layout.atomicPromotedMaxSize), Positive(layout.atomicMaxAlignment);
    if promotedMax <= 0 || maxAlignment <= 0 {
      return None;
    }
    if l.size > promotedMax {
      return Some(l);
    }
    var promoted := 1;
    while promoted < l.size
      invariant 0 < promoted <= promotedMax && Doubled(promoted, l.size) == Doubled(1, l.size)
      decreases l.size - promoted
    {
      if promoted > promotedMax / 2 {
        return None;
      }
      promoted := promoted * 2;
    }
    var atomic := if promoted < maxAlignment then promoted else maxAlignment;
    r := Some(Layout(promoted, if atomic > l.alignment then atomic else l.alignment, l.isComplete));
  }

  // complete_array_layout
  method CompleteArray(length: CInt, isVla: bool, element: Layout) returns (r: Option<Layout>)
    ensures r == ArrayLayout(length, isVla, element)
  {
    if !element.isComplete || isVla || length <= 0 {
      return Some(Layout(0, element.alignment, false));
    }
    if element.size > 0 {
      QuotientBound(length, element.size);
      if length > INT_MAX / element.size {
        return None;
      }
    }
    r := Some(Layout(length * element.size, element.alignment, true));
  }

  lemma QuotientBound(n: nat, m: nat)
    requires m > 0
    ensures n > INT_MAX / m <==> n * m > INT_MAX
  {
    var q := INT_MAX / m;
    assert INT_MAX == q * m + INT_MAX % m;
    if n > q {
      assert n * m == (n - q) * m + q * m;
      assert (n - q - 1) * m + m == (n - q) * m;
      AtLeastZero(n - q - 1, m);
    } else {
      assert q * m == (q - n) * m + n * m;
      AtLeastZero(q - n, m);
    }
  }

  lemma AtLeastZero(k: nat, m: nat)
    ensures k * m >= 0
  {}

  // layout_of_qual_type_recursive
  method LayoutOfType(g: Table, ghost rank: TypeId -> nat, records: map<TypeId, Layout>,
      q: QualType) returns (r: Option<Layout>)
    requires Ranked(g, rank)
    ensures r == LayoutOf(g, rank, records, q)
    decreases rank(q.id)
  {
    if !Known(g, q.id) {
      return None;
    }
    var s := g.types[q.id];
    if !s.ArrayType? {
      r := ApplyAtomic(q.quals.isAtomic, g.layout, PlainLayout(g, records, q.id));
      return;
    }
    if q.quals.isAtomic {
      return None;
    }
    var element := LayoutOfType(g, rank, records, s.element);
    if element.None? {
      return None;
    }
    r := CompleteArray(s.length, s.isVla, element.value);
  }

  // psx_qual_type_layout_sizeof: 0 for an incomplete type as well.
  method SizeOf(g: Table, isLayoutValid: bool, ghost rank: TypeId -> nat, records: map<TypeId, Layout>,
      q: QualType) returns (n: int)
    requires Ranked(g, rank) && (isLayoutValid <==> IsValidLayout(g.layout))
    ensures
      var l := LayoutOf(g, rank, records, q);
      n == if isLayoutValid && l.Some? && l.value.isComplete then l.value.size else 0
  {
    if !isLayoutValid {
      return 0;
    }
    var l := LayoutOfType(g, rank, records, q);
    n := if l.Some? && l.value.isComplete then l.value.size else 0;
  }

  // ---------------------------------------------------------------- alignment

  // A complete layout has a power of two as alignment, and its size is a multiple of it.
  predicate IsAligned(l: Layout) {
    l.isComplete ==> IsPowerOfTwo(l.alignment) && l.size % l.alignment == 0
  }

  predicate IsShipped(layout: DataLayout) {
    layout == HOST || layout == WASM32
  }

  lemma SmallPowers()
    ensures IsPowerOfTwo(1) && IsPowerOfTwo(2) && IsPowerOfTwo(4) && IsPowerOfTwo(8) && IsPowerOfTwo(16)
  {
    assert IsPowerOfTwo(2) && IsPowerOfTwo(4);
    assert IsPowerOfTwo(8);
  }

  lemma KindsAreAligned(layout: DataLayout, kind: ScalarKind)
    requires IsShipped(layout)
    ensures IsAligned(KindLayout(layout, kind))
  {
    SmallPowers();
  }

  lemma PlainIsAligned(g: Table, records: map<TypeId, Layout>, id: TypeId)
    requires IsShipped(g.layout) && id in g.types
    requires forall r <- records :: IsAligned(records[r].(isComplete := true))
    ensures IsAligned(PlainLayout(g, records, id))
  {
    hide KindLayout;
    hide IsShipped;
    SmallPowers();
    match g.types[id] {
      case PointerType(_) => ShippedPointers(g.layout);
      case RecordType(_, _, _) =>
      case BoolType => KindsAreAligned(g.layout, CharScalar);
      case IntegerType(kind, _, _, _) =>
        KindsAreAligned(g.layout, CharScalar);
        KindsAreAligned(g.layout, ShortScalar);
        KindsAreAligned(g.layout, IntScalar);
        KindsAreAligned(g.layout, LongScalar);
        KindsAreAligned(g.layout, LongLongScalar);
      case FloatingType(kind, isComplex) => KindsAreAligned(g.layout, FloatingScalar(kind, isComplex));
      case _ =>
    }
  }

  lemma ShippedPointers(layout: DataLayout)
    requires IsShipped(layout)
    ensures layout.pointerSize == layout.pointerAlignment && (layout.pointerSize == 4 || layout.pointerSize == 8)
  {}

  // Promotion to the least power of two that is not below the size; the alignment follows up to
  // the target's limit. On the shipped targets nothing up to the largest promoted size fails.
  lemma AtomicIsLeastPower(layout: DataLayout, l: Layout)
    requires IsShipped(layout) && l.isComplete && l.size > 0 && IsAligned(l)
    ensures
      var a := AtomicLayout(layout, l);
      a.Some? && a.value.isComplete && IsAligned(a.value) &&
      (l.size <= 16 ==>
        IsPowerOfTwo(a.value.size) && l.size <= a.value.size &&
        (forall q: int :: IsPowerOfTwo(q) && l.size <= q ==> a.value.size <= q)) &&
      (l.size > 16 ==> a.value == l) &&
      a.value.alignment >= l.alignment
  {
    hide IsPowerOfTwo;
    hide Doubled;
    ShippedAtomics(layout);
    if l.size <= 16 {
      var p := Doubled(1, l.size);
      SmallPowers();
      DoubledIsPower(1, l.size);
      DoubledIsLeast(1, l.size, 16);
      forall q: int | IsPowerOfTwo(q) && l.size <= q ensures p <= q {
        PowerIsPositive(q);
        DoubledIsLeast(1, l.size, q);
      }
      AlignmentFits(l);
      PromotedIsAligned(l.alignment, layout.atomicMaxAlignment, p);
    }
  }

  lemma PowerIsPositive(q: int)
    requires IsPowerOfTwo(q)
    ensures q >= 1
  {}

  lemma ShippedAtomics(layout: DataLayout)
    requires IsShipped(layout)
    ensures layout.atomicPromotedMaxSize == 16 && IsPowerOfTwo(layout.atomicMaxAlignment)
  {
    SmallPowers();
  }

  lemma PromotedIsAligned(alignment: int, limit: int, p: int)
    requires IsPowerOfTwo(alignment) && IsPowerOfTwo(limit) && IsPowerOfTwo(p) && alignment <= p
    ensures
      var atomic := if p < limit then p else limit;
      var a := if atomic > alignment then atomic else alignment;
      IsPowerOfTwo(a) && p % a == 0
  {
    PowersDivide(alignment, p);
    PowersDivide(limit, p);
    PowersDivide(p, p);
  }

  lemma AlignmentFits(l: Layout)
    requires l.isComplete && l.size > 0 && IsAligned(l)
    ensures l.alignment <= l.size
  {}

  lemma PowersDivide(p: int, q: int)
    requires IsPowerOfTwo(p) && IsPowerOfTwo(q)
    ensures p <= q ==> q % p == 0
  {
    if p < q {
      NextPower(p, q);
    }
  }

  lemma ArrayIsAligned(length: CInt, isVla: bool, element: Layout)
    requires IsAligned(element)
    ensures ArrayLayout(length, isVla, element).Some? ==> IsAligned(ArrayLayout(length, isVla, element).value)
  {
    if element.isComplete && length > 0 {
      var k := element.size / element.alignment;
      assert element.size == k * element.alignment;
      Regroup(length, k, element.alignment);
      MultipleDivides(length * k, element.alignment);
    }
  }

  lemma Regroup(a: nat, b: nat, c: nat)
    ensures a * (b * c) == a * b * c && a * b >= 0
  {}

  // On the shipped targets every complete layout is aligned, if those of the records are.
  lemma {:induction false} LayoutsAreAligned(g: Table, rank: TypeId -> nat, records: map<TypeId, Layout>, q: QualType)
    requires Ranked(g, rank) && IsShipped(g.layout)
    requires forall r <- records :: IsAligned(records[r].(isComplete := true))
    ensures LayoutOf(g, rank, records, q).Some? ==> IsAligned(LayoutOf(g, rank, records, q).value)
    decreases rank(q.id)
  {
    hide IsShipped;
    hide ArrayLayout;
    hide PlainLayout;
    hide IsAligned;
    hide AtomicLayout;
    if Known(g, q.id) {
      match g.types[q.id] {
        case ArrayType(length, isVla, element) =>
          LayoutsAreAligned(g, rank, records, element);
          if LayoutOf(g, rank, records, element).Some? {
            ArrayIsAligned(length, isVla, LayoutOf(g, rank, records, element).value);
          }
        case _ =>
          PlainIsAligned(g, records, q.id);
          var l := PlainLayout(g, records, q.id);
          AtomicNeedsObject(g.layout, l);
          if l.isComplete && l.size > 0 {
            AtomicIsLeastPower(g.layout, l);
          }
      }
    }
  }

  lemma AtomicNeedsObject(layout: DataLayout, l: Layout)
    ensures AtomicLayout(layout, l).Some? ==> l.isComplete && l.size > 0
  {}

  // ---------------------------------------------------------------- nested arrays

  // Every array down the chain has a length.
  ghost predicate IsFixed(g: Table, rank: TypeId -> nat, q: QualType)
    requires Ranked(g, rank)
    decreases rank(q.id)
  {
    Known(g, q.id) && g.types[q.id].ArrayType? ==>
      !g.types[q.id].isVla && g.types[q.id].length > 0 && !q.quals.isAtomic && IsFixed(g, rank, g.types[q.id].element)
  }

  // The number of innermost elements.
  ghost function ElementCount(g: Table, rank: TypeId -> nat, q: QualType): (n: nat)
    requires Ranked(g, rank) && IsFixed(g, rank, q)
    ensures n > 0
    decreases rank(q.id)
  {
    if Known(g, q.id) && g.types[q.id].ArrayType? then g.types[q.id].length * ElementCount(g, rank, g.types[q.id].element) else 1
  }

  ghost function Innermost(g: Table, rank: TypeId -> nat, q: QualType): QualType
    requires Ranked(g, rank)
    decreases rank(q.id)
  {
    if Known(g, q.id) && g.types[q.id].ArrayType? then Innermost(g, rank, g.types[q.id].element) else q
  }

  // The size of nested arrays is the exact product of all lengths and the element's size, and there
  // is no layout exactly when that is more than an int holds.
  lemma {:induction false} ArraySizeIsProduct(g: Table, rank: TypeId -> nat, records: map<TypeId, Layout>, q: QualType)
    requires Ranked(g, rank) && IsFixed(g, rank, q)
    requires
      var l := LayoutOf(g, rank, records, Innermost(g, rank, q));
      l.Some? && l.value.isComplete
    ensures
      var l := LayoutOf(g, rank, records, Innermost(g, rank, q)).value;
      LayoutOf(g, rank, records, q) ==
        if ElementCount(g, rank, q) * l.size <= INT_MAX then
          Some(Layout(ElementCount(g, rank, q) * l.size, l.alignment, true))
        else None
    decreases rank(q.id)
  {
    if Known(g, q.id) && g.types[q.id].ArrayType? {
      var s := g.types[q.id];
      var l := LayoutOf(g, rank, records, Innermost(g, rank, q)).value;
      var n := ElementCount(g, rank, s.element);
      ArraySizeIsProduct(g, rank, records, s.element);
      Regroup(s.length, n, l.size);
      AtLeastOnce(s.length, n * l.size);
    }
  }

  // Nothing but such an array is complete.
  lemma {:induction false} CompleteArraysAreFixed(g: Table, rank: TypeId -> nat, records: map<TypeId, Layout>,
      q: QualType)
    requires Ranked(g, rank)
    requires LayoutOf(g, rank, records, q).Some? && LayoutOf(g, rank, records, q).value.isComplete
    ensures IsFixed(g, rank, q)
    ensures
      var l := LayoutOf(g, rank, records, Innermost(g, rank, q));
      l.Some? && l.value.isComplete
    decreases rank(q.id)
  {
    if g.types[q.id].ArrayType? {
      CompleteArraysAreFixed(g, rank, records, g.types[q.id].element);
    }
  }

  // ---------------------------------------------------------------- what the layouts are

  function Smaller(m: int, n: int): int {
    if m < n then m else n
  }

  function Larger(m: int, n: int): int {
    if m < n then n else m
  }

  // `_Atomic` promotes a size to the least power of two that holds it, and raises the alignment to the
  // promoted size as far as the target allows; larger sizes than the target promotes stay.
  lemma AtomicLayoutIs(layout: DataLayout, l: Layout, p: nat)
    requires IsPowerOfTwo(p) && l.size <= p && forall q: nat | IsPowerOfTwo(q) && l.size <= q :: p <= q
    ensures AtomicLayout(layout, l) ==
      if !l.isComplete || l.size == 0 || layout.atomicPromotedMaxSize <= 0 || layout.atomicMaxAlignment <= 0 then None
      else if l.size > layout.atomicPromotedMaxSize then Some(l)
      else if p > layout.atomicPromotedMaxSize then None
      else Some(Layout(p, Larger(l.alignment, Smaller(p, layout.atomicMaxAlignment)), true))
  {
    hide IsPowerOfTwo;
    OneIsPower();
    PowerIsPositive(p);
    DoubledIsPower(1, l.size);
    DoubledIsLeast(1, l.size, p);
    var d: nat := Doubled(1, l.size);
    assert IsPowerOfTwo(d) && p <= d;
  }

  lemma OneIsPower()
    ensures IsPowerOfTwo(1)
  {}

  // Sizes and alignments of the scalars on both targets.
  lemma ScalarLayouts(layout: DataLayout, kind: IntegerKind, isUnsigned: bool, isPlainChar: bool, tag: string)
    requires layout == HOST || layout == WASM32
    ensures
      var l := ScalarLayout(layout, IntegerType(kind, isUnsigned, isPlainChar, tag));
      match kind
      case CharKind => l == Layout(1, 1, true)
      case ShortKind => l == Layout(2, 2, true)
      case IntKind => l == Layout(4, 4, true)
      case EnumKind => l == Layout(4, 4, true)
      case LongKind => l == Layout(8, 8, true)
      case LongLongKind => l == Layout(8, 8, true)
      case _ => !l.isComplete
    ensures ScalarLayout(layout, BoolType) == Layout(1, 1, true) && !ScalarLayout(layout, VoidType).isComplete
  {}

  lemma FloatingLayouts(layout: DataLayout, kind: FloatingKind, isComplex: bool)
    requires layout == HOST || layout == WASM32
    ensures
      var l := ScalarLayout(layout, FloatingType(kind, isComplex));
      match kind
      case FloatKind => l == if isComplex then Layout(8, 8, true) else Layout(4, 4, true)
      case _ => l == Layout(if isComplex then 16 else 8, 8, true)
  {
    StandardScalars(layout);
    hide ScalarSize;
    hide ScalarAlignment;
  }

  lemma StandardScalars(layout: DataLayout)
    requires layout == HOST || layout == WASM32
    ensures KindLayout(layout, FloatScalar) == Layout(4, 4, true) && KindLayout(layout, FloatComplexScalar) == Layout(8, 8, true)
    ensures KindLayout(layout, DoubleScalar) == Layout(8, 8, true) && KindLayout(layout, DoubleComplexScalar) == Layout(16, 8, true)
    ensures KindLayout(layout, LongDoubleScalar) == Layout(8, 8, true)
    ensures KindLayout(layout, LongDoubleComplexScalar) == Layout(16, 8, true)
  {}

  lemma PointerLayouts(g: Table, records: map<TypeId, Layout>, id: TypeId)
    requires id in g.types && g.types[id].PointerType?
    ensures g.layout == HOST ==> PlainLayout(g, records, id) == Layout(8, 8, true)
    ensures g.layout == WASM32 ==> PlainLayout(g, records, id) == Layout(4, 4, true)
  {}

  // What qualifiers do to a layout: only `_Atomic` does anything, and an array cannot be atomic.
  lemma QualifiedLayout(g: Table, rank: TypeId -> nat, records: map<TypeId, Layout>, q: QualType)
    requires Ranked(g, rank)
    ensures
      var plain := LayoutOf(g, rank, records, QualType(q.id, UNQUALIFIED));
      LayoutOf(g, rank, records, q) ==
      if !q.quals.isAtomic then plain
      else if plain.None? || g.types[q.id].ArrayType? then None
      else AtomicLayout(g.layout, plain.value)
  {
    hide AtomicLayout;
    hide PlainLayout;
    hide ArrayLayout;
  }
}
