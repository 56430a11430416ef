/** The data layouts of the two shipped targets: sizes and alignments of scalars. */
module TargetInfo {
  const INT_MAX := 0x7FFF_FFFF

  type CInt = x: int | -0x8000_0000 <= x <= 0x7FFF_FFFF

  datatype ScalarKind =
    | CharScalar | ShortScalar | IntScalar | LongScalar | LongLongScalar
    | FloatScalar | DoubleScalar | LongDoubleScalar
    | FloatComplexScalar | DoubleComplexScalar | LongDoubleComplexScalar

  datatype Scalar = Scalar(size: CInt, alignment: CInt)

  datatype DataLayout = DataLayout(
    pointerSize: CInt,
    pointerAlignment: CInt,
    atomicPromotedMaxSize: CInt,
    atomicMaxAlignment: CInt,
    scalars: map<ScalarKind, Scalar>)

  const STANDARD_SCALARS := map[
    CharScalar := Scalar(1, 1),
    ShortScalar := Scalar(2, 2),
    IntScalar := Scalar(4, 4),
    LongScalar := Scalar(8, 8),
    LongLongScalar := Scalar(8, 8),
    FloatScalar := Scalar(4, 4),
    DoubleScalar := Scalar(8, 8),
    LongDoubleScalar := Scalar(8, 8),
    FloatComplexScalar := Scalar(8, 8),
    DoubleComplexScalar := Scalar(16, 8),
    LongDoubleComplexScalar := Scalar(16, 8)]

  const HOST := DataLayout(8, 8, 16, 16, STANDARD_SCALARS)

  const WASM32 := DataLayout(4, 4, 16, 8, STANDARD_SCALARS)

  // ag_data_layout_scalar_size and _alignment: 0 for a kind without a positive entry.
  function ScalarSize(layout: DataLayout, kind: ScalarKind): (n: nat) {
    if kind in layout.scalars && layout.scalars[kind].size > 0 then layout.scalars[kind].size else 0
  }

  function ScalarAlignment(layout: DataLayout, kind: ScalarKind): (n: nat) {
    if kind in layout.scalars && layout.scalars[kind].alignment > 0 then layout.scalars[kind].alignment else 0
  }

  predicate IsValidLayout(layout: DataLayout) {
    && layout.pointerSize > 0
    && layout.pointerAlignment > 0
    && layout.atomicPromotedMaxSize > 0
    && 0 < layout.atomicMaxAlignment <= layout.atomicPromotedMaxSize
    && forall kind: ScalarKind :: ScalarSize(layout, kind) > 0 && ScalarAlignment(layout, kind) > 0
  }
}
