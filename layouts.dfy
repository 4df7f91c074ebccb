/** The three mdspan layout mappings the demos rely on, with the offset formulas
    of C++23 (ISO/IEC 14882:2024), [mdspan.layout.right], [mdspan.layout.left]
    and [mdspan.layout.stride]: a multi-index (slowest extent first) maps to
    the sum of its components times the layout's strides. */
module Layouts {
  import RowMajor
  import DivMod

  datatype Mapping =
    | LayoutRight(ext: seq<nat>)
    | LayoutLeft(ext: seq<nat>)
    | LayoutStride(ext: seq<nat>, strides: seq<nat>)

  /** A stride mapping carries one stride per extent. */
  predicate WellFormed(m: Mapping)
  {
    m.LayoutStride? ==> |m.strides| == |m.ext|
  }

  /** layout_right: the product of the extents right of k; layout_left: the
      product of the extents left of k; layout_stride: the given strides. */
  function Strides(m: Mapping): (s: seq<nat>)
    requires WellFormed(m)
    ensures |s| == |m.ext|
  {
    match m
    case LayoutRight(ext) => seq(|ext|, k requires 0 <= k < |ext| => RowMajor.Prod(ext[k + 1..]))
    case LayoutLeft(ext) => seq(|ext|, k requires 0 <= k < |ext| => RowMajor.Prod(ext[..k]))
    case LayoutStride(_, strides) => strides
  }

  /** Sum of idx[k] * strides[k] over the dimensions k >= p. */
  function DotFrom(idx: seq<nat>, strides: seq<nat>, p: nat): nat
    requires |idx| == |strides| && p <= |idx|
    decreases |idx| - p
  {
    if p == |idx| then 0 else idx[p] * strides[p] + DotFrom(idx, strides, p + 1)
  }

  /** mapping(idx): the buffer offset of a multi-index. */
  function MapIndex(m: Mapping, idx: seq<nat>): nat
    requires WellFormed(m) && |idx| == |m.ext|
  {
    DotFrom(idx, Strides(m), 0)
  }

  /** mdspan::size(): the number of multi-indices, zero exactly when an
      extent is zero. */
  function Size(m: Mapping): (n: nat)
    ensures n > 0 <==> RowMajor.Positive(m.ext)
  {
    RowMajor.ProdPositiveIff(m.ext);
    RowMajor.Prod(m.ext)
  }

  /** is_always_exhaustive(): layout_right and layout_left cover their buffer
      without gaps for every extent; layout_stride does not promise it. */
  predicate IsAlwaysExhaustive(m: Mapping)
  {
    !m.LayoutStride?
  }

  /** Strides that are the products of the extents to their right turn the
      dot product into the row-major offset. */
  lemma {:induction false} RightDotIsOffset(idx: seq<nat>, ext: seq<nat>, strides: seq<nat>, p: nat)
    requires |idx| == |ext| == |strides| && p <= |ext|
    requires forall k | p <= k < |ext| :: strides[k] == RowMajor.Prod(ext[k + 1..])
    ensures DotFrom(idx, strides, p) == RowMajor.OffsetFrom(idx, ext, p)
    decreases |ext| - p
  {
    if p < |ext| {
      RightDotIsOffset(idx, ext, strides, p + 1);
    }
  }

  /** layout_right is the row-major offset: the last extent varies fastest. */
  lemma RightIsRowMajor(ext: seq<nat>, idx: seq<nat>)
    requires |idx| == |ext|
    ensures MapIndex(LayoutRight(ext), idx) == RowMajor.Offset(idx, ext)
  {
    RightDotIsOffset(idx, ext, Strides(LayoutRight(ext)), 0);
  }

  /** layout_right maps the in-bounds multi-indices one-to-one onto
      0 .. size - 1, and the multi-index of an offset is its digits. */
  lemma RightIsExhaustive(ext: seq<nat>, idx: seq<nat>)
    requires RowMajor.InBounds(idx, ext)
    ensures MapIndex(LayoutRight(ext), idx) < Size(LayoutRight(ext))
    ensures RowMajor.Positive(ext) ==> RowMajor.Digits(MapIndex(LayoutRight(ext), idx), ext) == idx
  {
    RightIsRowMajor(ext, idx);
    RowMajor.OffsetBound(idx, ext);
    if RowMajor.Positive(ext) {
      RowMajor.DigitsOfOffset(idx, ext);
    }
  }

  /** The two-dimensional offsets: layout_right puts (y, x) at y * X + x,
      layout_left at x * Y + y, layout_stride at y * s0 + x * s1. */
  lemma Offsets2D(ySize: nat, xSize: nat, y: nat, x: nat, s0: nat, s1: nat)
    ensures MapIndex(LayoutRight([ySize, xSize]), [y, x]) == y * xSize + x
    ensures MapIndex(LayoutLeft([ySize, xSize]), [y, x]) == x * ySize + y
    ensures MapIndex(LayoutStride([ySize, xSize], [s0, s1]), [y, x]) == y * s0 + x * s1
  {
    var ext := [ySize, xSize];
    assert ext[1..] == [xSize] && ext[2..] == [] && ext[..0] == [] && ext[..1] == [ySize];
    assert RowMajor.Prod([xSize]) == xSize && RowMajor.Prod([ySize]) == ySize;
    assert Strides(LayoutRight(ext)) == [xSize, 1];
    assert Strides(LayoutLeft(ext)) == [1, ySize];
    Dot2(y, x, xSize, 1);
    Dot2(y, x, 1, ySize);
    Dot2(y, x, s0, s1);
  }

  lemma Dot2(y: nat, x: nat, a: nat, b: nat)
    ensures DotFrom([y, x], [a, b], 0) == y * a + x * b
  {
    assert DotFrom([y, x], [a, b], 2) == 0;
    assert DotFrom([y, x], [a, b], 1) == x * b;
  }

  /** layout_left in two dimensions is exhaustive too: the in-bounds (y, x)
      land one-to-one on 0 .. Y * X - 1, with y = k % Y and x = k / Y. */
  lemma LeftIsExhaustive2D(ySize: nat, xSize: nat, y: nat, x: nat)
    requires y < ySize && x < xSize
    ensures MapIndex(LayoutLeft([ySize, xSize]), [y, x]) < ySize * xSize
    ensures MapIndex(LayoutLeft([ySize, xSize]), [y, x]) % ySize == y
    ensures MapIndex(LayoutLeft([ySize, xSize]), [y, x]) / ySize == x
  {
    Offsets2D(ySize, xSize, y, x, 0, 0);
    DivMod.PairBound(x, y, xSize, ySize);
    assert xSize * ySize == ySize * xSize;
    DivMod.DivModUnique(x * ySize + y, ySize, x, y);
  }

  /** A row-padded stride mapping {X + pad, 1} over extents {Y, X}: element
      (y, x) sits at y * (X + pad) + x, inside a buffer of Y * (X + pad)
      slots, in column x of its row, so it never lands on a padding slot
      (column >= X) and distinct elements land on distinct slots. */
  lemma PaddedStride2D(ySize: nat, xSize: nat, pad: nat, y: nat, x: nat)
    requires y < ySize && x < xSize
    ensures MapIndex(LayoutStride([ySize, xSize], [xSize + pad, 1]), [y, x]) == y * (xSize + pad) + x
    ensures y * (xSize + pad) + x < ySize * (xSize + pad)
    ensures (y * (xSize + pad) + x) % (xSize + pad) == x
    ensures (y * (xSize + pad) + x) / (xSize + pad) == y
  {
    Offsets2D(ySize, xSize, y, x, xSize + pad, 1);
    DivMod.PairBound(y, x, ySize, xSize + pad);
    DivMod.DivModUnique(y * (xSize + pad) + x, xSize + pad, y, x);
  }
}
