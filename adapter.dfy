/** MdSpanLinearAdapter: linear-index access to an mdspan of any rank. A
    linear index is turned into a multi-index with step sizes (the product of
    the extents right of a rank) and handed to the mdspan, whose layout
    mapping picks the buffer slot. Two algorithms compute the multi-index:
    version 1 one component at a time, version 2 as one growing tuple. */
module Adapter {
  import RowMajor
  import DivMod
  import Layouts

  /** calculate_step_size<final_rank, current_rank>: 1 for the last rank,
      otherwise extent(current) times the step with current - 1, down to
      current == final. */
  function StepSize(ext: seq<nat>, finalRank: nat, currentRank: nat): nat
    requires finalRank < |ext| && currentRank < |ext|
    decreases currentRank
  {
    if finalRank == |ext| - 1 then 1
    else if currentRank > finalRank then ext[currentRank] * StepSize(ext, finalRank, currentRank - 1)
    else 1
  }

  lemma {:induction false} StepSizeIsProduct(ext: seq<nat>, finalRank: nat, currentRank: nat)
    requires finalRank <= currentRank < |ext|
    ensures StepSize(ext, finalRank, currentRank) == RowMajor.Prod(ext[finalRank + 1..currentRank + 1])
    decreases currentRank
  {
    if finalRank == |ext| - 1 {
      assert ext[finalRank + 1..currentRank + 1] == [];
    } else if currentRank > finalRank {
      StepSizeIsProduct(ext, finalRank, currentRank - 1);
      RowMajor.ProdSliceStep(ext, finalRank + 1, currentRank);
    } else {
      assert ext[finalRank + 1..currentRank + 1] == [];
    }
  }

  /** The step of rank r: calculate_step_size<r>() with current_rank
      defaulting to rank() - 1. It is the product of the extents right of r,
      so the last rank steps by 1 and each rank by the next extent times the
      next step. */
  function Step(ext: seq<nat>, r: nat): (s: nat)
    requires r < |ext|
    ensures s == RowMajor.Prod(ext[r + 1..])
    ensures RowMajor.Positive(ext) ==> s > 0
  {
    StepSizeIsProduct(ext, r, |ext| - 1);
    assert ext[r + 1..|ext|] == ext[r + 1..];
    StepSize(ext, r, |ext| - 1)
  }

  lemma StepRecurrence(ext: seq<nat>, r: nat)
    requires r < |ext|
    ensures r == |ext| - 1 ==> Step(ext, r) == 1
    ensures r + 1 < |ext| ==> Step(ext, r) == ext[r + 1] * Step(ext, r + 1)
  {
    if r + 1 < |ext| {
      RowMajor.ProdSplit(ext, r + 1);
    }
  }

  /** calculate_extend_index_impl<current_rank, final_rank>: divide by the
      step of the current rank; at the final rank that quotient is the
      component, otherwise the index minus the whole steps goes on to the
      next rank. */
  function ExtendIndexImpl(ext: seq<nat>, currentRank: nat, finalRank: nat, index: nat): nat
    requires RowMajor.Positive(ext) && currentRank <= finalRank < |ext|
    decreases finalRank - currentRank
  {
    var stepSize := Step(ext, currentRank);
    var extendIndex := index / stepSize;
    if currentRank == finalRank then
      extendIndex
    else
      ExtendIndexImpl(ext, currentRank + 1, finalRank, DivMod.Remainder(index, stepSize))
  }

  /** calculate_extend_index<final_rank>: component final_rank of the
      multi-index of `index` (version 1). */
  function ExtendIndex(ext: seq<nat>, finalRank: nat, index: nat): nat
    requires RowMajor.Positive(ext) && finalRank < |ext|
  {
    ExtendIndexImpl(ext, 0, finalRank, index)
  }

  /** The multi-index version 1 hands to the mdspan: one
      calculate_extend_index<I> per rank I. */
  function MultiIndexV1(ext: seq<nat>, index: nat): (idx: seq<nat>)
    requires RowMajor.Positive(ext)
    ensures |idx| == |ext|
  {
    seq(|ext|, r requires 0 <= r < |ext| => ExtendIndex(ext, r, index))
  }

  /** calculate_extend_index_impl_v2<current_rank>(index, before): append
      index / step to the tuple and go on with the remainder, until the last
      rank. */
  function ExtendIndexImplV2(ext: seq<nat>, currentRank: nat, index: nat, before: seq<nat>): (idx: seq<nat>)
    requires RowMajor.Positive(ext) && currentRank < |ext|
    ensures |idx| == |before| + |ext| - currentRank
    decreases |ext| - currentRank
  {
    var stepSize := Step(ext, currentRank);
    var currentMultiIndex := index / stepSize;
    var multiIndex := before + [currentMultiIndex];
    if currentRank == |ext| - 1 then
      multiIndex
    else
      ExtendIndexImplV2(ext, currentRank + 1, DivMod.Remainder(index, stepSize), multiIndex)
  }

  /** calculate_extend_index_impl_v2(index): the rank-0 overload that starts
      the tuple (version 2). */
  function MultiIndexV2(ext: seq<nat>, index: nat): (idx: seq<nat>)
    requires RowMajor.Positive(ext) && |ext| >= 1
    ensures |idx| == |ext|
  {
    var stepSize := Step(ext, 0);
    var currentMultiIndex := index / stepSize;
    var multiIndex := [currentMultiIndex];
    if |ext| - 1 == 0 then
      multiIndex
    else
      ExtendIndexImplV2(ext, 1, DivMod.Remainder(index, stepSize), multiIndex)
  }

  /** The multi-index of the chosen IndexCalculationVersion; only 1 and 2
      exist (any other is a static_assert failure). */
  function MultiIndex(version: nat, ext: seq<nat>, index: nat): (idx: seq<nat>)
    requires version == 1 || version == 2
    requires RowMajor.Positive(ext) && |ext| >= 1
    ensures |idx| == |ext|
  {
    if version == 1 then MultiIndexV1(ext, index) else MultiIndexV2(ext, index)
  }

  /** operator[]: the buffer slot of the element the adapter returns for
      `index` -- the mdspan's layout mapping applied to the multi-index. The
      index must lie below size(): the first component is not reduced modulo
      its extent, so a larger index leaves the mdspan's bounds
      (MultiIndexV1InBoundsIff). */
  function Locate(m: Layouts.Mapping, version: nat, index: nat): nat
    requires version == 1 || version == 2
    requires Layouts.WellFormed(m) && |m.ext| >= 1 && index < Layouts.Size(m)
  {
    Layouts.MapIndex(m, MultiIndex(version, m.ext, index))
  }

  // ---------------------------------------------------------------------------
  // properties
  // ---------------------------------------------------------------------------

  /** Version 1 from rank c on, fed the index modulo the product of the
      extents from c on, yields the row-major digit of every later rank. */
  lemma {:induction false} ExtendIndexImplIsDigit(ext: seq<nat>, c: nat, f: nat, index: nat)
    requires RowMajor.Positive(ext) && c <= f < |ext|
    ensures ExtendIndexImpl(ext, c, f, index % RowMajor.Prod(ext[c..])) == RowMajor.Digit(index, ext, f)
    decreases f - c
  {
    var s := Step(ext, c);
    var j := index % RowMajor.Prod(ext[c..]);
    RowMajor.ProdSplit(ext, c);
    if c == f {
      DivMod.DivOfMod(index, s, ext[c]);
    } else {
      DivMod.ModOfMod(index, s, ext[c]);
      assert DivMod.Remainder(j, s) == index % RowMajor.Prod(ext[c + 1..]);
      ExtendIndexImplIsDigit(ext, c + 1, f, index);
    }
  }

  /** Below size(), version 1 gives the row-major multi-index: every
      component lies below its extent and sum of component * step is the
      index again. */
  lemma MultiIndexV1IsDigits(ext: seq<nat>, index: nat)
    requires RowMajor.Positive(ext) && index < RowMajor.Prod(ext)
    ensures MultiIndexV1(ext, index) == RowMajor.Digits(index, ext)
    ensures RowMajor.InBounds(MultiIndexV1(ext, index), ext)
    ensures RowMajor.Offset(MultiIndexV1(ext, index), ext) == index
  {
    assert ext[0..] == ext;
    DivMod.DivModUnique(index, RowMajor.Prod(ext), 0, index);
    forall r | 0 <= r < |ext|
      ensures MultiIndexV1(ext, index)[r] == RowMajor.Digits(index, ext)[r]
    {
      ExtendIndexImplIsDigit(ext, 0, r, index);
    }
    RowMajor.OffsetOfDigits(index, ext);
  }

  /** Version 1's multi-index is inside the extents exactly when the index
      is below size(); from size() on the first component reaches extent(0). */
  lemma MultiIndexV1InBoundsIff(ext: seq<nat>, index: nat)
    requires RowMajor.Positive(ext) && |ext| >= 1
    ensures RowMajor.InBounds(MultiIndexV1(ext, index), ext) <==> index < RowMajor.Prod(ext)
  {
    if index < RowMajor.Prod(ext) {
      MultiIndexV1IsDigits(ext, index);
    } else {
      RowMajor.ProdSplit(ext, 0);
      assert ext[0..] == ext;
      DivMod.QuotientAtLeast(index, Step(ext, 0), ext[0]);
      assert MultiIndexV1(ext, index)[0] >= ext[0];
    }
  }

  /** Version 1's components from rank c on, fed `index` at rank c. */
  function V1From(ext: seq<nat>, c: nat, index: nat): (idx: seq<int>)
    requires RowMajor.Positive(ext) && c <= |ext|
    ensures |idx| == |ext| - c
  {
    seq(|ext| - c, k requires 0 <= k < |ext| - c => ExtendIndexImpl(ext, c, c + k, index))
  }

  lemma V1FromStep(ext: seq<nat>, c: nat, index: nat)
    requires RowMajor.Positive(ext) && c < |ext| - 1
    ensures V1From(ext, c, index)
         == [index / Step(ext, c)] + V1From(ext, c + 1, DivMod.Remainder(index, Step(ext, c)))
  {
    var s := Step(ext, c);
    var rest := DivMod.Remainder(index, s);
    var a := V1From(ext, c, index);
    var b := [index / s] + V1From(ext, c + 1, rest);
    forall k | 0 <= k < |a|
      ensures a[k] == b[k]
    {
      if k > 0 {
        assert a[k] == ExtendIndexImpl(ext, c, c + k, index);
        assert b[k] == ExtendIndexImpl(ext, c + 1, c + 1 + (k - 1), rest);
      }
    }
  }

  /** Version 2 from rank c on appends exactly version 1's components from
      rank c on to the tuple built so far. */
  lemma {:induction false} ImplV2IsV1From(ext: seq<nat>, c: nat, index: nat, before: seq<nat>)
    requires RowMajor.Positive(ext) && c < |ext|
    ensures ExtendIndexImplV2(ext, c, index, before) == before + V1From(ext, c, index)
    decreases |ext| - c
  {
    var s := Step(ext, c);
    var x: nat := index / s;
    if c < |ext| - 1 {
      var rest := DivMod.Remainder(index, s);
      ImplV2IsV1From(ext, c + 1, rest, before + [x]);
      V1FromStep(ext, c, index);
    } else {
      assert V1From(ext, c, index)[0] == ExtendIndexImpl(ext, c, c, index) == x;
    }
  }

  /** The two versions compute the same multi-index for every index. */
  lemma VersionsAgree(ext: seq<nat>, index: nat)
    requires RowMajor.Positive(ext) && |ext| >= 1
    ensures MultiIndexV2(ext, index) == MultiIndexV1(ext, index)
  {
    var s := Step(ext, 0);
    var x: nat := index / s;
    if |ext| > 1 {
      var rest := DivMod.Remainder(index, s);
      ImplV2IsV1From(ext, 1, rest, [x]);
      assert MultiIndexV1(ext, index) == [x] + V1From(ext, 1, rest);
    }
  }

  /** Over layout_right the adapter lands on slot `index` itself, in either
      version: the same slot the raw offset of SimpleSpan uses. */
  lemma RightAdapterIsIdentity(ext: seq<nat>, version: nat, index: nat)
    requires version == 1 || version == 2
    requires |ext| >= 1 && index < RowMajor.Prod(ext)
    ensures Locate(Layouts.LayoutRight(ext), version, index) == index
  {
    RowMajor.ProdPositiveIff(ext);
    VersionsAgree(ext, index);
    MultiIndexV1IsDigits(ext, index);
    Layouts.RightIsRowMajor(ext, MultiIndexV1(ext, index));
  }

  /** Over the row-padded stride mapping {X + pad, 1} of extents {Y, X}, the
      adapter sends index i to row i / X, column i % X of the padded buffer. */
  lemma PaddedAdapterSlot(ySize: nat, xSize: nat, pad: nat, version: nat, index: nat)
    requires version == 1 || version == 2
    requires index < ySize * xSize
    ensures Layouts.Size(Layouts.LayoutStride([ySize, xSize], [xSize + pad, 1])) == ySize * xSize
    ensures Locate(Layouts.LayoutStride([ySize, xSize], [xSize + pad, 1]), version, index)
         == (index / xSize) * (xSize + pad) + index % xSize
  {
    var ext := [ySize, xSize];
    assert ext[1..] == [xSize] && ext[2..] == [];
    assert RowMajor.Prod([xSize]) == xSize;
    assert RowMajor.Prod(ext) == ySize * xSize;
    RowMajor.ProdPositiveIff(ext);
    VersionsAgree(ext, index);
    MultiIndexV1IsDigits(ext, index);
    var y := index / xSize;
    DivMod.QuotientBelow(index, xSize, ySize);
    DivMod.DivModUnique(y, ySize, 0, y);
    assert MultiIndexV1(ext, index) == [y, index % xSize];
    Layouts.Offsets2D(ySize, xSize, y, index % xSize, xSize + pad, 1);
  }
}
