# N-dimensional indexing and mdspan layouts in Dafny

This project models how a repository of C++ experiments maps between
N-dimensional positions and linear indices, and proves what those mappings
promise.

- **NDim prototype** (`prototypes/NDindexing/runtime.cpp`). `NDim` is a
  vector of extents or coordinates, stored with the largest dimension on the
  left. `get_linear_index` turns a position into a linear index, and
  `get_multi_index` turns a linear index back into a position. `to1D` and
  `toND` enumerate every element in each direction.
- **`MdSpanLinearAdapter`**. It gives any mdspan a linear `operator[]`. It
  splits a linear index into one coordinate per rank by dividing by the rank's
  step size, in two versions: one recursive call per rank (version 1), or one
  growing tuple (version 2).
- **The linear-index demo**. It sets every element to 1 and sums all elements.
  An exhaustive layout goes through `SimpleSpan`, which indexes the buffer
  directly; every other layout goes through the adapter. Its checks cover 4D
  iota data, the agreement of the two versions, and a row-padded
  `layout_stride` matrix whose padding must never be touched.
- **The layout demos**:
  - a 5 x 9 matrix of `Point2D` records walked through `layout_right` and
    `layout_left`;
  - the same matrix with 2 padding slots per row through `layout_stride`
    with strides {11, 1};
  - their `print2D`, which shows a flat buffer as rows.
- **The hello-mdspan demo**. It writes a running counter through a 3D
  `layout_right` view and checks that the 1D view over the same buffer reads
  element i as i.
- **The streamVector prototype**. `MyVector::merge` concatenates two vectors
  and `operator<<` chains merges. A printer writes `[a, b, c]`.

How the model is built:
- **Specifications.** Row-major order is specified once, in `RowMajor`: the
  product of the extents, the offset of a multi-index, and the digits of a
  linear index. The layout mappings of C++23 (ISO/IEC 14882:2024,
  [mdspan.layout.right], [mdspan.layout.left], [mdspan.layout.stride]) are
  specified in `Layouts`. Every operation of the source is proved against
  these.
- **Form.** Code that builds values by recursion (the adapter's
  template recursion, `NDim` as a value) is written as functions. Code that
  works by loops over buffers (the fills, the walks, the reductions, the
  printers, `to1D`/`toND`) is written as methods over `array` or `seq`, with
  loop invariants. `MyVector` is a class whose `elems` field is updated in
  place.
- **Scenarios.** The concrete demo sizes are pinned in scenario methods
  (`Demo4D`, `DemoPadded2D`, `Demo312`, ...) whose postconditions state what
  the demos print or check.

Facts about the code that shape the model:
- **No error values.** The code has asserts, or no check at all, and
  returns no error codes. The corrected `GetMultiIndex` takes any index and
  returns its row-major digits. The adapter's `Locate` requires an index
  below `size()`.
- **The inverse in `runtime.cpp`** subtracts the wrong partial products, so
  it is correct only for some shapes (see Findings). The model keeps both
  that code as written (`MultiIndexAsWritten`, `ToNDAsWritten`) and a
  corrected version (`GetMultiIndex`, `ToND`).
- **Both adapter versions** extract each coordinate by subtracting and
  dividing; version 2 only builds the result as a tuple.

## Model

| member | source | states |
|---|---|---|
| NDIndexing.NDim.At | prototypes/NDindexing/runtime.cpp:27-37 | `at(k)` counts dimensions from the right: `at(1)` is the last stored entry and `at(n)` the first |
| NDIndexing.NDim.Set | prototypes/NDindexing/runtime.cpp:27-31 | writing through the reference `at(k)` changes dimension k to the new value and leaves every other dimension as it was |
| NDIndexing.Filled | prototypes/NDindexing/runtime.cpp:18-21 | `NDim(dim, v)` has `dim` dimensions, each equal to v |
| NDIndexing.GetTotalElements | prototypes/NDindexing/runtime.cpp:43-51 | the result is the product of all extents: 1 for no extent, and positive when every extent is positive |
| NDIndexing.TimesLowDims | prototypes/NDindexing/runtime.cpp:93-98 | the inner loop multiplies x by the product of the lowest `top` extents |
| NDIndexing.GetLinearIndexImpl | prototypes/NDindexing/runtime.cpp:88-105 | the recursion from dimension c down to 1 yields the row-major offset of the position's lowest c coordinates |
| NDIndexing.GetLinearIndex | prototypes/NDindexing/runtime.cpp:107-113 | the linear index is the row-major offset of the position, and it lies below the total number of elements when the position is in bounds |
| NDIndexing.IterateOverDimImpl | prototypes/NDindexing/runtime.cpp:122-137 | the nested walk over the lowest c dimensions fills exactly Prod(lowest c extents) entries from `access_counter` on; entry k holds the position reached at step k and its linear index; nothing else in the mapping changes |
| NDIndexing.IterateOverDim | prototypes/NDindexing/runtime.cpp:139-144 | the walk over all dimensions advances the counter by the total number of elements and records every position in order |
| NDIndexing.To1D | prototypes/NDindexing/runtime.cpp:150-179 | the mapping has one entry per element; entry k holds an in-bounds position whose linear index is k and the recorded index k; so the "not enough positions" error is never raised |
| NDIndexing.EnumerationIsBijective | prototypes/NDindexing/runtime.cpp:150-179 | a mapping of that shape lists every in-bounds position exactly once, at its own linear index |
| NDIndexing.GetMultiIndexImpl | prototypes/NDindexing/runtime.cpp:212-237 | with the subtrahend over the dimensions below the previous one (corrected), the recursion yields the row-major digits of the linear index |
| NDIndexing.GetMultiIndex | prototypes/NDindexing/runtime.cpp:243-247 | the result is the digit vector of the linear index; below the total it is the in-bounds position whose linear index is the input (inverse of GetLinearIndex) |
| NDIndexing.ToND | prototypes/NDindexing/runtime.cpp:252-262 | one pair per element; pair i holds i and an in-bounds position whose linear index is i |
| NDIndexing.ToNDAsWritten | prototypes/NDindexing/runtime.cpp:252-262 | toND over the as-written get_multi_index: pair i holds i and the as-written multi-index of i; when no middle extent exceeds the lowest one, every pair holds the digit vector of i, whose linear index is i |
| NDIndexing.DemoToND | prototypes/NDindexing/runtime.cpp:281 | the demo's toND({2, 4, 3, 5}) as written pairs each of the 120 indices with its digit vector, so the printed mapping is the intended one |
| NDIndexing.StepAsWritten | prototypes/NDindexing/runtime.cpp:212-237 | the recursion exactly as written, with the 32-bit wrap of `dividend -= part`, sets only dimensions from `current` on, and each one it sets is below its extent because it is reduced modulo that extent (lines 215 and 233), whatever the subtrahend |
| NDIndexing.MultiIndexAsWritten | prototypes/NDindexing/runtime.cpp:243-247 | the as-written result has the rank of the extents, its lowest coordinate is the index modulo D1, and on every shape every coordinate is below its extent |
| NDIndexing.AsWrittenCorrectWhenSafe | prototypes/NDindexing/runtime.cpp:212-237 | the as-written recursion returns the correct digits whenever no middle extent exceeds the lowest one |
| NDIndexing.AsWrittenDemoShape | prototypes/NDindexing/runtime.cpp:281 | for the demo's extents {2, 4, 3, 5}, every index below 120 round-trips through the as-written code |
| NDIndexing.AsWrittenCounterexample | prototypes/NDindexing/runtime.cpp:221-226 | for extents {2, 3, 2}, index 8 yields [0, 1, 0], whose linear index is 2; the correct position is [1, 1, 0] |
| NDIndexing.AsWrittenUnderflow | prototypes/NDindexing/runtime.cpp:226 | for extents {5, 3, 2}, index 2 makes the subtraction wrap and yields [2, 1, 0], whose linear index is 14; the correct position is [0, 1, 0] |
| RowMajor.Digits | prototypes/NDindexing/runtime.cpp:185-191 | the documented digit formula gives an in-bounds coordinate for every dimension |
| RowMajor.OffsetBound | prototypes/NDindexing/runtime.cpp:83-86 | the documented linear-index formula maps an in-bounds position below the product of the extents |
| RowMajor.OffsetOfDigits | prototypes/NDindexing/runtime.cpp:185-198 | linear index of the digits of i is i, for i below the total (round trip, index direction) |
| RowMajor.DigitsOfOffset | prototypes/NDindexing/runtime.cpp:185-198 | digits of the linear index of an in-bounds position are that position (round trip, position direction) |
| RowMajor.OffsetInjective | prototypes/NDindexing/runtime.cpp:83-86 | two in-bounds positions with the same linear index are equal |
| RowMajor.ProdPositiveIff | prototypes/NDindexing/runtime.cpp:43-51 | the number of elements is positive exactly when every extent is |
| Layouts.Size | features/23/mdspan/linear_index/include/SimpleSpan.hpp:25 | `size()` is zero exactly when some extent is zero |
| Layouts.RightIsRowMajor | features/23/mdspan/linear_index/main.cpp:81-82 | layout_right maps a multi-index to its row-major offset, the order iota writes |
| Layouts.RightIsExhaustive | features/23/mdspan/linear_index/main.cpp:28-31 | layout_right sends every in-bounds multi-index below `size()`, and the digits of that offset give the multi-index back |
| Layouts.Offsets2D | features/23/mdspan/layouts/2Ddata.cpp:74-82 | in 2D, layout_right stores (y, x) at y*X + x, layout_left at x*Y + y, and layout_stride at y*s0 + x*s1 |
| Layouts.LeftIsExhaustive2D | features/23/mdspan/layouts/2Ddata.cpp:99-107 | layout_left stores (y, x) inside the Y*X buffer, at row y of column x (slot mod Y = y, slot div Y = x) |
| Layouts.PaddedStride2D | features/23/mdspan/layouts/2DdataPadding.cpp:71-81 | with strides {X + pad, 1}, (y, x) lands at y*(X + pad) + x, inside the Y*(X + pad) buffer, in row y and column x of the padded rows |
| Adapter.StepSizeIsProduct | features/23/mdspan/linear_index/include/MdSpanLinearAdapter.hpp:47-63 | `calculate_step_size<final, current>` is the product of the extents after `final` up to `current` |
| Adapter.Step | features/23/mdspan/linear_index/include/MdSpanLinearAdapter.hpp:7-8 | the step of rank r is the product of all later extents, positive for positive extents |
| Adapter.StepRecurrence | features/23/mdspan/linear_index/include/MdSpanLinearAdapter.hpp:7-8 | the last rank steps by 1; each rank's step is the next extent times the next step |
| Adapter.ExtendIndexImplIsDigit | features/23/mdspan/linear_index/include/MdSpanLinearAdapter.hpp:65-76 | the subtract-and-divide recursion from rank c to f yields the row-major digit of rank f |
| Adapter.MultiIndexV1 | features/23/mdspan/linear_index/include/MdSpanLinearAdapter.hpp:115-128 | version 1 hands the mdspan one coordinate per rank |
| Adapter.MultiIndexV1IsDigits | features/23/mdspan/linear_index/include/MdSpanLinearAdapter.hpp:65-76 | below `size()`, version 1 yields the row-major digits: an in-bounds multi-index whose offset is the input index |
| Adapter.MultiIndexV1InBoundsIff | features/23/mdspan/linear_index/include/MdSpanLinearAdapter.hpp:3-13 | the multi-index is in bounds exactly when the index is below the number of elements |
| Adapter.ExtendIndexImplV2 | features/23/mdspan/linear_index/include/MdSpanLinearAdapter.hpp:78-92 | each rank from c on appends exactly one coordinate to the tuple |
| Adapter.ImplV2IsV1From | features/23/mdspan/linear_index/include/MdSpanLinearAdapter.hpp:78-92 | the tuple recursion from rank c appends exactly version 1's coordinates of ranks c and on |
| Adapter.MultiIndexV2 | features/23/mdspan/linear_index/include/MdSpanLinearAdapter.hpp:94-108 | version 2 hands the mdspan one coordinate per rank |
| Adapter.VersionsAgree | features/23/mdspan/linear_index/include/MdSpanLinearAdapter.hpp:78-108 | versions 1 and 2 produce the same multi-index for every index and every extents (the demo's comparison, for all inputs) |
| Adapter.MultiIndex | features/23/mdspan/linear_index/include/MdSpanLinearAdapter.hpp:153-175 | `operator[]` of either version indexes the mdspan with one coordinate per rank |
| Adapter.RightAdapterIsIdentity | features/23/mdspan/linear_index/include/MdSpanLinearAdapter.hpp:150-163 | over layout_right, adapter element i is buffer slot i, in both versions |
| Adapter.PaddedAdapterSlot | features/23/mdspan/linear_index/main.cpp:169-177 | over the row-padded stride mapping, adapter element i is slot (i / X)*(X + pad) + i mod X |
| LinearIndex.ChooseSpan | features/23/mdspan/linear_index/main.cpp:25-38 | SimpleSpan is chosen exactly for an always-exhaustive layout, otherwise the adapter with its default version 2 |
| LinearIndex.IterateOverAllElementsImpl | features/23/mdspan/linear_index/main.cpp:14-18 | every slot some index reaches ends up holding 1; every other slot keeps its old value |
| LinearIndex.IterateOverAllElements | features/23/mdspan/linear_index/main.cpp:25-38 | the same for the span the dispatch chooses |
| LinearIndex.ReduceElementsImpl | features/23/mdspan/linear_index/main.cpp:40-46 | the sum is that of the slots reached by indices 0 .. size() - 1 |
| LinearIndex.ReduceElements | features/23/mdspan/linear_index/main.cpp:53-65 | the same for the span the dispatch chooses |
| LinearIndex.RightSpansAgree | features/23/mdspan/linear_index/include/SimpleSpan.hpp:21-23 | over layout_right, SimpleSpan and both adapter versions reach the same slot for every index |
| LinearIndex.SimpleSpanSlots | features/23/mdspan/linear_index/include/SimpleSpan.hpp:21-25 | SimpleSpan reaches exactly slots 0 .. size() - 1, so it fits any buffer that large |
| LinearIndex.PaddedSpan | features/23/mdspan/linear_index/main.cpp:169-177 | the padded adapter span is well formed and its size is Y*X, not counting padding |
| LinearIndex.PaddedIndexSlot | features/23/mdspan/linear_index/main.cpp:169-177 | padded index i reaches slot (i / X)*(X + pad) + i mod X, inside the buffer and in column i mod X |
| LinearIndex.PaddedSpanFits | features/23/mdspan/linear_index/main.cpp:170 | the padded adapter never leaves the Y*(X + pad) buffer |
| LinearIndex.PaddedIndexOf | features/23/mdspan/linear_index/main.cpp:184-185 | every non-padding slot is reached by some index below Y*X |
| LinearIndex.PaddedSpanTouched | features/23/mdspan/linear_index/main.cpp:165-166 | a slot is reached exactly when it lies in the buffer and in a column below X: padding is never touched |
| LinearIndex.SumOverOnes | features/23/mdspan/linear_index/main.cpp:198-199 | when every reached slot holds 1, the reduction equals the number of elements |
| LinearIndex.SumOverFrame | features/23/mdspan/linear_index/main.cpp:214-215 | the reduction reads only reached slots; changing the padding does not change it |
| LinearIndex.SumOverIota | features/23/mdspan/linear_index/main.cpp:247-252 | over iota data reached in order, the reduction is n*(n - 1)/2 |
| LinearIndex.Iota | features/23/mdspan/linear_index/main.cpp:85-86 | element k of the new buffer is k |
| LinearIndex.CheckAdapterMatchesData | features/23/mdspan/linear_index/main.cpp:92-101 | the flag ends true exactly when the adapter's element i equals data[i] for every index; over layout_right that always holds, so the flag is true |
| LinearIndex.CheckVersionsAgree | features/23/mdspan/linear_index/main.cpp:124-135 | the flag ends true exactly when the two versions read equal elements for every index; on any layout they read the same slot, so the flag is true |
| LinearIndex.FillPadding | features/23/mdspan/linear_index/main.cpp:221-225 | every padding slot is set to the value; every data slot is unchanged |
| LinearIndex.Demo4D | features/23/mdspan/linear_index/main.cpp:85-135 | for iota data of extents {3, 2, 3, 5}, the index check and the version check pass, and the reduction is 4005 = 89*90/2 |
| LinearIndex.Checks4D | features/23/mdspan/linear_index/main.cpp:92-135 | on the demo's iota buffer of extents {3, 2, 3, 5}, both the index check and the version check end true |
| LinearIndex.Demo2D | features/23/mdspan/linear_index/main.cpp:144-159 | on the unpadded 3 x 5 matrix all 15 elements become 1 and the reduction is 15 |
| LinearIndex.PaddedTransform | features/23/mdspan/linear_index/main.cpp:169-192 | on a zeroed padded buffer, the data slots become 1 and the padding stays 0 |
| LinearIndex.DemoPadded | features/23/mdspan/linear_index/main.cpp:169-241 | after the transform the buffer is 1 on data and 0 on padding; with the padding then set to -2, the reduction is still Y*X |
| LinearIndex.DemoPadded3x5 | features/23/mdspan/linear_index/main.cpp:169-177 | with 3 x 5 and strides {7, 1}, slot k is 1 exactly when k mod 7 < 5, and the sum is 15 |
| TwoDData.WriteSlot | features/23/mdspan/layouts/2Ddata.cpp:86-89 | the access to (y, x) writes slot y*X + x (layout_right) or x*Y + y (layout_left), inside the buffer |
| TwoDData.Fill2D | features/23/mdspan/layouts/2Ddata.cpp:83-113 | with the fast index innermost, slot k ends up holding the element it stores, stamped k + 1: the accesses run through memory in order; the counter ends past Y*X |
| TwoDData.ExpectedMapsBack | features/23/mdspan/layouts/2Ddata.cpp:64-65 | every filled record names in-bounds coordinates that map back to its slot, and was accessed (counter not 0) |
| TwoDData.LayoutsTranspose | features/23/mdspan/layouts/2Ddata.cpp:74-82 | the element that layout_right stores at y*X + x, layout_left stores at x*Y + y, with the same coordinates |
| TwoDData.Print2D | features/23/mdspan/layouts/2Ddata.cpp:28-48 | `vec.size() / slice` rows; row y is the slice-wide run of the buffer starting at y*slice |
| TwoDData.RowsConcat | features/23/mdspan/layouts/2Ddata.cpp:41-47 | the first n printed rows, joined end to end, are the buffer's first n*slice elements |
| TwoDData.PrintShowsAll | features/23/mdspan/layouts/2Ddata.cpp:24-30 | when the buffer size is a multiple of the row width, the rows joined are the whole buffer |
| TwoDData.IndentString | features/23/mdspan/layouts/2Ddata.cpp:35-39 | the indent string is exactly `indent` spaces |
| TwoDData.Demo2D | features/23/mdspan/layouts/2Ddata.cpp:184-199 | for 5 x 9, layout_right prints 5 rows with row r holding (r, c) stamped r*9 + c + 1; layout_left prints 9 rows with row r holding (c, r) stamped r*5 + c + 1 |
| TwoDPadding.PaddedWriteSlot | features/23/mdspan/layouts/2DdataPadding.cpp:97-103 | the access to (y, x) writes slot y*(X + pad) + x, in row y and column x, and that slot expects the record stamped y*X + x + 1 |
| TwoDPadding.FillPadded | features/23/mdspan/layouts/2DdataPadding.cpp:64-104 | every data slot holds its coordinates stamped with its position in the row-by-row walk; every padding slot keeps the default record; the counter ends past Y*X |
| TwoDPadding.PaddingNeverAccessed | features/23/mdspan/layouts/2DdataPadding.cpp:64-65 | a slot's counter is 0 ("never accessed") exactly when it is a padding slot |
| TwoDPadding.PaddedMapsBack | features/23/mdspan/layouts/2DdataPadding.cpp:97-104 | every accessed record names in-bounds coordinates that the strided mapping sends back to its slot |
| TwoDPadding.PaddedOffsetsDistinct | features/23/mdspan/layouts/2DdataPadding.cpp:89-90 | two in-bounds coordinates share a slot exactly when they are equal (the mapping is unique) |
| TwoDPadding.PaddedAccessInMemoryOrder | features/23/mdspan/layouts/2DdataPadding.cpp:97-104 | of two accessed slots, the lower one was accessed first |
| TwoDPadding.DemoPadded2D | features/23/mdspan/layouts/2DdataPadding.cpp:111-119 | for 5 x 9 with 2 padding slots, print2D at width 11 shows 5 rows: nine records (r, c) stamped r*9 + c + 1, then two default records |
| Text.JoinLength | prototypes/streamVector/main.cpp:24-35 | a printed list holds every element once and one separator fewer than elements |
| Text.JoinAppend | prototypes/streamVector/main.cpp:24-35 | printing a concatenation is printing each part with one separator between them |
| Text.SplitJoin | features/23/mdspan/hello_mspan/main.cpp:6-17 | with a one-character separator no element contains, splitting the printed list gives back the elements |
| HelloMdspan.Offset3D | features/23/mdspan/hello_mspan/main.cpp:30 | the 3D layout_right view stores (z, y, x) at (z*Y + y)*X + x |
| HelloMdspan.Offset1D | features/23/mdspan/hello_mspan/main.cpp:31 | the 1D view reads slot i at index i |
| HelloMdspan.Fill3D | features/23/mdspan/hello_mspan/main.cpp:39-50 | every element ends up holding its own offset, and the counter ends at Z*Y*X |
| HelloMdspan.AreEqual | features/23/mdspan/hello_mspan/main.cpp:54-59 | the flag is true exactly when every element read through the 1D view equals its index |
| HelloMdspan.PrintVector | features/23/mdspan/hello_mspan/main.cpp:6-17 | the output is "[", the elements separated by single spaces, "]" |
| HelloMdspan.Demo | features/23/mdspan/hello_mspan/main.cpp:19-65 | for {4, 5, 2}, the 1D extent is 40 (the assert holds), the counter ends at 40 and the views agree |
| StreamVector.MyVector.FromList | prototypes/streamVector/main.cpp:8 | the vector holds the listed elements |
| StreamVector.MyVector.Copy | prototypes/streamVector/main.cpp:9 | the copy holds the same elements |
| StreamVector.MyVector.PushBack | prototypes/streamVector/main.cpp:14 | one back_inserter step appends the element at the end |
| StreamVector.MyVector.Merge | prototypes/streamVector/main.cpp:11-16 | a new vector holding this vector's elements followed by the other's; neither operand changes |
| StreamVector.Shift | prototypes/streamVector/main.cpp:19-22 | `v1 << v2` is a new vector holding v1's elements followed by v2's |
| StreamVector.NestedEqualsChained | prototypes/streamVector/main.cpp:42-45 | `v1.merge(v2.merge(v3))` and `v1 << v2 << v3` hold the same elements, v1's then v2's then v3's |
| StreamVector.PrintMyVector | prototypes/streamVector/main.cpp:24-35 | the output is "[", the elements separated by ", ", "]" |
| StreamVector.PrintMerged | prototypes/streamVector/main.cpp:42-44 | printing a merge of two non-empty vectors shows the first's elements, ", ", and the second's |
| StreamVector.Demo123 | prototypes/streamVector/main.cpp:37-46 | the nested merge and v123 both hold 1 .. 9 |
| StreamVector.Demo312AsWritten | prototypes/streamVector/main.cpp:50-54 | as written, the nested merge holds 7, 8, 9, 1 .. 6 but v312 holds 1 .. 9, so they differ |
| StreamVector.Demo312 | prototypes/streamVector/main.cpp:50-52 | with v312 chained as v3 << v1 << v2, it equals `v3.merge(v1.merge(v2))`: 7, 8, 9, 1 .. 6 |

## Left out

- Console output is not modelled:
  - headings, "slice:" and "rows:", `print_mapping`, `print_extend`, `get_layout_name`;
  - the `is_always_unique` / `is_always_strided` / `is_always_exhaustive` printouts;
  - the success and failure messages;
  - `operator<<` for `NDim` and `Point2D`.
  The printers of the two vector demos are modelled on elements already
  formatted as text, because number formatting is I/O.
- Unsigned and `std::size_t` overflow is not modelled. Products of extents,
  linear indices and the `int` sums are unbounded integers, because every
  demo's values are far below 2^31. The one exception is the subtraction
  `dividend -= part` in the as-written `get_multi_index_impl`, whose 32-bit
  wrap is the point of a finding and is modelled.
- Static versus dynamic extents are not distinguished. `TwoDData.Fill2D`
  models both `fullyLengthStatic2DPrint` (2Ddata.cpp:57-116) and
  `fullyLengthDynamic2DPrint` (2Ddata.cpp:125-182), because their walks are
  identical. The same goes for `get_extent_helper`.
- `MDSPAN_USE_BRACKET_OPERATOR` is not modelled, because `m[i, j]` and
  `m(i, j)` are the same access.
- Rank 0 is excluded: the adapter, the spans and the NDim conversions
  require rank >= 1. The mdspan demos never use rank 0, and `to1D` and `at`
  assert against it.
- `NDIndexing.GetMultiIndex` requires every extent to be positive, because
  the source divides by an extent, which is undefined behaviour when it is
  zero.
- `reserve` in `merge` only changes capacity, so it is not modelled.
- Lines 43 and 51 of `prototypes/streamVector/main.cpp` print the three
  vectors one after another; that is stream precedence, so it is I/O only.
- The adapter's `operator[]` returns a reference to the element. The model
  returns the buffer slot (`Adapter.Locate`, `LinearIndex.SpanSlot`), and
  writes go to that slot of the `array`.
- Adapter.MultiIndexV1: its own contract states only that it yields one coordinate per rank. What the coordinates are is proved in Adapter.MultiIndexV1IsDigits.
- Adapter.MultiIndexV2: its own contract states only that it yields one coordinate per rank. That they are version 1's is proved in Adapter.VersionsAgree.
- Adapter.MultiIndex: its own contract states only the length. Its meaning follows from the two lemmas above.
- NDIndexing.ToND: modelled over the corrected get_multi_index (`NDIndexing.GetMultiIndex`), so its promise that every pair maps back to its index is the intended toND. The toND as written calls the as-written get_multi_index. That version is modelled as `NDIndexing.ToNDAsWritten`, which keeps the promise only when no middle extent exceeds the lowest one (`NDIndexing.AsWrittenSafe`); for other shapes, such as {2, 3, 2}, its pairs differ (`NDIndexing.AsWrittenCounterexample`).
- NDIndexing.ToNDAsWritten: requires at most 2^32 elements, because the as-written get_multi_index is modelled on 32-bit unsigned indices and unsigned overflow of the element count is not modelled.
- NDIndexing.MultiIndexAsWritten: its own contract states only the rank, the lowest coordinate and that the result is in bounds. When it is right and when it is wrong is proved in NDIndexing.AsWrittenCorrectWhenSafe, NDIndexing.AsWrittenCounterexample and NDIndexing.AsWrittenUnderflow.
- `utils.hpp` is not part of this model. It holds the `MdspanLayoutContinuous`
  concept (modelled as `TwoDData.Layout2D`) and the printing helpers.

## Findings

| source | as written | input that shows it | evidently intended | confidence | as-written member | corrected member |
|---|---|---|---|---|---|---|
| prototypes/NDindexing/runtime.cpp:221-226 | the subtrahend of dimension c is x{c-1} * D{c-1} * ... * D2 (the loop runs from `current_dim - 1` down to 2), and `dividend -= part` is unsigned | extents {2, 3, 2}, index 8 gives [0, 1, 0] (linear index 2), not [1, 1, 0]; extents {5, 3, 2}, index 2 wraps below zero and gives [2, 1, 0] (linear index 14), not [0, 1, 0] | subtrahend x{c-1} * D{c-2} * ... * D1, as in the formula at lines 185-198, so that each coordinate is (index / (D{c-1} * ... * D1)) mod Dc | high (not executed) | NDIndexing.AsWrittenCounterexample | NDIndexing.GetMultiIndex |
| prototypes/streamVector/main.cpp:53 | `auto v312 = v1<< v2 << v3;` | the demo itself: v312 holds 1 .. 9 while the merge printed above it, `v3.merge(v1.merge(v2))`, holds 7, 8, 9, 1 .. 6 | `v3 << v1 << v2`, as the name and lines 50-52 say | medium (not executed) | StreamVector.Demo312AsWritten | StreamVector.Demo312 |
