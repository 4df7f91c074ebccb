/** The linear-index algorithms over an mdspan: set every element to 1 and sum
    all elements, walking a linear index 0 .. size() - 1. An exhaustive layout
    is walked through SimpleSpan, which indexes the buffer directly; any other
    layout through MdSpanLinearAdapter, which goes through the multi-index and
    the layout mapping and so never lands on a padding slot. The buffer is an
    `array<int>`; a span is the description of how index i reaches a slot. */
module LinearIndex {
  import RowMajor
  import DivMod
  import Layouts
  import Adapter

  /** How a linear index reaches the buffer: SimpleSpan uses it as the
      offset itself, the adapter of the given version maps it through the
      layout. */
  datatype Span =
    | SimpleSpan(m: Layouts.Mapping)
    | AdapterSpan(m: Layouts.Mapping, version: nat)

  /** A span over an mdspan of rank >= 1 whose adapter version exists. */
  predicate ValidSpan(sp: Span)
  {
    Layouts.WellFormed(sp.m) && |sp.m.ext| >= 1
    && (sp.AdapterSpan? ==> sp.version == 1 || sp.version == 2)
  }

  /** size(): both spans report the size of the mdspan they wrap. */
  function SpanSize(sp: Span): nat
  {
    Layouts.Size(sp.m)
  }

  /** The buffer slot operator[](i) refers to. */
  function SpanSlot(sp: Span, i: nat): nat
    requires ValidSpan(sp) && i < SpanSize(sp)
  {
    match sp
    case SimpleSpan(_) => i
    case AdapterSpan(m, version) => Adapter.Locate(m, version, i)
  }

  /** Every slot the span reaches lies inside a buffer of n elements. */
  predicate Fits(sp: Span, n: nat)
    requires ValidSpan(sp)
  {
    forall i | 0 <= i < SpanSize(sp) :: SpanSlot(sp, i) < n
  }

  /** Slot k is reached by one of the linear indices below j. */
  ghost predicate TouchedBelow(sp: Span, k: nat, j: nat)
    requires ValidSpan(sp) && j <= SpanSize(sp)
  {
    exists i | 0 <= i < j :: SpanSlot(sp, i) == k
  }

  /** Slot k is reached by some linear index. */
  ghost predicate Touched(sp: Span, k: nat)
    requires ValidSpan(sp)
  {
    TouchedBelow(sp, k, SpanSize(sp))
  }

  /** The `if constexpr (m.is_always_exhaustive())` dispatch: SimpleSpan for
      an exhaustive layout, the adapter with its default version 2
      otherwise. */
  function ChooseSpan(m: Layouts.Mapping): (sp: Span)
    ensures sp.m == m
    ensures sp.SimpleSpan? <==> Layouts.IsAlwaysExhaustive(m)
    ensures sp.AdapterSpan? ==> sp.version == 2
  {
    if Layouts.IsAlwaysExhaustive(m) then SimpleSpan(m) else AdapterSpan(m, 2)
  }

  /** The sum of the elements the linear indices below n reach. */
  function SumOver(sp: Span, d: seq<int>, n: nat): int
    requires ValidSpan(sp) && n <= SpanSize(sp) && Fits(sp, |d|)
  {
    if n == 0 then 0 else SumOver(sp, d, n - 1) + d[SpanSlot(sp, n - 1)]
  }

  // ---------------------------------------------------------------------------
  // the algorithms
  // ---------------------------------------------------------------------------

  /** iterate_over_all_elements_impl: span[i] = 1 for every i < size(). Every
      reached slot holds 1 afterwards, every other slot is unchanged. */
  method IterateOverAllElementsImpl(sp: Span, data: array<int>)
    requires ValidSpan(sp) && Fits(sp, data.Length)
    modifies data
    ensures forall i | 0 <= i < SpanSize(sp) :: data[SpanSlot(sp, i)] == 1
    ensures forall k | 0 <= k < data.Length && !Touched(sp, k) :: data[k] == old(data[k])
  {
    var size := SpanSize(sp);
    for i := 0 to size
      invariant forall i' | 0 <= i' < i :: data[SpanSlot(sp, i')] == 1
      invariant forall k | 0 <= k < data.Length && !TouchedBelow(sp, k, i) :: data[k] == old(data[k])
    {
      data[SpanSlot(sp, i)] := 1;
    }
  }

  /** iterate_over_all_elements: the dispatch, then the loop. */
  method IterateOverAllElements(m: Layouts.Mapping, data: array<int>)
    requires ValidSpan(ChooseSpan(m)) && Fits(ChooseSpan(m), data.Length)
    modifies data
    ensures forall i | 0 <= i < SpanSize(ChooseSpan(m)) :: data[SpanSlot(ChooseSpan(m), i)] == 1
    ensures forall k | 0 <= k < data.Length && !Touched(ChooseSpan(m), k) :: data[k] == old(data[k])
  {
    IterateOverAllElementsImpl(ChooseSpan(m), data);
  }

  /** reduce_elements_impl: the sum of span[i] over i < size(). */
  method ReduceElementsImpl(sp: Span, data: array<int>) returns (sum: int)
    requires ValidSpan(sp) && Fits(sp, data.Length)
    ensures sum == SumOver(sp, data[..], SpanSize(sp))
  {
    sum := 0;
    var size := SpanSize(sp);
    for i := 0 to size
      invariant sum == SumOver(sp, data[..], i)
    {
      sum := sum + data[SpanSlot(sp, i)];
    }
  }

  /** reduce_elements: the dispatch, then the loop. */
  method ReduceElements(m: Layouts.Mapping, data: array<int>) returns (sum: int)
    requires ValidSpan(ChooseSpan(m)) && Fits(ChooseSpan(m), data.Length)
    ensures sum == SumOver(ChooseSpan(m), data[..], SpanSize(ChooseSpan(m)))
  {
    sum := ReduceElementsImpl(ChooseSpan(m), data);
  }

  // ---------------------------------------------------------------------------
  // properties
  // ---------------------------------------------------------------------------

  /** Over layout_right the adapter reaches slot i for index i in both
      versions, so it covers exactly the slots SimpleSpan covers. */
  lemma RightSpansAgree(ext: seq<nat>, version: nat, i: nat)
    requires version == 1 || version == 2
    requires |ext| >= 1 && i < RowMajor.Prod(ext)
    ensures SpanSlot(AdapterSpan(Layouts.LayoutRight(ext), version), i) == i
    ensures SpanSlot(SimpleSpan(Layouts.LayoutRight(ext)), i) == i
  {
    Adapter.RightAdapterIsIdentity(ext, version, i);
  }

  /** SimpleSpan over any mapping reaches slots 0 .. size() - 1, so it fits
      a buffer of size() elements and touches exactly those. */
  lemma SimpleSpanSlots(m: Layouts.Mapping, n: nat, k: nat)
    requires ValidSpan(SimpleSpan(m)) && Layouts.Size(m) <= n
    ensures Fits(SimpleSpan(m), n)
    ensures Touched(SimpleSpan(m), k) <==> k < Layouts.Size(m)
  {
    if k < Layouts.Size(m) {
      assert SpanSlot(SimpleSpan(m), k) == k;
    }
  }

  /** The adapter span over the row-padded stride mapping {X + pad, 1} of
      extents {Y, X}: Y rows of X elements, each row followed by pad unused
      slots. */
  function PaddedSpan(ySize: nat, xSize: nat, pad: nat, version: nat): (sp: Span)
    requires version == 1 || version == 2
    ensures ValidSpan(sp) && SpanSize(sp) == ySize * xSize
  {
    RowMajor.Prod2(ySize, xSize);
    AdapterSpan(Layouts.LayoutStride([ySize, xSize], [xSize + pad, 1]), version)
  }

  /** One index of the padded walk: row i / X, column i % X, inside the
      Y * (X + pad) buffer and in column i % X of its row. */
  lemma PaddedIndexSlot(ySize: nat, xSize: nat, pad: nat, version: nat, i: nat)
    requires version == 1 || version == 2
    requires i < ySize * xSize
    ensures SpanSlot(PaddedSpan(ySize, xSize, pad, version), i) == (i / xSize) * (xSize + pad) + i % xSize
    ensures SpanSlot(PaddedSpan(ySize, xSize, pad, version), i) < ySize * (xSize + pad)
    ensures SpanSlot(PaddedSpan(ySize, xSize, pad, version), i) % (xSize + pad) == i % xSize
  {
    Adapter.PaddedAdapterSlot(ySize, xSize, pad, version, i);
    DivMod.QuotientBelow(i, xSize, ySize);
    Layouts.PaddedStride2D(ySize, xSize, pad, i / xSize, i % xSize);
  }

  /** The padded span fits the Y * (X + pad) buffer. */
  lemma PaddedSpanFits(ySize: nat, xSize: nat, pad: nat, version: nat)
    requires version == 1 || version == 2
    ensures Fits(PaddedSpan(ySize, xSize, pad, version), ySize * (xSize + pad))
  {
    var sp := PaddedSpan(ySize, xSize, pad, version);
    forall i | 0 <= i < SpanSize(sp)
      ensures SpanSlot(sp, i) < ySize * (xSize + pad)
    {
      PaddedIndexSlot(ySize, xSize, pad, version, i);
    }
  }

  /** Row k / W and column k % W of a slot below Y * W with column below X,
      as the linear index (k / W) * X + k % W of a Y x X matrix. */
  lemma PaddedArith(ySize: nat, xSize: nat, w: nat, k: nat) returns (i: nat)
    requires w > 0 && k < ySize * w && k % w < xSize
    ensures i < ySize * xSize && i / xSize == k / w && i % xSize == k % w
  {
    DivMod.QuotientBelow(k, w, ySize);
    DivMod.PairBound(k / w, k % w, ySize, xSize);
    i := (k / w) * xSize + k % w;
    DivMod.DivModUnique(i, xSize, k / w, k % w);
  }

  /** The linear index that reaches a non-padding slot k of the padded
      buffer: (k / (X + pad)) * X + k % (X + pad). */
  lemma PaddedIndexOf(ySize: nat, xSize: nat, pad: nat, version: nat, k: nat) returns (i: nat)
    requires version == 1 || version == 2
    requires k < ySize * (xSize + pad) && k % (xSize + pad) < xSize
    ensures i < ySize * xSize
    ensures SpanSlot(PaddedSpan(ySize, xSize, pad, version), i) == k
  {
    var w := xSize + pad;
    i := PaddedArith(ySize, xSize, w, k);
    PaddedIndexSlot(ySize, xSize, pad, version, i);
    assert k == (k / w) * w + k % w;
  }

  /** The padded walk reaches exactly the slots below Y * (X + pad) whose
      column k % (X + pad) is below X, so no padding slot is ever reached. */
  lemma PaddedSpanTouched(ySize: nat, xSize: nat, pad: nat, version: nat, k: nat)
    requires version == 1 || version == 2
    requires xSize + pad > 0
    ensures Touched(PaddedSpan(ySize, xSize, pad, version), k)
        <==> k < ySize * (xSize + pad) && k % (xSize + pad) < xSize
  {
    var sp := PaddedSpan(ySize, xSize, pad, version);
    if Touched(sp, k) {
      var i :| 0 <= i < SpanSize(sp) && SpanSlot(sp, i) == k;
      PaddedIndexSlot(ySize, xSize, pad, version, i);
    }
    if k < ySize * (xSize + pad) && k % (xSize + pad) < xSize {
      var i := PaddedIndexOf(ySize, xSize, pad, version, k);
    }
  }

  /** When every reached slot below n holds 1, the reduction counts them. */
  lemma {:induction false} SumOverOnes(sp: Span, d: seq<int>, n: nat)
    requires ValidSpan(sp) && n <= SpanSize(sp) && Fits(sp, |d|)
    requires forall i | 0 <= i < n :: d[SpanSlot(sp, i)] == 1
    ensures SumOver(sp, d, n) == n
  {
    if n > 0 {
      SumOverOnes(sp, d, n - 1);
    }
  }

  /** The reduction reads only the reached slots: two buffers that agree
      there have the same sum, whatever the padding holds. */
  lemma {:induction false} SumOverFrame(sp: Span, d: seq<int>, e: seq<int>, n: nat)
    requires ValidSpan(sp) && n <= SpanSize(sp) && Fits(sp, |d|) && Fits(sp, |e|)
    requires forall i | 0 <= i < n :: d[SpanSlot(sp, i)] == e[SpanSlot(sp, i)]
    ensures SumOver(sp, d, n) == SumOver(sp, e, n)
  {
    if n > 0 {
      SumOverFrame(sp, d, e, n - 1);
    }
  }

  /** When the element index i reaches holds i (iota data walked in order),
      the reduction is 0 + 1 + ... + (n - 1). */
  lemma {:induction false} SumOverIota(sp: Span, d: seq<int>, n: nat)
    requires ValidSpan(sp) && n <= SpanSize(sp) && Fits(sp, |d|)
    requires forall i | 0 <= i < n :: d[SpanSlot(sp, i)] == i
    ensures 2 * SumOver(sp, d, n) == n * (n - 1)
  {
    if n > 0 {
      var m := n - 1;
      SumOverIota(sp, d, m);
      TriangleStep(m, n);
    }
  }

  lemma TriangleStep(m: nat, n: nat)
    requires n == m + 1
    ensures m * (m - 1) + 2 * m == n * (n - 1)
  {
  }

  // ---------------------------------------------------------------------------
  // the checks of the linear_index demo
  // ---------------------------------------------------------------------------

  /** std::iota: element k holds k. */
  method Iota(n: nat) returns (data: array<int>)
    ensures fresh(data) && data.Length == n
    ensures forall k | 0 <= k < n :: data[k] == k
  {
    data := new int[n];
    for k := 0 to n
      invariant forall k' | 0 <= k' < k :: data[k'] == k'
    {
      data[k] := k;
    }
  }

  /** The index check over iota data on layout_right: the flag ends true
      exactly when adapter[i] == data[i] for every i below the total size,
      and over layout_right that always holds. */
  method CheckAdapterMatchesData(ext: seq<nat>, data: array<int>) returns (indexCheck: bool)
    requires |ext| >= 1 && data.Length == RowMajor.Prod(ext)
    ensures indexCheck <==> forall i | 0 <= i < data.Length ::
              Adapter.Locate(Layouts.LayoutRight(ext), 2, i) < data.Length
              && data[i] == data[Adapter.Locate(Layouts.LayoutRight(ext), 2, i)]
    ensures indexCheck
  {
    var m := Layouts.LayoutRight(ext);
    indexCheck := true;
    for i := 0 to data.Length
      invariant indexCheck
      invariant forall k | 0 <= k < i :: Adapter.Locate(m, 2, k) == k
    {
      Adapter.RightAdapterIsIdentity(ext, 2, i);
      if data[i] != data[Adapter.Locate(m, 2, i)] {
        indexCheck := false;
      }
    }
  }

  /** The comparison of the two index calculations: the flag ends true
      exactly when adapter_v1[i] == adapter_v2[i] for every i below the total
      size, and on any layout that always holds. */
  method CheckVersionsAgree(m: Layouts.Mapping, data: array<int>) returns (versionCheck: bool)
    requires ValidSpan(AdapterSpan(m, 1)) && Fits(AdapterSpan(m, 1), data.Length)
    ensures versionCheck <==> forall i | 0 <= i < Layouts.Size(m) ::
              Adapter.Locate(m, 1, i) < data.Length && Adapter.Locate(m, 2, i) < data.Length
              && data[Adapter.Locate(m, 1, i)] == data[Adapter.Locate(m, 2, i)]
    ensures versionCheck
  {
    versionCheck := true;
    for i := 0 to Layouts.Size(m)
      invariant versionCheck
      invariant forall k | 0 <= k < i :: Adapter.Locate(m, 1, k) == Adapter.Locate(m, 2, k)
    {
      Adapter.VersionsAgree(m.ext, i);
      assert SpanSlot(AdapterSpan(m, 1), i) == Adapter.Locate(m, 2, i);
      if data[Adapter.Locate(m, 1, i)] != data[Adapter.Locate(m, 2, i)] {
        versionCheck := false;
      }
    }
    assert forall i | 0 <= i < Layouts.Size(m) :: SpanSlot(AdapterSpan(m, 1), i) == Adapter.Locate(m, 1, i);
  }

  /** The demo's padding fill before the second reduction: every padding slot (columns X .. X + pad - 1 of each
      row) of the padded buffer is set to `value`; nothing else changes. */
  method FillPadding(data: array<int>, ySize: nat, xSize: nat, pad: nat, value: int)
    requires data.Length == ySize * (xSize + pad)
    modifies data
    ensures forall k | 0 <= k < data.Length ::
      data[k] == if k % (xSize + pad) < xSize then old(data[k]) else value
  {
    var w := xSize + pad;
    for y := 0 to ySize
      invariant forall k | 0 <= k < data.Length ::
        data[k] == if k < y * w && xSize <= k % w then value else old(data[k])
    {
      RowStartColumns(y, w, xSize);
      for x := xSize to w
        invariant forall k | 0 <= k < data.Length ::
          data[k] == if k < y * w + x && xSize <= k % w then value else old(data[k])
      {
        DivMod.PairBound(y, x, ySize, w);
        DivMod.DivModUnique(y * w + x, w, y, x);
        data[y * w + x] := value;
      }
      assert y * w + w == (y + 1) * w;
    }
  }

  /** The first X slots of row y lie in the data columns. */
  lemma RowStartColumns(y: nat, w: nat, xSize: nat)
    requires xSize <= w
    ensures forall k | y * w <= k < y * w + xSize :: k % w < xSize
  {
    forall k | y * w <= k < y * w + xSize
      ensures k % w < xSize
    {
      DivMod.DivModUnique(k, w, y, k - y * w);
    }
  }

  /** The 4D part of the demo: iota data of extents {3, 2, 3, 5} on
      layout_right. The adapter reads data[i] at index i, both versions
      agree, and the reduction is 89 * 90 / 2. */
  method Demo4D() returns (indexCheck: bool, versionCheck: bool, sum: int)
    ensures indexCheck && versionCheck
    ensures sum == 4005
  {
    var ext := [3, 2, 3, 5];
    Prod4(3, 2, 3, 5);
    var data := Iota(90);
    var m := Layouts.LayoutRight(ext);
    indexCheck, versionCheck := Checks4D(ext, data);
    sum := ReduceElements(m, data);
    SumOverIota(SimpleSpan(m), data[..], 90);
  }

  /** The two checks of the 4D demo over its layout_right buffer of 90
      elements; both flags end true and the buffer is not changed. */
  method Checks4D(ext: seq<nat>, data: array<int>) returns (indexCheck: bool, versionCheck: bool)
    requires ext == [3, 2, 3, 5] && data.Length == 90
    ensures indexCheck && versionCheck
  {
    var m := Layouts.LayoutRight(ext);
    Prod4(3, 2, 3, 5);
    indexCheck := CheckAdapterMatchesData(ext, data);
    forall i | 0 <= i < 90
      ensures SpanSlot(AdapterSpan(m, 1), i) == i
    {
      RightSpansAgree(ext, 1, i);
    }
    versionCheck := CheckVersionsAgree(m, data);
  }

  /** The unpadded 3 x 5 part of the demo: after the transform every element
      is 1 and the reduction is 15. */
  method Demo2D() returns (after: seq<int>, sum: int)
    ensures |after| == 15 && forall k | 0 <= k < 15 :: after[k] == 1
    ensures sum == 15
  {
    var data := new int[15](_ => 0);
    var m := Layouts.LayoutRight([3, 5]);
    RowMajor.Prod2(3, 5);
    SimpleSpanSlots(m, 15, 0);
    IterateOverAllElements(m, data);
    forall k | 0 <= k < 15
      ensures data[k] == 1
    {
      assert SpanSlot(SimpleSpan(m), k) == k;
    }
    after := data[..];
    sum := ReduceElements(m, data);
    SumOverOnes(SimpleSpan(m), data[..], 15);
  }

  /** The transform of the padded part of the demo, for a Y x X matrix with
      pad unused slots after each row (strides {X + pad, 1}) in a zeroed
      buffer: the Y * X elements become 1, the padding stays 0. */
  method PaddedTransform(ySize: nat, xSize: nat, pad: nat) returns (data: array<int>)
    requires xSize + pad > 0
    ensures fresh(data) && data.Length == ySize * (xSize + pad)
    ensures forall k | 0 <= k < data.Length :: data[k] == if k % (xSize + pad) < xSize then 1 else 0
  {
    var w := xSize + pad;
    data := new int[ySize * w](_ => 0);
    var m := Layouts.LayoutStride([ySize, xSize], [w, 1]);
    PaddedSpanFits(ySize, xSize, pad, 2);
    IterateOverAllElements(m, data);
    forall k | 0 <= k < data.Length
      ensures data[k] == if k % w < xSize then 1 else 0
    {
      PaddedSpanTouched(ySize, xSize, pad, 2, k);
      if k % w < xSize {
        var i := PaddedIndexOf(ySize, xSize, pad, 2, k);
      }
    }
  }

  /** The padded part of the demo: after the transform the elements are 1
      and the padding 0; with the padding then set to -2 the reduction is
      still Y * X. */
  method DemoPadded(ySize: nat, xSize: nat, pad: nat) returns (after: seq<int>, sum: int)
    requires xSize + pad > 0
    ensures |after| == ySize * (xSize + pad)
    ensures forall k | 0 <= k < |after| :: after[k] == if k % (xSize + pad) < xSize then 1 else 0
    ensures sum == ySize * xSize
  {
    var data := PaddedTransform(ySize, xSize, pad);
    after := data[..];
    FillPadding(data, ySize, xSize, pad, -2);
    var m := Layouts.LayoutStride([ySize, xSize], [xSize + pad, 1]);
    var sp := PaddedSpan(ySize, xSize, pad, 2);
    PaddedSpanFits(ySize, xSize, pad, 2);
    sum := ReduceElements(m, data);
    forall i | 0 <= i < SpanSize(sp)
      ensures data[SpanSlot(sp, i)] == 1
    {
      PaddedIndexSlot(ySize, xSize, pad, 2, i);
    }
    SumOverOnes(sp, data[..], SpanSize(sp));
  }

  /** The padded part of the demo as main runs it: 3 x 5 with 2 padding
      elements per row, strides {7, 1}. */
  method DemoPadded3x5() returns (after: seq<int>, sum: int)
    ensures |after| == 21 && forall k | 0 <= k < 21 :: after[k] == if k % 7 < 5 then 1 else 0
    ensures sum == 15
  {
    after, sum := DemoPadded(3, 5, 2);
  }

  lemma Prod4(a: nat, b: nat, c: nat, d: nat)
    ensures RowMajor.Prod([a, b, c, d]) == a * b * c * d
  {
    assert [a, b, c, d][1..] == [b, c, d];
    assert [b, c, d][1..] == [c, d];
    RowMajor.Prod2(c, d);
    var p2 := RowMajor.Prod([c, d]);
    assert RowMajor.Prod([b, c, d]) == b * p2;
    assert RowMajor.Prod([a, b, c, d]) == a * (b * p2);
    DivMod.MulAssoc(a, b, p2);
    DivMod.MulAssoc(a * b, c, d);
  }
}
