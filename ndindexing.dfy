/** The NDim prototype: an N-dimensional coordinate system whose extents are
    stored with the largest dimension on the left, so that dimension 1 is the
    rightmost entry. Conversions between N-dimensional positions and linear
    indices in both directions, and the two enumerations built on them. */
module NDIndexing {
  import RowMajor
  import DivMod

  /** Width of the source's `unsigned int`. */
  const U32: nat := 0x1_0000_0000

  datatype Result<T> = Ok(value: T) | Err(msg: string)

  /** A vector of extents or of coordinates. It is a value: the source copies
      it into every pair it records. */
  datatype NDim = NDim(dims: seq<nat>) {

    /** Dimension `index`, counted from the right starting at 1. */
    function At(index: nat): (v: nat)
      requires 1 <= index <= |dims|
      ensures index == 1 ==> v == dims[|dims| - 1]
      ensures index == |dims| ==> v == dims[0]
    {
      dims[|dims| - index]
    }

    /** Writing through the reference that `at` returns. */
    function Set(index: nat, v: nat): (r: NDim)
      requires 1 <= index <= |dims|
      ensures |r.dims| == |dims| && r.At(index) == v
      ensures forall k :: 1 <= k <= |dims| && k != index ==> r.At(k) == At(k)
    {
      NDim(dims[|dims| - index := v])
    }

    function GetDim(): nat
    {
      |dims|
    }
  }

  /** NDim(dim, initial_value): `dim` dimensions, each set to the same value. */
  function Filled(dim: nat, initialValue: nat): (r: NDim)
    ensures r.GetDim() == dim
    ensures forall k :: 1 <= k <= dim ==> r.At(k) == initialValue
  {
    NDim(seq(dim, _ => initialValue))
  }

  /** D1 * ... * Dk, the product of the k lowest dimensions. */
  function LowProduct(dims: NDim, k: nat): nat
    requires k <= |dims.dims|
  {
    RowMajor.Prod(dims.dims[|dims.dims| - k..])
  }

  /** Component k of the multi-index of `i` by the documented formula,
      (i / (D1 * ... * D{k-1})) % Dk. */
  function DigitAt(i: nat, dims: NDim, k: nat): nat
    requires RowMajor.Positive(dims.dims) && 1 <= k <= |dims.dims|
  {
    RowMajor.Digit(i, dims.dims, |dims.dims| - k)
  }

  /** get_total_elements: the product of all extents, 1 for no extent. */
  method GetTotalElements(nd: NDim) returns (total: nat)
    ensures total == RowMajor.Prod(nd.dims)
    ensures nd.GetDim() == 0 ==> total == 1
    ensures RowMajor.Positive(nd.dims) ==> total > 0
  {
    total := 1;
    for i := 0 to |nd.dims|
      invariant total == RowMajor.Prod(nd.dims[..i])
    {
      RowMajor.ProdSliceStep(nd.dims, 0, i);
      assert nd.dims[..i] == nd.dims[0..i] && nd.dims[..i + 1] == nd.dims[0..i + 1];
      total := total * nd.dims[i];
    }
    assert nd.dims[..|nd.dims|] == nd.dims;
  }

  // ---------------------------------------------------------------------------
  // multi-dimensional index -> linear index
  // ---------------------------------------------------------------------------

  /** The inner product loop of get_linear_index_impl and get_multi_index_impl:
      x multiplied by Dtop, ..., D1 in turn, i.e. by the product of the lowest
      `top` dimensions. */
  method TimesLowDims(x: nat, dims: NDim, top: nat) returns (r: nat)
    requires top < |dims.dims|
    ensures r == x * LowProduct(dims, top)
  {
    var n := |dims.dims|;
    r := x;
    var d := top;
    while d > 0
      invariant 0 <= d <= top
      invariant r == x * RowMajor.Prod(dims.dims[n - top..n - d])
    {
      TimesLowStep(x, dims, top, d, r);
      r := r * dims.At(d);
      d := d - 1;
    }
    assert dims.dims[n - top..n] == dims.dims[n - top..];
  }

  /** One turn of the loop above: multiplying by Dd takes in one more
      dimension. */
  lemma TimesLowStep(x: nat, dims: NDim, top: nat, d: nat, r: nat)
    requires 0 < d <= top < |dims.dims|
    requires r == x * RowMajor.Prod(dims.dims[|dims.dims| - top..|dims.dims| - d])
    ensures r * dims.At(d) >= 0
    ensures r * dims.At(d) == x * RowMajor.Prod(dims.dims[|dims.dims| - top..|dims.dims| - (d - 1)])
  {
    var n := |dims.dims|;
    var s, a, b := dims.dims, n - top, n - d;
    assert b + 1 == n - (d - 1) && dims.At(d) == s[b];
    RowMajor.ProdSliceStep(s, a, b);
    var p := RowMajor.Prod(s[a..b]);
    DivMod.MulAssoc(x, p, s[b]);
    DivMod.MulMonotone(r, 0, s[b]);
  }

  /** get_linear_index_impl: x{c} * (D{c-1} * ... * D1) plus the linear index of
      the dimensions below c. */
  method GetLinearIndexImpl(pos: NDim, dims: NDim, current: nat) returns (r: nat)
    requires |pos.dims| == |dims.dims| && 1 <= current <= |dims.dims|
    ensures r == RowMajor.OffsetFrom(pos.dims, dims.dims, |dims.dims| - current)
    decreases current
  {
    var n := |dims.dims|;
    if current > 1 {
      var partial := TimesLowDims(pos.At(current), dims, current - 1);
      var rest := GetLinearIndexImpl(pos, dims, current - 1);
      r := partial + rest;
    } else {
      r := pos.At(1);
    }
  }

  /** get_linear_index: the row-major linear index, dimension 1 fastest. An
      in-bounds position maps below the total number of elements. */
  method GetLinearIndex(pos: NDim, dims: NDim) returns (r: nat)
    requires |pos.dims| == |dims.dims| >= 1
    ensures r == RowMajor.Offset(pos.dims, dims.dims)
    ensures RowMajor.InBounds(pos.dims, dims.dims) ==> r < RowMajor.Prod(dims.dims)
  {
    r := GetLinearIndexImpl(pos, dims, dims.GetDim());
    if RowMajor.InBounds(pos.dims, dims.dims) {
      RowMajor.OffsetBound(pos.dims, dims.dims);
    }
  }

  /** What to1D records for a position: the position (in bounds, agreeing with
      `pos` on the dimensions above the ones being walked, with offset `j`
      within the walked ones) paired with its linear index. */
  ghost predicate Visited(e: (NDim, nat), pos: NDim, dims: NDim, p: nat, j: nat)
    requires |pos.dims| == |dims.dims| && p <= |dims.dims|
  {
    RowMajor.InBounds(e.0.dims, dims.dims) && e.0.dims[..p] == pos.dims[..p]
    && RowMajor.OffsetFrom(e.0.dims, dims.dims, p) == j
    && e.1 == RowMajor.Offset(e.0.dims, dims.dims)
  }

  /** A position visited below dimension p + 1 of `next`, where `next` fixes
      component p to v, is visited below dimension p of `pos`, v * w further on. */
  lemma VisitedLift(e: (NDim, nat), next: NDim, pos: NDim, dims: NDim, p: nat, v: nat, w: nat, j: nat, off: nat)
    requires |pos.dims| == |next.dims| == |dims.dims| && p < |dims.dims|
    requires next.dims[..p] == pos.dims[..p] && next.dims[p] == v
    requires w == RowMajor.Prod(dims.dims[p + 1..])
    requires Visited(e, next, dims, p + 1, j) && off == v * w + j
    ensures Visited(e, pos, dims, p, off)
  {
    var x := e.0.dims;
    assert x[..p] == x[..p + 1][..p];
    assert next.dims[..p] == next.dims[..p + 1][..p];
    assert x[p] == x[..p + 1][p];
  }

  /** Fixing dimension `current` of a position that agrees with `pos` above
      it to an in-bounds value keeps it in bounds one dimension further. */
  lemma SetAbove(pos: NDim, cur: NDim, dims: NDim, current: nat, v: nat)
    requires |pos.dims| == |cur.dims| == |dims.dims| && 1 <= current <= |dims.dims|
    requires v < dims.At(current)
    requires forall q :: 0 <= q < |dims.dims| - current ==> cur.dims[q] == pos.dims[q]
    requires forall q :: 0 <= q < |dims.dims| - current ==> pos.dims[q] < dims.dims[q]
    ensures cur.Set(current, v).dims == cur.dims[|dims.dims| - current := v]
    ensures cur.Set(current, v).dims[..|dims.dims| - current] == pos.dims[..|dims.dims| - current]
    ensures forall q :: 0 <= q < |dims.dims| - current ==> cur.Set(current, v).dims[q] == pos.dims[q]
    ensures forall q :: 0 <= q < |dims.dims| - (current - 1) ==> cur.Set(current, v).dims[q] < dims.dims[q]
  {
    var p := |dims.dims| - current;
    var next := cur.Set(current, v);
    assert next.dims[..p] == pos.dims[..p];
  }

  /** iterate_over_dim_impl: walk every value of dimensions current..1 (the
      highest of them outermost), record each position with its linear index at
      mapping[access_counter] and advance the counter. */
  method IterateOverDimImpl(pos: NDim, dims: NDim, mapping: array<(NDim, nat)>, counter: nat, current: nat)
    returns (pos': NDim, counter': nat)
    requires |pos.dims| == |dims.dims| >= 1 && current <= |dims.dims|
    requires forall p :: 0 <= p < |dims.dims| - current ==> pos.dims[p] < dims.dims[p]
    requires counter + LowProduct(dims, current) <= mapping.Length
    modifies mapping
    ensures |pos'.dims| == |dims.dims|
    ensures forall q :: 0 <= q < |dims.dims| - current ==> pos'.dims[q] == pos.dims[q]
    ensures counter' == counter + LowProduct(dims, current)
    ensures forall k :: counter <= k < counter' ==>
              Visited(mapping[k], pos, dims, |dims.dims| - current, k - counter)
    ensures forall k :: 0 <= k < mapping.Length && !(counter <= k < counter') ==>
              mapping[k] == old(mapping[k])
    decreases current, 1
  {
    var n := |dims.dims|;
    if current > 0 {
      var p := n - current;
      ghost var w := LowProduct(dims, current - 1);
      RowMajor.ProdSplit(dims.dims, p);
      assert LowProduct(dims, current) == dims.At(current) * w;
      pos', counter' := pos, counter;
      for v := 0 to dims.At(current)
        invariant |pos'.dims| == n && forall q :: 0 <= q < p ==> pos'.dims[q] == pos.dims[q]
        invariant counter <= counter' == counter + v * w <= counter + LowProduct(dims, current)
        invariant forall k :: counter <= k < counter' ==> Visited(mapping[k], pos, dims, p, k - counter)
        invariant forall k :: 0 <= k < mapping.Length && !(counter <= k < counter') ==>
                    mapping[k] == old(mapping[k])
      {
        DivMod.NextMultiple(v, dims.At(current), w);
        pos', counter' := IterateOverValue(pos, pos', dims, mapping, counter, counter', current, v, w);
      }
    } else {
      var li := GetLinearIndex(pos, dims);
      VisitedBase(pos, dims, li);
      mapping[counter] := (pos, li);
      pos', counter' := pos, counter + 1;
    }
  }

  /** A position with every dimension fixed is visited at offset 0 of the
      empty walk below it, which has a single element. */
  lemma VisitedBase(pos: NDim, dims: NDim, li: nat)
    requires |pos.dims| == |dims.dims|
    requires forall p :: 0 <= p < |dims.dims| ==> pos.dims[p] < dims.dims[p]
    requires li == RowMajor.Offset(pos.dims, dims.dims)
    ensures LowProduct(dims, 0) == 1
    ensures Visited((pos, li), pos, dims, |dims.dims|, 0)
  {
    assert dims.dims[|dims.dims|..] == [];
  }

  /** One turn of the loop of iterate_over_dim_impl: set dimension `current`
      of the position to v and walk the dimensions below it, recording the
      positions from `before` = counter + v * w on. */
  method IterateOverValue(pos: NDim, cur: NDim, dims: NDim, mapping: array<(NDim, nat)>, counter: nat, before: nat,
                          current: nat, v: nat, ghost w: nat)
    returns (pos': NDim, counter': nat)
    requires |pos.dims| == |cur.dims| == |dims.dims| && 1 <= current <= |dims.dims|
    requires forall q :: 0 <= q < |dims.dims| - current ==> cur.dims[q] == pos.dims[q]
    requires forall q :: 0 <= q < |dims.dims| - current ==> pos.dims[q] < dims.dims[q]
    requires v < dims.At(current) && w == LowProduct(dims, current - 1)
    requires counter <= before == counter + v * w && before + w <= mapping.Length
    modifies mapping
    ensures |pos'.dims| == |dims.dims|
    ensures forall q :: 0 <= q < |dims.dims| - current ==> pos'.dims[q] == pos.dims[q]
    ensures counter' == before + w
    ensures forall k :: before <= k < counter' ==> Visited(mapping[k], pos, dims, |dims.dims| - current, k - counter)
    ensures forall k :: 0 <= k < mapping.Length && !(before <= k < counter') ==>
              mapping[k] == old(mapping[k])
    decreases current, 0
  {
    var p := |dims.dims| - current;
    var next := cur.Set(current, v);
    SetAbove(pos, cur, dims, current, v);
    assert |dims.dims| - (current - 1) == p + 1;
    pos', counter' := IterateOverDimImpl(next, dims, mapping, before, current - 1);
    VisitedLiftRange(mapping, next, pos, dims, p, v, w, counter, before, counter');
  }

  /** VisitedLift for every entry the walk below `next` recorded. */
  lemma VisitedLiftRange(mapping: array<(NDim, nat)>, next: NDim, pos: NDim, dims: NDim, p: nat, v: nat, w: nat,
                         counter: nat, before: nat, after: nat)
    requires |pos.dims| == |next.dims| == |dims.dims| && p < |dims.dims|
    requires next.dims[..p] == pos.dims[..p] && next.dims[p] == v
    requires w == RowMajor.Prod(dims.dims[p + 1..]) && counter <= before == counter + v * w && after <= mapping.Length
    requires forall k :: before <= k < after ==> Visited(mapping[k], next, dims, p + 1, k - before)
    ensures forall k :: before <= k < after ==> Visited(mapping[k], pos, dims, p, k - counter)
  {
    forall k | before <= k < after
      ensures Visited(mapping[k], pos, dims, p, k - counter)
    {
      VisitedLift(mapping[k], next, pos, dims, p, v, w, k - before, k - counter);
    }
  }

  /** The overload that starts at the highest dimension of the position. */
  method IterateOverDim(pos: NDim, dims: NDim, mapping: array<(NDim, nat)>, counter: nat)
    returns (pos': NDim, counter': nat)
    requires |pos.dims| == |dims.dims| >= 1
    requires counter + RowMajor.Prod(dims.dims) <= mapping.Length
    modifies mapping
    ensures counter' == counter + RowMajor.Prod(dims.dims)
    ensures forall k :: counter <= k < counter' ==> Visited(mapping[k], pos, dims, 0, k - counter)
    ensures forall k :: 0 <= k < mapping.Length && !(counter <= k < counter') ==>
              mapping[k] == old(mapping[k])
  {
    assert dims.dims[0..] == dims.dims;
    pos', counter' := IterateOverDimImpl(pos, dims, mapping, counter, pos.GetDim());
  }

  /** to1D: every in-bounds position paired with its linear index, in the
      order of the nested walk. The mapping has one entry per element and
      entry k holds the position whose linear index is k, so the runtime_error
      for a counter that does not reach total_elements is never raised. */
  method To1D(dims: NDim) returns (r: Result<seq<(NDim, nat)>>)
    requires dims.GetDim() > 0
    ensures r.Ok?
    ensures |r.value| == RowMajor.Prod(dims.dims)
    ensures forall k :: 0 <= k < |r.value| ==>
              r.value[k].1 == k && RowMajor.InBounds(r.value[k].0.dims, dims.dims)
              && RowMajor.Offset(r.value[k].0.dims, dims.dims) == k
  {
    var n := dims.GetDim();
    var total := 1;
    var dim := n;
    while dim > 0
      invariant 0 <= dim <= n
      invariant total == RowMajor.Prod(dims.dims[..n - dim])
    {
      RowMajor.ProdSliceStep(dims.dims, 0, n - dim);
      assert dims.dims[..n - dim] == dims.dims[0..n - dim] && dims.dims[..n - dim + 1] == dims.dims[0..n - dim + 1];
      total := total * dims.At(dim);
      dim := dim - 1;
    }
    assert dims.dims[..n] == dims.dims;
    var accessCounter := 0;
    var pos := Filled(n, 0);
    var mapping := new (NDim, nat)[total];
    pos, accessCounter := IterateOverDim(pos, dims, mapping, accessCounter);
    if accessCounter != total {
      return Err("Does not create enough linear index positions");
    }
    r := Ok(mapping[..]);
  }

  /** What to1D's result means: each in-bounds position is visited, at the
      index equal to its linear index, and no position is visited twice. */
  lemma EnumerationIsBijective(m: seq<(NDim, nat)>, dims: NDim)
    requires |m| == RowMajor.Prod(dims.dims)
    requires forall k :: 0 <= k < |m| ==>
               RowMajor.InBounds(m[k].0.dims, dims.dims) && RowMajor.Offset(m[k].0.dims, dims.dims) == k
    ensures forall pos :: RowMajor.InBounds(pos, dims.dims) ==>
              RowMajor.Offset(pos, dims.dims) < |m| && m[RowMajor.Offset(pos, dims.dims)].0.dims == pos
    ensures forall k1, k2 :: 0 <= k1 < k2 < |m| ==> m[k1].0 != m[k2].0
  {
    forall pos | RowMajor.InBounds(pos, dims.dims)
      ensures RowMajor.Offset(pos, dims.dims) < |m| && m[RowMajor.Offset(pos, dims.dims)].0.dims == pos
    {
      RowMajor.OffsetBound(pos, dims.dims);
      RowMajor.OffsetInjective(m[RowMajor.Offset(pos, dims.dims)].0.dims, pos, dims.dims);
    }
  }

  // ---------------------------------------------------------------------------
  // linear index -> multi-dimensional index
  // ---------------------------------------------------------------------------

  /** The product of the lowest k + 1 dimensions is that of the lowest k times
      D{k+1}. */
  lemma LowProductStep(dims: NDim, k: nat)
    requires k < |dims.dims|
    ensures LowProduct(dims, k + 1) == LowProduct(dims, k) * dims.At(k + 1)
  {
    var p := |dims.dims| - k - 1;
    RowMajor.ProdSplit(dims.dims, p);
    assert LowProduct(dims, k + 1) == RowMajor.Prod(dims.dims[p..]);
    assert LowProduct(dims, k) == RowMajor.Prod(dims.dims[p + 1..]);
    assert dims.dims[p] * LowProduct(dims, k) == LowProduct(dims, k) * dims.dims[p];
  }

  /** One step of the documented formula: removing x{c-1} * divisor from the
      dividend (i / divisor) * divisor leaves the next multiple,
      (i / divisor') * divisor' with divisor' = divisor * D{c-1}, and never
      goes below zero. */
  lemma CorrectStep(i: nat, divisor: nat, d: nat)
    requires divisor > 0 && d > 0
    ensures ((i / divisor) % d) * divisor <= (i / divisor) * divisor
    ensures (i / divisor) * divisor - ((i / divisor) % d) * divisor == (i / (divisor * d)) * (divisor * d)
  {
    DivMod.MulDropDigit(i / divisor, d, divisor);
    DivMod.DivDiv(i, divisor, d);
  }

  /** A position whose every dimension holds the documented digit is the
      multi-index of i. */
  lemma AllDigitsSet(i: nat, dims: NDim, pos: NDim)
    requires RowMajor.Positive(dims.dims) && |pos.dims| == |dims.dims|
    requires forall k :: 1 <= k <= |dims.dims| ==> pos.At(k) == DigitAt(i, dims, k)
    ensures pos.dims == RowMajor.Digits(i, dims.dims)
  {
    var n := |dims.dims|;
    forall p | 0 <= p < n
      ensures pos.dims[p] == RowMajor.Digits(i, dims.dims)[p]
    {
      DigitSetAt(i, dims, pos, p);
    }
  }

  /** Dimension n - p of the NDim is entry p of the sequence, so its
      documented digit is entry p of the digits. */
  lemma DigitSetAt(i: nat, dims: NDim, pos: NDim, p: nat)
    requires RowMajor.Positive(dims.dims) && |pos.dims| == |dims.dims| && p < |dims.dims|
    requires pos.At(|dims.dims| - p) == DigitAt(i, dims, |dims.dims| - p)
    ensures pos.dims[p] == RowMajor.Digits(i, dims.dims)[p]
  {
    var n := |dims.dims|;
    assert n - (n - p) == p;
  }

  /** One step of the documented formula on the NDim: the dividend stays the
      right multiple of the next divisor, which is LowProduct(current - 1),
      and dividing it out gives the documented digit of dimension current. */
  lemma DocumentedStep(i: nat, dims: NDim, current: nat, x: nat, dividend: nat, divisor: nat)
    requires RowMajor.Positive(dims.dims) && 2 <= current <= |dims.dims|
    requires x == DigitAt(i, dims, current - 1)
    requires divisor == LowProduct(dims, current - 2) && dividend == (i / divisor) * divisor
    ensures x * LowProduct(dims, current - 2) <= dividend
    ensures divisor * dims.At(current - 1) == LowProduct(dims, current - 1) > 0
    ensures dividend - x * LowProduct(dims, current - 2)
         == (i / LowProduct(dims, current - 1)) * LowProduct(dims, current - 1)
    ensures ((dividend - x * LowProduct(dims, current - 2)) / (divisor * dims.At(current - 1))) % dims.At(current)
         == DigitAt(i, dims, current)
  {
    var d := dims.At(current - 1);
    DigitAtLow(i, dims, current - 1);
    DigitAtLow(i, dims, current);
    CorrectStep(i, divisor, d);
    LowProductStep(dims, current - 2);
    var nextDivisor := divisor * d;
    DivMod.DivModUnique(dividend - x * divisor, nextDivisor, i / nextDivisor, 0);
  }

  /** get_multi_index_impl with the subtrahend of the documented formula: the
      dividend of dimension c is the dividend of dimension c-1 minus
      x{c-1} * (D{c-2} * ... * D1), and the divisor is D{c-1} * ... * D1. Each
      component comes out as (i / (D{c-1} * ... * D1)) % Dc, and the
      subtraction never goes below zero. */
  method GetMultiIndexImpl(i: nat, dims: NDim, pos: NDim, current: nat, dividend: nat, divisor: nat)
    returns (r: NDim)
    requires RowMajor.Positive(dims.dims) && |pos.dims| == |dims.dims| >= 1
    requires 1 <= current <= |dims.dims| + 1
    requires forall k :: 1 <= k < current ==> pos.At(k) == DigitAt(i, dims, k)
    requires current >= 2 ==> divisor == LowProduct(dims, current - 2) && dividend == (i / divisor) * divisor
    ensures r.dims == RowMajor.Digits(i, dims.dims)
    decreases |dims.dims| + 1 - current
  {
    var n := |dims.dims|;
    if current == 1 {
      assert dims.dims[n..] == [];
      var next := pos.Set(1, i % dims.At(1));
      r := GetMultiIndexImpl(i, dims, next, current + 1, i, 1);
    } else if current <= n {
      // dividend part
      var part := TimesLowDims(pos.At(current - 1), dims, current - 2);
      var nextDividend := dividend - part;
      // divisor part
      var nextDivisor := divisor * dims.At(current - 1);
      DocumentedStep(i, dims, current, pos.At(current - 1), dividend, divisor);
      var x := (nextDividend / nextDivisor) % dims.At(current);
      var next := pos.Set(current, x);
      DigitsThrough(i, dims, pos, current, x);
      r := GetMultiIndexImpl(i, dims, next, current + 1, nextDividend, nextDivisor);
    } else {
      AllDigitsSet(i, dims, pos);
      r := pos;
    }
  }

  /** get_multi_index: the multi-index of `linear_index` by the documented
      formula. For an index below the total number of elements it is the
      in-bounds position whose linear index is `linear_index`. */
  method GetMultiIndex(linearIndex: nat, dims: NDim) returns (r: NDim)
    requires RowMajor.Positive(dims.dims) && dims.GetDim() >= 1
    ensures r.dims == RowMajor.Digits(linearIndex, dims.dims)
    ensures linearIndex < RowMajor.Prod(dims.dims) ==>
              RowMajor.InBounds(r.dims, dims.dims) && RowMajor.Offset(r.dims, dims.dims) == linearIndex
  {
    var pos := Filled(dims.GetDim(), 0);
    r := GetMultiIndexImpl(linearIndex, dims, pos, 1, 0, 0);
    if linearIndex < RowMajor.Prod(dims.dims) {
      RowMajor.OffsetOfDigits(linearIndex, dims.dims);
    }
  }

  /** toND: every linear index below total_elements paired with its
      multi-index; pair i starts with i and its position maps back to i. */
  method ToND(dims: NDim) returns (mapping: seq<(nat, NDim)>)
    requires dims.GetDim() >= 1
    ensures |mapping| == RowMajor.Prod(dims.dims)
    ensures forall i :: 0 <= i < |mapping| ==>
              mapping[i].0 == i && RowMajor.InBounds(mapping[i].1.dims, dims.dims)
              && RowMajor.Offset(mapping[i].1.dims, dims.dims) == i
  {
    var totalElements := GetTotalElements(dims);
    var a := new (nat, NDim)[totalElements];
    for i := 0 to totalElements
      invariant forall k :: 0 <= k < i ==>
                  a[k].0 == k && RowMajor.InBounds(a[k].1.dims, dims.dims)
                  && RowMajor.Offset(a[k].1.dims, dims.dims) == k
    {
      if !RowMajor.Positive(dims.dims) {
        RowMajor.ProdZero(dims.dims);
        assert false;
      }
      var multiIndex := GetMultiIndex(i, dims);
      a[i] := (i, multiIndex);
    }
    mapping := a[..];
  }

  /** toND as written: the same loop over the as-written get_multi_index.
      Pair i holds i and MultiIndexAsWritten(i); when no middle extent
      exceeds the lowest one, that is the digit vector, so every pair maps
      back to its index, as the corrected ToND promises for every shape. */
  method ToNDAsWritten(dims: NDim) returns (mapping: seq<(nat, NDim)>)
    requires dims.GetDim() >= 1 && RowMajor.Prod(dims.dims) <= U32
    ensures |mapping| == RowMajor.Prod(dims.dims)
    ensures |mapping| > 0 ==> RowMajor.Positive(dims.dims)
    ensures forall i :: 0 <= i < |mapping| ==>
              mapping[i].0 == i && mapping[i].1 == MultiIndexAsWritten(i, dims)
    ensures AsWrittenSafe(dims) ==>
              forall i :: 0 <= i < |mapping| ==>
                mapping[i].1.dims == RowMajor.Digits(i, dims.dims)
                && RowMajor.Offset(mapping[i].1.dims, dims.dims) == i
  {
    var totalElements := GetTotalElements(dims);
    if totalElements > 0 && !RowMajor.Positive(dims.dims) {
      RowMajor.ProdZero(dims.dims);
      assert false;
    }
    var a := new (nat, NDim)[totalElements];
    for i := 0 to totalElements
      invariant forall k :: 0 <= k < i ==> a[k].0 == k && a[k].1 == MultiIndexAsWritten(k, dims)
    {
      a[i] := (i, MultiIndexAsWritten(i, dims));
    }
    mapping := a[..];
    if AsWrittenSafe(dims) {
      forall i | 0 <= i < |mapping|
        ensures mapping[i].1.dims == RowMajor.Digits(i, dims.dims)
        ensures RowMajor.Offset(mapping[i].1.dims, dims.dims) == i
      {
        AsWrittenCorrectWhenSafe(i, dims);
        RowMajor.OffsetOfDigits(i, dims.dims);
      }
    }
  }

  /** The demo's toND({2, 4, 3, 5}) as written pairs every index below 120
      with its digit vector, so its printout is the intended mapping. */
  method DemoToND() returns (mapping: seq<(nat, NDim)>)
    ensures |mapping| == 120
    ensures forall i :: 0 <= i < 120 ==>
              mapping[i].0 == i && mapping[i].1.dims == RowMajor.Digits(i, [2, 4, 3, 5])
  {
    var dims := NDim([2, 4, 3, 5]);
    assert AsWrittenSafe(dims);
    assert RowMajor.Prod(dims.dims) == 120;
    mapping := ToNDAsWritten(dims);
  }

  // ---------------------------------------------------------------------------
  // get_multi_index_impl as written
  // ---------------------------------------------------------------------------

  /** D2 * ... * Dk: the product the as-written subtrahend loop builds for
      dimension k + 1 (its loop stops before D1). */
  function MidProduct(dims: NDim, k: nat): nat
    requires 1 <= k <= |dims.dims|
  {
    RowMajor.Prod(dims.dims[|dims.dims| - k..|dims.dims| - 1])
  }

  /** get_multi_index_impl exactly as written: the subtrahend of dimension c is
      x{c-1} * D{c-1} * ... * D2, and `dividend -= part` is an unsigned 32-bit
      subtraction that wraps below zero. */
  function StepAsWritten(i: nat, dims: NDim, pos: NDim, current: nat, dividend: nat, divisor: nat): (r: NDim)
    requires RowMajor.Positive(dims.dims) && |pos.dims| == |dims.dims| >= 1
    requires 1 <= current <= |dims.dims| + 1 && i < U32 && dividend < U32
    requires current >= 2 ==> divisor > 0
    ensures |r.dims| == |dims.dims|
    ensures forall k :: 1 <= k < current ==> r.At(k) == pos.At(k)
    ensures forall k :: current <= k <= |dims.dims| ==> r.At(k) < dims.At(k)
    decreases |dims.dims| + 1 - current
  {
    if current == 1 then
      StepAsWritten(i, dims, pos.Set(1, i % dims.At(1)), current + 1, i, 1)
    else if current <= |dims.dims| then
      var part := pos.At(current - 1) * MidProduct(dims, current - 1);
      var nextDividend := (dividend - part) % U32;
      var nextDivisor := divisor * dims.At(current - 1);
      var next := pos.Set(current, (nextDividend / nextDivisor) % dims.At(current));
      StepAsWritten(i, dims, next, current + 1, nextDividend, nextDivisor)
    else
      pos
  }

  /** get_multi_index as written. */
  function MultiIndexAsWritten(i: nat, dims: NDim): (r: NDim)
    requires RowMajor.Positive(dims.dims) && dims.GetDim() >= 1 && i < U32
    ensures r.GetDim() == dims.GetDim()
    ensures r.At(1) == i % dims.At(1)
    ensures RowMajor.InBounds(r.dims, dims.dims)
  {
    var r := StepAsWritten(i, dims, Filled(dims.GetDim(), 0), 1, 0, 0);
    AtBoundsInBounds(r, dims);
    r
  }

  /** A position whose every dimension is below its extent, counted from the
      right, is in bounds. */
  lemma AtBoundsInBounds(pos: NDim, dims: NDim)
    requires |pos.dims| == |dims.dims|
    requires forall k :: 1 <= k <= |dims.dims| ==> pos.At(k) < dims.At(k)
    ensures RowMajor.InBounds(pos.dims, dims.dims)
  {
    var n := |dims.dims|;
    forall p | 0 <= p < n
      ensures pos.dims[p] < dims.dims[p]
    {
      assert pos.At(n - p) < dims.At(n - p);
    }
  }

  /** No middle dimension exceeds the lowest one: D{c} <= D1 for 2 <= c < n.
      Under this condition the as-written result is the digit vector
      (AsWrittenCorrectWhenSafe); it is sufficient, not necessary. */
  predicate AsWrittenSafe(dims: NDim)
    requires |dims.dims| >= 1
  {
    forall k :: 2 <= k < |dims.dims| ==> dims.At(k) <= dims.At(1)
  }

  lemma MidProductStep(dims: NDim, k: nat)
    requires 2 <= k <= |dims.dims|
    ensures MidProduct(dims, k) == dims.At(k) * MidProduct(dims, k - 1)
  {
    var n := |dims.dims|;
    assert dims.dims[n - k..n - 1][1..] == dims.dims[n - k + 1..n - 1];
  }

  lemma LowMidProduct(dims: NDim, k: nat)
    requires 1 <= k <= |dims.dims|
    ensures LowProduct(dims, k) == MidProduct(dims, k) * dims.At(1)
  {
    RowMajor.ProdSuffixLast(dims.dims, |dims.dims| - k);
  }

  /** Under AsWrittenSafe the as-written subtrahend of dimension k + 1 never
      exceeds the documented one. */
  lemma MidBelowLow(dims: NDim, k: nat)
    requires |dims.dims| >= 1 && AsWrittenSafe(dims) && 1 <= k < |dims.dims|
    ensures MidProduct(dims, k) <= LowProduct(dims, k - 1)
  {
    if k >= 2 {
      MidProductStep(dims, k);
      LowMidProduct(dims, k - 1);
      var m := MidProduct(dims, k - 1);
      DivMod.MulMonotone(dims.At(1), dims.At(k), m);
      assert m * dims.At(1) == dims.At(1) * m;
    }
  }

  /** The arithmetic of one as-written step: a dividend that is the right
      multiple q * w plus an excess below w, minus x * m instead of x * w with
      x = q % d and m <= w, is the next right multiple (q / d) * (w * d) plus
      an excess below w * d. */
  lemma AsWrittenStepArith(q: nat, w: nat, d: nat, m: nat, e: nat)
    requires w > 0 && d > 0 && m <= w && e < w
    ensures q * w + e >= (q % d) * m
    ensures q * w + e - (q % d) * m == (q / d) * (w * d) + (e + (q % d) * (w - m))
    ensures 0 <= (q % d) * (w - m) && e + (q % d) * (w - m) < w * d
    ensures w * d > 0
  {
    var x := q % d;
    DivMod.MulMonotone(q, x, w);
    DivMod.MulMonotone(w, m, x);
    DivMod.MulMonotone(d - 1, x, w - m);
    DivMod.MulMonotone(w, w - m, d - 1);
    assert q == (q / d) * d + x;
    assert q * w - x * w == (q / d) * (w * d) by {
      DivMod.MulAssoc(q / d, d, w);
      assert (q - x) * w == ((q / d) * d) * w;
    }
    assert x * w - x * m == x * (w - m);
    assert (d - 1) * w + w == w * d;
    DivMod.MulMonotone(x, 0, w - m);
    DivMod.MulMonotone(d, 1, w);
  }

  /** AsWrittenStepArith read on i and the 32-bit dividend: the subtraction
      does not wrap, and the next component divides out as the digit of i. */
  lemma AsWrittenDividendStep(i: nat, divisor: nat, d: nat, dNext: nat, m: nat, dividend: nat, excess: nat)
    returns (nextExcess: nat)
    requires divisor > 0 && d > 0 && dNext > 0 && m <= divisor && excess < divisor && dividend < U32
    requires dividend == (i / divisor) * divisor + excess
    ensures 0 <= dividend - ((i / divisor) % d) * m < U32
    ensures nextExcess < divisor * d
    ensures dividend - ((i / divisor) % d) * m == (i / (divisor * d)) * (divisor * d) + nextExcess
    ensures (dividend - ((i / divisor) % d) * m) % U32 == dividend - ((i / divisor) % d) * m
    ensures ((dividend - ((i / divisor) % d) * m) / (divisor * d)) % dNext == (i / (divisor * d)) % dNext
  {
    var q := i / divisor;
    var x := q % d;
    AsWrittenStepArith(q, divisor, d, m, excess);
    nextExcess := excess + x * (divisor - m);
    DivMod.DivDiv(i, divisor, d);
    var rest := dividend - x * m;
    var w, t := divisor * d, q / d;
    assert rest == t * w + nextExcess;
    assert 0 <= nextExcess < w;
    DivMod.DivModUnique(rest, w, t, nextExcess);
    DivMod.MulMonotone(x, 0, m);
    DivMod.DivModUnique(rest, U32, 0, rest);
  }

  /** Component k by the documented formula is i divided by the product of
      the k - 1 lowest dimensions, modulo Dk. */
  lemma DigitAtLow(i: nat, dims: NDim, k: nat)
    requires RowMajor.Positive(dims.dims) && 1 <= k <= |dims.dims|
    ensures DigitAt(i, dims, k) == (i / LowProduct(dims, k - 1)) % dims.At(k)
  {
    var n := |dims.dims|;
    assert n - (k - 1) == n - k + 1;
  }

  /** One step of the invariant below: from a dividend that is the documented
      multiple of LowProduct(current - 2) plus an excess below it, the
      as-written subtraction neither wraps nor leaves the documented multiple
      of LowProduct(current - 1) by more than that product. */
  lemma AsWrittenInvariantStep(i: nat, dims: NDim, pos: NDim, current: nat, dividend: nat, divisor: nat, excess: nat)
    returns (part: int, nextDividend: nat, nextDivisor: nat, nextExcess: nat, x: nat)
    requires RowMajor.Positive(dims.dims) && |pos.dims| == |dims.dims| >= 1 && AsWrittenSafe(dims)
    requires 2 <= current <= |dims.dims| && dividend < U32
    requires DigitsBelow(i, dims, pos, current)
    requires divisor == LowProduct(dims, current - 2) && excess < divisor
    requires dividend == (i / divisor) * divisor + excess
    ensures part == pos.At(current - 1) * MidProduct(dims, current - 1)
    ensures nextDividend == (dividend - part) % U32 && nextDivisor == divisor * dims.At(current - 1)
    ensures nextDividend == dividend - part < U32
    ensures nextDivisor == LowProduct(dims, current - 1) && nextExcess < nextDivisor
    ensures nextDividend == (i / nextDivisor) * nextDivisor + nextExcess
    ensures x == (nextDividend / nextDivisor) % dims.At(current) == DigitAt(i, dims, current)
    ensures DigitsBelow(i, dims, pos.Set(current, x), current + 1)
  {
    var d := dims.At(current - 1);
    var dNext := dims.At(current);
    MidBelowLow(dims, current - 1);
    LowProductStep(dims, current - 2);
    DigitAtLow(i, dims, current - 1);
    DigitAtLow(i, dims, current);
    nextExcess := AsWrittenDividendStep(i, divisor, d, dNext, MidProduct(dims, current - 1), dividend, excess);
    part := pos.At(current - 1) * MidProduct(dims, current - 1);
    nextDividend, nextDivisor := (dividend - part) % U32, divisor * d;
    x := (nextDividend / nextDivisor) % dNext;
    DigitsThrough(i, dims, pos, current, x);
  }

  /** The invariant of the as-written recursion under AsWrittenSafe: the
      dividend handed to dimension `current` is the documented multiple of
      the divisor plus an excess below the divisor, so every component comes
      out as the documented digit. */
  lemma {:induction false} StepAsWrittenCorrect(i: nat, dims: NDim, pos: NDim, current: nat, dividend: nat, divisor: nat, excess: nat)
    requires RowMajor.Positive(dims.dims) && |pos.dims| == |dims.dims| >= 1 && AsWrittenSafe(dims)
    requires 2 <= current <= |dims.dims| + 1 && i < U32 && dividend < U32
    requires DigitsBelow(i, dims, pos, current)
    requires divisor == LowProduct(dims, current - 2) && excess < divisor
    requires dividend == (i / divisor) * divisor + excess
    ensures StepAsWritten(i, dims, pos, current, dividend, divisor).dims == RowMajor.Digits(i, dims.dims)
    decreases |dims.dims| + 1 - current, 1
  {
    if current <= |dims.dims| {
      StepAsWrittenCorrectAbove(i, dims, pos, current, dividend, divisor, excess);
    } else {
      StepAsWrittenDone(i, dims, pos, dividend, divisor);
    }
  }

  /** StepAsWrittenCorrect for a dimension that is still to be set: one step
      keeps the invariant, and the rest of the recursion does the remaining
      dimensions. */
  lemma {:induction false} StepAsWrittenCorrectAbove(i: nat, dims: NDim, pos: NDim, current: nat, dividend: nat, divisor: nat,
                                                     excess: nat)
    requires RowMajor.Positive(dims.dims) && |pos.dims| == |dims.dims| >= 1 && AsWrittenSafe(dims)
    requires 2 <= current <= |dims.dims| && i < U32 && dividend < U32
    requires DigitsBelow(i, dims, pos, current)
    requires divisor == LowProduct(dims, current - 2) && excess < divisor
    requires dividend == (i / divisor) * divisor + excess
    ensures StepAsWritten(i, dims, pos, current, dividend, divisor).dims == RowMajor.Digits(i, dims.dims)
    decreases |dims.dims| + 1 - current, 0
  {
    var part, nextDividend, nextDivisor, nextExcess, x := AsWrittenInvariantStep(i, dims, pos, current, dividend, divisor, excess);
    StepAsWrittenCorrect(i, dims, pos.Set(current, x), current + 1, nextDividend, nextDivisor, nextExcess);
    StepAsWrittenLift(i, dims, pos, current, dividend, divisor, part, nextDividend, nextDivisor, x);
  }

  /** A step of the as-written recursion keeps its result, so a result that
      is the documented multi-index one dimension higher is one here too. */
  lemma StepAsWrittenLift(i: nat, dims: NDim, pos: NDim, current: nat, dividend: nat, divisor: nat,
                          part: int, nextDividend: nat, nextDivisor: nat, x: nat)
    requires RowMajor.Positive(dims.dims) && |pos.dims| == |dims.dims|
    requires 2 <= current <= |dims.dims| && i < U32 && dividend < U32 && divisor > 0
    requires part == pos.At(current - 1) * MidProduct(dims, current - 1) && nextDividend == (dividend - part) % U32
    requires nextDivisor == divisor * dims.At(current - 1)
    requires x == (nextDividend / nextDivisor) % dims.At(current)
    requires nextDividend < U32 && nextDivisor > 0
    requires StepAsWritten(i, dims, pos.Set(current, x), current + 1, nextDividend, nextDivisor).dims
          == RowMajor.Digits(i, dims.dims)
    ensures StepAsWritten(i, dims, pos, current, dividend, divisor).dims == RowMajor.Digits(i, dims.dims)
  {
    StepAsWrittenUnfold(i, dims, pos, current, dividend, divisor, part, nextDividend, nextDivisor, x);
  }

  /** Past the highest dimension the as-written recursion returns the
      position it was handed, which by then holds every documented digit. */
  lemma StepAsWrittenDone(i: nat, dims: NDim, pos: NDim, dividend: nat, divisor: nat)
    requires RowMajor.Positive(dims.dims) && |pos.dims| == |dims.dims| >= 1
    requires i < U32 && dividend < U32 && divisor > 0
    requires forall k :: 1 <= k <= |dims.dims| ==> pos.At(k) == DigitAt(i, dims, k)
    ensures StepAsWritten(i, dims, pos, |dims.dims| + 1, dividend, divisor).dims == RowMajor.Digits(i, dims.dims)
  {
    AllDigitsSet(i, dims, pos);
  }

  /** Where no middle dimension exceeds the lowest one, the as-written
      get_multi_index gives the documented multi-index. */
  lemma AsWrittenCorrectWhenSafe(i: nat, dims: NDim)
    requires RowMajor.Positive(dims.dims) && dims.GetDim() >= 1 && i < U32 && AsWrittenSafe(dims)
    ensures MultiIndexAsWritten(i, dims).dims == RowMajor.Digits(i, dims.dims)
  {
    var n := |dims.dims|;
    var pos := Filled(n, 0).Set(1, i % dims.At(1));
    assert dims.dims[n..] == [];
    StepAsWrittenCorrect(i, dims, pos, 2, i, 1, 0);
  }

  /** The shape {2, 4, 3, 5} of the prototype's own run is such a shape, so
      every index of it round-trips through the as-written code. */
  lemma AsWrittenDemoShape(i: nat)
    requires i < 120
    ensures MultiIndexAsWritten(i, NDim([2, 4, 3, 5])).dims == RowMajor.Digits(i, [2, 4, 3, 5])
    ensures RowMajor.Offset(MultiIndexAsWritten(i, NDim([2, 4, 3, 5])).dims, [2, 4, 3, 5]) == i
  {
    var dims := NDim([2, 4, 3, 5]);
    assert RowMajor.Positive(dims.dims);
    assert AsWrittenSafe(dims);
    AsWrittenCorrectWhenSafe(i, dims);
    assert RowMajor.Prod(dims.dims) == 120;
    RowMajor.OffsetOfDigits(i, dims.dims);
  }

  /** Dimensions 1 .. current - 1 of the position hold their documented
      digits. */
  ghost predicate DigitsBelow(i: nat, dims: NDim, pos: NDim, current: nat)
    requires RowMajor.Positive(dims.dims) && |pos.dims| == |dims.dims| && current <= |dims.dims| + 1
  {
    forall k :: 1 <= k < current ==> pos.At(k) == DigitAt(i, dims, k)
  }

  /** Setting component `current` to its digit extends the run of documented
      digits by one. */
  lemma DigitsThrough(i: nat, dims: NDim, pos: NDim, current: nat, x: nat)
    requires RowMajor.Positive(dims.dims) && |pos.dims| == |dims.dims|
    requires 1 <= current <= |dims.dims| && x == DigitAt(i, dims, current)
    requires forall k :: 1 <= k < current ==> pos.At(k) == DigitAt(i, dims, k)
    ensures forall k :: 1 <= k < current + 1 ==> pos.Set(current, x).At(k) == DigitAt(i, dims, k)
  {
  }

  /** One unfolding of the as-written recursion, for a dimension above the
      first, with the step's values named. */
  lemma StepAsWrittenUnfold(i: nat, dims: NDim, pos: NDim, current: nat, dividend: nat, divisor: nat,
                            part: int, nextDividend: nat, nextDivisor: nat, x: nat)
    requires RowMajor.Positive(dims.dims) && |pos.dims| == |dims.dims|
    requires 2 <= current <= |dims.dims| && i < U32 && dividend < U32 && divisor > 0
    requires part == pos.At(current - 1) * MidProduct(dims, current - 1) && nextDividend == (dividend - part) % U32
    requires nextDivisor == divisor * dims.At(current - 1)
    requires x == (nextDividend / nextDivisor) % dims.At(current)
    ensures nextDividend < U32 && nextDivisor > 0
    ensures StepAsWritten(i, dims, pos, current, dividend, divisor)
         == StepAsWritten(i, dims, pos.Set(current, x), current + 1, nextDividend, nextDivisor)
  {
    DivMod.MulMonotone(dims.At(current - 1), 1, divisor);
  }

  /** The same unfolding with the wrap-around and the quotient spelled out, for
      concrete shapes. */
  lemma StepAsWrittenUnfoldValues(i: nat, dims: NDim, pos: NDim, current: nat, dividend: nat, divisor: nat,
                                  part: nat, nextDividend: nat, nextDivisor: nat, q: nat, x: nat)
    requires RowMajor.Positive(dims.dims) && |pos.dims| == |dims.dims|
    requires 2 <= current <= |dims.dims| && i < U32 && dividend < U32 && divisor > 0
    requires part == pos.At(current - 1) * MidProduct(dims, current - 1) && part < U32
    requires nextDividend == if dividend >= part then dividend - part else dividend - part + U32
    requires nextDivisor == divisor * dims.At(current - 1) && nextDivisor > 0
    requires q * nextDivisor <= nextDividend < q * nextDivisor + nextDivisor
    requires x == q % dims.At(current)
    ensures StepAsWritten(i, dims, pos, current, dividend, divisor)
         == StepAsWritten(i, dims, pos.Set(current, x), current + 1, nextDividend, nextDivisor)
  {
    if dividend >= part {
      DivMod.DivModUnique(dividend - part, U32, 0, nextDividend);
    } else {
      DivMod.DivModUnique(dividend - part, U32, -1, nextDividend);
    }
    DivMod.DivModUnique(nextDividend, nextDivisor, q, nextDividend - q * nextDivisor);
    StepAsWrittenUnfold(i, dims, pos, current, dividend, divisor, part, nextDividend, nextDivisor, x);
  }

  /** The first call of the as-written recursion and its last one. */
  lemma StepAsWrittenEnds(i: nat, dims: NDim, pos: NDim, dividend: nat, divisor: nat)
    requires RowMajor.Positive(dims.dims) && |pos.dims| == |dims.dims| >= 1 && i < U32 && dividend < U32
    ensures MultiIndexAsWritten(i, dims)
         == StepAsWritten(i, dims, Filled(|dims.dims|, 0).Set(1, i % dims.At(1)), 2, i, 1)
    ensures divisor > 0 ==> StepAsWritten(i, dims, pos, |dims.dims| + 1, dividend, divisor) == pos
  {
  }

  /** The two steps of the as-written recursion for shape {2, 3, 2} and
      index 8: the subtrahend of dimension 3 is x2 * D2 = 3 where the formula
      asks for x2 * D1 = 2, and x3 comes out as (5 / 6) % 2 = 0. */
  lemma AsWrittenSteps8()
    ensures StepAsWritten(8, NDim([2, 3, 2]), NDim([0, 0, 0]), 2, 8, 1) == NDim([0, 1, 0])
  {
    var dims := NDim([2, 3, 2]);
    assert RowMajor.Positive(dims.dims);
    MidProducts3(dims);
    StepAsWrittenUnfoldValues(8, dims, NDim([0, 0, 0]), 2, 8, 1, 0, 8, 2, 4, 1);
    assert NDim([0, 0, 0]).Set(2, 1) == NDim([0, 1, 0]);
    StepAsWrittenUnfoldValues(8, dims, NDim([0, 1, 0]), 3, 8, 2, 3, 5, 6, 0, 0);
    assert NDim([0, 1, 0]).Set(3, 0) == NDim([0, 1, 0]);
    StepAsWrittenEnds(8, dims, NDim([0, 1, 0]), 5, 6);
  }

  /** Shape {2, 3, 2} (D1 = 2 < D2 = 3), index 8: the as-written code yields
      the position (0, 1, 0), whose linear index is 2, instead of (1, 1, 0). */
  lemma AsWrittenCounterexample()
    ensures MultiIndexAsWritten(8, NDim([2, 3, 2])).dims == [0, 1, 0]
    ensures RowMajor.Offset([0, 1, 0], [2, 3, 2]) == 2
    ensures RowMajor.Digits(8, [2, 3, 2]) == [1, 1, 0]
  {
    var dims := NDim([2, 3, 2]);
    assert RowMajor.Positive(dims.dims);
    AsWrittenSteps8();
    StepAsWrittenEnds(8, dims, NDim([0, 1, 0]), 5, 6);
    assert Filled(3, 0).Set(1, 0) == NDim([0, 0, 0]);
    Shape232Values();
  }

  lemma Shape232Values()
    ensures RowMajor.Offset([0, 1, 0], [2, 3, 2]) == 2
    ensures RowMajor.Digits(8, [2, 3, 2]) == [1, 1, 0]
  {
    Offset3(0, 1, 0, 2, 3, 2);
    Digits3(8, 2, 3, 2);
  }

  /** The two steps of the as-written recursion for shape {5, 3, 2} and
      index 2: the subtrahend 3 exceeds the dividend 2, the unsigned
      subtraction wraps to 2^32 - 1 and x3 comes out as
      ((2^32 - 1) / 6) % 5 = 2. */
  lemma AsWrittenSteps2()
    ensures StepAsWritten(2, NDim([5, 3, 2]), NDim([0, 0, 0]), 2, 2, 1) == NDim([2, 1, 0])
  {
    var dims := NDim([5, 3, 2]);
    assert RowMajor.Positive(dims.dims);
    MidProducts3(dims);
    StepAsWrittenUnfoldValues(2, dims, NDim([0, 0, 0]), 2, 2, 1, 0, 2, 2, 1, 1);
    assert NDim([0, 0, 0]).Set(2, 1) == NDim([0, 1, 0]);
    StepAsWrittenUnfoldValues(2, dims, NDim([0, 1, 0]), 3, 2, 2, 3, U32 - 1, 6, 715827882, 2);
    assert NDim([0, 1, 0]).Set(3, 2) == NDim([2, 1, 0]);
    StepAsWrittenEnds(2, dims, NDim([2, 1, 0]), U32 - 1, 6);
  }

  /** Shape {5, 3, 2}, index 2: the as-written code yields the position
      (2, 1, 0), whose linear index is 14, instead of (0, 1, 0). */
  lemma AsWrittenUnderflow()
    ensures MultiIndexAsWritten(2, NDim([5, 3, 2])).dims == [2, 1, 0]
    ensures RowMajor.Offset([2, 1, 0], [5, 3, 2]) == 14
    ensures RowMajor.Digits(2, [5, 3, 2]) == [0, 1, 0]
  {
    var dims := NDim([5, 3, 2]);
    assert RowMajor.Positive(dims.dims);
    AsWrittenSteps2();
    StepAsWrittenEnds(2, dims, NDim([2, 1, 0]), U32 - 1, 6);
    assert Filled(3, 0).Set(1, 0) == NDim([0, 0, 0]);
    Shape532Values();
  }

  lemma Shape532Values()
    ensures RowMajor.Offset([2, 1, 0], [5, 3, 2]) == 14
    ensures RowMajor.Digits(2, [5, 3, 2]) == [0, 1, 0]
  {
    Offset3(2, 1, 0, 5, 3, 2);
    Digits3(2, 5, 3, 2);
  }

  /** The as-written subtrahend products of a three-dimensional shape. */
  lemma MidProducts3(dims: NDim)
    requires |dims.dims| == 3
    ensures MidProduct(dims, 1) == 1 && MidProduct(dims, 2) == dims.dims[1]
  {
    assert dims.dims[2..2] == [];
    assert dims.dims[1..2] == [dims.dims[1]];
  }

  /** The linear index of (x, y, z) in a three-dimensional shape {a, b, c}. */
  lemma Offset3(x: nat, y: nat, z: nat, a: nat, b: nat, c: nat)
    ensures RowMajor.Offset([x, y, z], [a, b, c]) == x * (b * c) + y * c + z
  {
    var ext := [a, b, c];
    assert ext[1..] == [b, c] && ext[2..] == [c] && ext[3..] == [];
    assert RowMajor.Prod([c]) == c;
    assert RowMajor.Prod([b, c]) == b * c by { assert [b, c][1..] == [c]; }
    assert RowMajor.OffsetFrom([x, y, z], ext, 2) == z;
    assert RowMajor.OffsetFrom([x, y, z], ext, 1) == y * c + z;
  }

  /** The digits of i in a three-dimensional shape {a, b, c}. */
  lemma Digits3(i: nat, a: nat, b: nat, c: nat)
    requires a > 0 && b > 0 && c > 0
    ensures RowMajor.Digits(i, [a, b, c]) == [(i / (b * c)) % a, (i / c) % b, i % c]
  {
    var ext := [a, b, c];
    assert ext[1..] == [b, c] && ext[2..] == [c] && ext[3..] == [];
    assert RowMajor.Prod([c]) == c;
    assert RowMajor.Prod([b, c]) == b * c by { assert [b, c][1..] == [c]; }
  }
}
