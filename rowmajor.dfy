/** Row-major (mixed-radix) indexing over an extent vector whose first entry is
    the slowest-varying dimension and whose last entry is the fastest. Both the
    NDim prototype (largest dimension stored left, dimension 1 rightmost) and the
    mdspan extents use this storage order, so both are stated against it. */
module RowMajor {
  import DivMod

  /** Product of a sequence of extents; 1 for the empty sequence. */
  function Prod(s: seq<nat>): (r: nat)
    ensures Positive(s) ==> r > 0
  {
    if s == [] then 1 else s[0] * Prod(s[1..])
  }

  predicate Positive(ext: seq<nat>)
  {
    forall p :: 0 <= p < |ext| ==> ext[p] > 0
  }

  /** A multi-index lies inside the extents: one component per dimension, each
      below its extent. */
  predicate InBounds(idx: seq<nat>, ext: seq<nat>)
  {
    |idx| == |ext| && forall p :: 0 <= p < |idx| ==> idx[p] < ext[p]
  }

  /** Sum over the dimensions p' >= p of idx[p'] times the product of the
      extents to the right of p'. OffsetFrom(idx, ext, 0) is the row-major
      offset. */
  function OffsetFrom(idx: seq<nat>, ext: seq<nat>, p: nat): nat
    requires |idx| == |ext| && p <= |ext|
    decreases |ext| - p
  {
    if p == |ext| then 0 else idx[p] * Prod(ext[p + 1..]) + OffsetFrom(idx, ext, p + 1)
  }

  function Offset(idx: seq<nat>, ext: seq<nat>): nat
    requires |idx| == |ext|
  {
    OffsetFrom(idx, ext, 0)
  }

  /** Component p of the multi-index of linear index i:
      (i / product of the extents right of p) % ext[p]. */
  function Digit(i: nat, ext: seq<nat>, p: nat): (d: nat)
    requires Positive(ext) && p < |ext|
    ensures d < ext[p]
  {
    (i / Prod(ext[p + 1..])) % ext[p]
  }

  /** The multi-index of linear index i, computed with the divisor/modulo
      formula, one component per dimension. */
  function Digits(i: nat, ext: seq<nat>): (idx: seq<nat>)
    requires Positive(ext)
    ensures InBounds(idx, ext)
  {
    seq(|ext|, p requires 0 <= p < |ext| => Digit(i, ext, p))
  }

  /** Splitting off the first extent of a suffix. */
  lemma ProdSplit(ext: seq<nat>, p: nat)
    requires p < |ext|
    ensures Prod(ext[p..]) == ext[p] * Prod(ext[p + 1..])
  {
    assert ext[p..][1..] == ext[p + 1..];
  }

  /** Appending an extent multiplies the product by it. */
  lemma {:induction false} ProdAppend(s: seq<nat>, v: nat)
    ensures Prod(s + [v]) == Prod(s) * v
  {
    if s != [] {
      assert (s + [v])[1..] == s[1..] + [v];
      ProdAppend(s[1..], v);
      assert s[0] * (Prod(s[1..]) * v) == (s[0] * Prod(s[1..])) * v;
    }
  }

  /** Extending a slice by one extent on the right multiplies its product. */
  lemma ProdSliceStep(s: seq<nat>, a: nat, b: nat)
    requires a <= b < |s|
    ensures Prod(s[a..b + 1]) == Prod(s[a..b]) * s[b]
    ensures Prod(s[a..b + 1]) == s[b] * Prod(s[a..b])
  {
    assert s[a..b + 1] == s[a..b] + [s[b]];
    ProdAppend(s[a..b], s[b]);
  }

  /** A non-empty suffix is its part before the last extent, times that extent. */
  lemma ProdSuffixLast(s: seq<nat>, a: nat)
    requires a < |s|
    ensures Prod(s[a..]) == Prod(s[a..|s| - 1]) * s[|s| - 1]
  {
    ProdSliceStep(s, a, |s| - 1);
    assert s[a..|s|] == s[a..];
  }

  /** The offset of an in-bounds multi-index over the dimensions from p on
      stays below the product of those extents. */
  lemma {:induction false} OffsetFromBound(idx: seq<nat>, ext: seq<nat>, p: nat)
    requires InBounds(idx, ext) && p <= |ext|
    ensures OffsetFrom(idx, ext, p) < Prod(ext[p..])
    decreases |ext| - p
  {
    if p < |ext| {
      OffsetFromBound(idx, ext, p + 1);
      ProdSplit(ext, p);
      DivMod.NextMultiple(idx[p], ext[p], Prod(ext[p + 1..]));
    }
  }

  lemma OffsetBound(idx: seq<nat>, ext: seq<nat>)
    requires InBounds(idx, ext)
    ensures Offset(idx, ext) < Prod(ext)
  {
    OffsetFromBound(idx, ext, 0);
    assert ext[0..] == ext;
  }

  /** The offset of the digits of i over the dimensions from p on is i modulo
      the product of those extents. */
  lemma {:induction false} OffsetFromDigits(i: nat, ext: seq<nat>, p: nat)
    requires Positive(ext) && p <= |ext|
    ensures OffsetFrom(Digits(i, ext), ext, p) == i % Prod(ext[p..])
    decreases |ext| - p
  {
    if p < |ext| {
      OffsetFromDigits(i, ext, p + 1);
      ProdSplit(ext, p);
      DivMod.ModProduct(i, Prod(ext[p + 1..]), ext[p]);
    }
  }

  /** Linear -> multi -> linear: the offset of the digits is the index itself. */
  lemma OffsetOfDigits(i: nat, ext: seq<nat>)
    requires Positive(ext) && i < Prod(ext)
    ensures Offset(Digits(i, ext), ext) == i
  {
    OffsetFromDigits(i, ext, 0);
    assert ext[0..] == ext;
    DivMod.DivModUnique(i, Prod(ext), 0, i);
  }

  /** Two in-bounds multi-indices with the same offset over the dimensions
      from p on agree on those dimensions. */
  lemma {:induction false} OffsetFromInjective(a: seq<nat>, b: seq<nat>, ext: seq<nat>, p: nat)
    requires InBounds(a, ext) && InBounds(b, ext) && p <= |ext|
    requires OffsetFrom(a, ext, p) == OffsetFrom(b, ext, p)
    ensures a[p..] == b[p..]
    decreases |ext| - p
  {
    if p < |ext| {
      var w := Prod(ext[p + 1..]);
      OffsetFromBound(a, ext, p + 1);
      OffsetFromBound(b, ext, p + 1);
      DivMod.DivModUnique(OffsetFrom(a, ext, p), w, a[p], OffsetFrom(a, ext, p + 1));
      DivMod.DivModUnique(OffsetFrom(b, ext, p), w, b[p], OffsetFrom(b, ext, p + 1));
      OffsetFromInjective(a, b, ext, p + 1);
      assert a[p..] == [a[p]] + a[p + 1..];
      assert b[p..] == [b[p]] + b[p + 1..];
    }
  }

  lemma OffsetInjective(a: seq<nat>, b: seq<nat>, ext: seq<nat>)
    requires InBounds(a, ext) && InBounds(b, ext) && Offset(a, ext) == Offset(b, ext)
    ensures a == b
  {
    OffsetFromInjective(a, b, ext, 0);
  }

  /** Multi -> linear -> multi: the digits of an in-bounds offset give back the
      multi-index. */
  lemma DigitsOfOffset(idx: seq<nat>, ext: seq<nat>)
    requires Positive(ext) && InBounds(idx, ext)
    ensures Digits(Offset(idx, ext), ext) == idx
  {
    var i := Offset(idx, ext);
    OffsetBound(idx, ext);
    OffsetOfDigits(i, ext);
    OffsetInjective(Digits(i, ext), idx, ext);
  }

  /** A zero extent empties the index space. */
  lemma {:induction false} ProdZero(s: seq<nat>)
    requires !Positive(s)
    ensures Prod(s) == 0
  {
    if s[0] != 0 {
      assert !Positive(s[1..]) by {
        var p :| 0 <= p < |s| && s[p] == 0;
        assert s[1..][p - 1] == 0;
      }
      ProdZero(s[1..]);
    }
  }

  /** There is an element exactly when every extent is non-zero. */
  lemma ProdPositiveIff(s: seq<nat>)
    ensures Prod(s) > 0 <==> Positive(s)
  {
    if !Positive(s) {
      ProdZero(s);
    }
  }

  /** The size of a two-dimensional extent. */
  lemma Prod2(a: nat, b: nat)
    ensures Prod([a, b]) == a * b
  {
    assert [a, b][1..] == [b] && [b][1..] == [];
    assert Prod([b]) == b * Prod([]);
  }
}
