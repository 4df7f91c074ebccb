/** The padded two-dimensional layout demo: a Y x X matrix of Point2D
    records stored row by row with `pad` unused slots after every row, seen
    through a layout_stride mdspan with strides {X + pad, 1} over a buffer of
    Y * (X + pad) records. The row-by-row walk stamps each element with its
    coordinates and the running access counter; the padding slots keep the
    default record, whose counter 0 means "never accessed". */
module TwoDPadding {
  import DivMod
  import Layouts
  import TwoDData

  type Point2D = TwoDData.Point2D

  /** The strided mapping of the demo: extents {Y, X}, strides {X + pad, 1}. */
  function PaddedMapping(ySize: nat, xSize: nat, pad: nat): Layouts.Mapping
  {
    Layouts.LayoutStride([ySize, xSize], [xSize + pad, 1])
  }

  /** The record slot k of the padded buffer holds after the walk: in a
      data column (k % (X + pad) < X) the element at row k / (X + pad) and
      that column, stamped with its position in the row-by-row walk; in a
      padding column the default record. */
  function PaddedExpected(ySize: nat, xSize: nat, pad: nat, k: nat): Point2D
    requires k < ySize * (xSize + pad)
  {
    var w := xSize + pad;
    if k % w < xSize then TwoDData.Point2D(k / w, k % w, (k / w) * xSize + k % w + 1)
    else TwoDData.Point2D(0, 0, 0)
  }

  /** The access to (y, x) writes slot y * (X + pad) + x, and that slot
      expects exactly the record with counter y * X + x + 1. */
  lemma PaddedWriteSlot(ySize: nat, xSize: nat, pad: nat, y: nat, x: nat) returns (k: nat)
    requires y < ySize && x < xSize
    ensures k == Layouts.MapIndex(PaddedMapping(ySize, xSize, pad), [y, x])
    ensures k == y * (xSize + pad) + x && k < ySize * (xSize + pad)
    ensures k / (xSize + pad) == y && k % (xSize + pad) == x
    ensures PaddedExpected(ySize, xSize, pad, k) == TwoDData.Point2D(y, x, y * xSize + x + 1)
  {
    Layouts.PaddedStride2D(ySize, xSize, pad, y, x);
    k := y * (xSize + pad) + x;
  }

  /** fullyLengthStatic2DPrint of the padded demo: a fresh buffer of
      Y * (X + pad) default records, walked y outer and x inner with
      m[y, x] = {y, x, counter++}. Afterwards every slot holds its
      expected record (FilledBelow up to the whole buffer: slot k holds
      PaddedExpected(Y, X, pad, k)) and the counter has passed Y * X. */
  method FillPadded(ySize: nat, xSize: nat, pad: nat) returns (data: array<Point2D>, counter: nat)
    ensures fresh(data) && data.Length == ySize * (xSize + pad)
    ensures counter == ySize * xSize + 1
    ensures FilledBelow(data, ySize, xSize, pad, data.Length)
  {
    data := new Point2D[ySize * (xSize + pad)](_ => TwoDData.Point2D(0, 0, 0));
    counter := 1;
    for y := 0 to ySize
      invariant counter == y * xSize + 1
      invariant FilledBelow(data, ySize, xSize, pad, y * (xSize + pad))
    {
      counter := FillPaddedRow(data, ySize, xSize, pad, y, counter);
    }
  }

  /** The slots below `bound` hold their expected record, the others the
      default record. */
  ghost predicate FilledBelow(data: array<Point2D>, ySize: nat, xSize: nat, pad: nat, bound: nat)
    reads data
  {
    data.Length == ySize * (xSize + pad) &&
    forall k | 0 <= k < data.Length ::
      data[k] == if k < bound then PaddedExpected(ySize, xSize, pad, k) else TwoDData.Point2D(0, 0, 0)
  }

  /** The inner loop of the padded walk: row y, x from 0 to X, writing
      m[y, x] = {y, x, counter++}. The row's padding slots already hold the
      default record they are expected to hold. */
  method FillPaddedRow(data: array<Point2D>, ySize: nat, xSize: nat, pad: nat, y: nat, counter: nat)
    returns (counter': nat)
    requires y < ySize
    requires counter == y * xSize + 1 && FilledBelow(data, ySize, xSize, pad, y * (xSize + pad))
    modifies data
    ensures counter' == (y + 1) * xSize + 1
    ensures FilledBelow(data, ySize, xSize, pad, (y + 1) * (xSize + pad))
  {
    var m := PaddedMapping(ySize, xSize, pad);
    var w := xSize + pad;
    counter' := counter;
    for x := 0 to xSize
      invariant counter' == y * xSize + x + 1
      invariant FilledBelow(data, ySize, xSize, pad, y * w + x)
    {
      var slot := PaddedWriteSlot(ySize, xSize, pad, y, x);
      data[Layouts.MapIndex(m, [y, x])] := TwoDData.Point2D(y, x, counter');
      counter' := counter' + 1;
    }
    RowEndPadding(y, w, xSize);
    DivMod.AddMul(y, 1, w);
    DivMod.AddMul(y, 1, xSize);
  }

  /** The slots of row y after its first X are padding columns. */
  lemma RowEndPadding(y: nat, w: nat, xSize: nat)
    requires xSize <= w
    ensures forall k | y * w + xSize <= k < y * w + w :: k % w >= xSize
  {
    forall k | y * w + xSize <= k < y * w + w
      ensures k % w >= xSize
    {
      DivMod.DivModUnique(k, w, y, k - y * w);
    }
  }

  /** A slot was never accessed (counter 0) exactly when it is padding. */
  lemma PaddingNeverAccessed(ySize: nat, xSize: nat, pad: nat, k: nat)
    requires k < ySize * (xSize + pad)
    ensures PaddedExpected(ySize, xSize, pad, k).counter == 0 <==> k % (xSize + pad) >= xSize
  {
  }

  /** Every accessed record names an element of the matrix, and the strided
      mapping sends those coordinates back to its slot. */
  lemma PaddedMapsBack(ySize: nat, xSize: nat, pad: nat, k: nat)
    requires k < ySize * (xSize + pad) && k % (xSize + pad) < xSize
    ensures PaddedExpected(ySize, xSize, pad, k).y < ySize
    ensures PaddedExpected(ySize, xSize, pad, k).x < xSize
    ensures Layouts.MapIndex(PaddedMapping(ySize, xSize, pad),
              [PaddedExpected(ySize, xSize, pad, k).y, PaddedExpected(ySize, xSize, pad, k).x]) == k
  {
    var w := xSize + pad;
    DivMod.QuotientBelow(k, w, ySize);
    var k' := PaddedWriteSlot(ySize, xSize, pad, k / w, k % w);
  }

  /** No element is written twice: distinct coordinates of the matrix land
      on distinct slots of the padded buffer. */
  lemma PaddedOffsetsDistinct(ySize: nat, xSize: nat, pad: nat, y1: nat, x1: nat, y2: nat, x2: nat)
    requires y1 < ySize && x1 < xSize && y2 < ySize && x2 < xSize
    ensures Layouts.MapIndex(PaddedMapping(ySize, xSize, pad), [y1, x1])
         == Layouts.MapIndex(PaddedMapping(ySize, xSize, pad), [y2, x2])
        <==> y1 == y2 && x1 == x2
  {
    var k1 := PaddedWriteSlot(ySize, xSize, pad, y1, x1);
    var k2 := PaddedWriteSlot(ySize, xSize, pad, y2, x2);
  }

  /** The walk runs through memory in order: of two accessed slots, the
      lower one was accessed first. */
  lemma PaddedAccessInMemoryOrder(ySize: nat, xSize: nat, pad: nat, k1: nat, k2: nat)
    requires k1 < k2 < ySize * (xSize + pad)
    requires k1 % (xSize + pad) < xSize && k2 % (xSize + pad) < xSize
    ensures PaddedExpected(ySize, xSize, pad, k1).counter < PaddedExpected(ySize, xSize, pad, k2).counter
  {
    var w := xSize + pad;
    var y1, x1, y2, x2 := k1 / w, k1 % w, k2 / w, k2 % w;
    if y1 == y2 {
      assert x1 < x2;
    } else {
      if y1 > y2 {
        DivMod.MulMonotone(y1, y2 + 1, w);
        assert false;
      }
      DivMod.MulMonotone(y2, y1 + 1, xSize);
      assert y1 * xSize + x1 + 1 <= (y1 + 1) * xSize;
    }
  }

  /** The demo with Y = 5, X = 9, pad = 2: print2D with row width 11 shows
      five rows, each the nine elements of its matrix row, counted on from
      the row before, followed by two never-accessed padding records. */
  method DemoPadded2D() returns (rows: seq<seq<Point2D>>)
    ensures |rows| == 5
    ensures forall r, c | 0 <= r < 5 && 0 <= c < |rows[r]| ::
      rows[r][c] == if c < 9 then TwoDData.Point2D(r, c, r * 9 + c + 1) else TwoDData.Point2D(0, 0, 0)
  {
    var data, counter := FillPadded(5, 9, 2);
    rows := TwoDData.Print2D(data[..], 11);
    forall r, c | 0 <= r < 5 && 0 <= c < |rows[r]|
      ensures rows[r][c] == if c < 9 then TwoDData.Point2D(r, c, r * 9 + c + 1) else TwoDData.Point2D(0, 0, 0)
    {
      var k := r * 11 + c;
      assert rows[r][c] == data[k];
      DivMod.DivModUnique(k, 11, r, c);
    }
  }
}
