/** The two-dimensional layout demo: a Y x X matrix of Point2D records in a
    buffer of Y * X elements, seen through an mdspan with layout_right or
    layout_left. Walking the matrix with the layout's fast index innermost
    stamps every record with its coordinates and the running access counter
    (starting at 1; a counter of 0 means the record was never reached). The
    demo shows that with the fast index innermost the accesses run through
    memory in order: slot k is the (k + 1)-th access. */
module TwoDData {
  import RowMajor
  import DivMod
  import Layouts

  /** A record of the demo buffer: coordinates and access counter. The
      default record is Point2D(0, 0, 0). */
  datatype Point2D = Point2D(y: nat, x: nat, counter: nat)

  /** The two layouts the demo accepts (the MdspanLayoutContinuous
      concept). */
  datatype Layout2D = Right | Left

  function Mapping2D(layout: Layout2D, ySize: nat, xSize: nat): Layouts.Mapping
  {
    match layout
    case Right => Layouts.LayoutRight([ySize, xSize])
    case Left => Layouts.LayoutLeft([ySize, xSize])
  }

  /** The record slot k holds after the walk: layout_right walks rows
      (slot k is row k / X, column k % X), layout_left walks columns (slot k
      is row k % Y, column k / Y); either way slot k is access k + 1. */
  function Expected(layout: Layout2D, ySize: nat, xSize: nat, k: nat): Point2D
    requires ySize > 0 && xSize > 0
  {
    match layout
    case Right => Point2D(k / xSize, k % xSize, k + 1)
    case Left => Point2D(k % ySize, k / ySize, k + 1)
  }

  /** The access to (y, x) writes slot y * X + x (layout_right) or
      x * Y + y (layout_left), and that slot expects exactly this record. */
  lemma WriteSlot(layout: Layout2D, ySize: nat, xSize: nat, y: nat, x: nat) returns (k: nat)
    requires y < ySize && x < xSize
    ensures k == Layouts.MapIndex(Mapping2D(layout, ySize, xSize), [y, x])
    ensures k == if layout == Right then y * xSize + x else x * ySize + y
    ensures k < ySize * xSize
    ensures Expected(layout, ySize, xSize, k) == Point2D(y, x, k + 1)
  {
    Layouts.Offsets2D(ySize, xSize, y, x, 0, 0);
    if layout == Right {
      k := y * xSize + x;
      DivMod.PairBound(y, x, ySize, xSize);
      DivMod.DivModUnique(k, xSize, y, x);
    } else {
      k := x * ySize + y;
      Layouts.LeftIsExhaustive2D(ySize, xSize, y, x);
    }
  }

  /** fullyLengthStatic2DPrint / fullyLengthDynamic2DPrint: the walk over a
      fresh buffer of default records, y outer and x inner for
      layout_right, x outer and y inner for layout_left, writing
      m[y, x] = {y, x, counter++}. Afterwards slot k holds
      Expected(layout, Y, X, k) and the counter has passed Y * X; with an
      empty extent both loops do nothing and the buffer is empty. */
  method Fill2D(layout: Layout2D, ySize: nat, xSize: nat) returns (data: array<Point2D>, counter: nat)
    ensures fresh(data) && data.Length == ySize * xSize
    ensures counter == ySize * xSize + 1
    ensures ySize > 0 && xSize > 0 ==>
              forall k | 0 <= k < data.Length :: data[k] == Expected(layout, ySize, xSize, k)
  {
    data := new Point2D[ySize * xSize](_ => Point2D(0, 0, 0));
    counter := 1;
    var outer := Outer(layout, ySize, xSize);
    var inner := Inner(layout, ySize, xSize);
    for o := 0 to outer
      invariant counter == o * inner + 1
      invariant ySize > 0 && xSize > 0 ==> forall k | 0 <= k < data.Length ::
        data[k] == if k + 1 < counter then Expected(layout, ySize, xSize, k) else Point2D(0, 0, 0)
    {
      counter := Fill2DLine(data, layout, ySize, xSize, o, counter);
    }
    assert outer * inner == ySize * xSize;
  }

  /** The inner loop of the walk for outer step o: row o (layout_right) or
      column o (layout_left), slots o * inner .. (o + 1) * inner. */
  method Fill2DLine(data: array<Point2D>, layout: Layout2D, ySize: nat, xSize: nat, o: nat, counter: nat)
    returns (counter': nat)
    requires o < Outer(layout, ySize, xSize)
    requires data.Length == ySize * xSize && counter == o * Inner(layout, ySize, xSize) + 1
    requires ySize > 0 && xSize > 0 ==> forall k | 0 <= k < data.Length ::
      data[k] == if k + 1 < counter then Expected(layout, ySize, xSize, k) else Point2D(0, 0, 0)
    modifies data
    ensures counter' == (o + 1) * Inner(layout, ySize, xSize) + 1
    ensures ySize > 0 && xSize > 0 ==> forall k | 0 <= k < data.Length ::
      data[k] == if k + 1 < counter' then Expected(layout, ySize, xSize, k) else Point2D(0, 0, 0)
  {
    var m := Mapping2D(layout, ySize, xSize);
    var inner := Inner(layout, ySize, xSize);
    counter' := counter;
    for i := 0 to inner
      invariant counter' == counter + i
      invariant ySize > 0 && xSize > 0 ==> forall k | 0 <= k < data.Length ::
        data[k] == if k + 1 < counter' then Expected(layout, ySize, xSize, k) else Point2D(0, 0, 0)
    {
      var (y, x) := Coordinates(layout, o, i);
      var slot := Layouts.MapIndex(m, [y, x]);
      WalkStep(layout, ySize, xSize, o, i);
      data[slot] := Point2D(y, x, counter');
      counter' := counter' + 1;
    }
    DivMod.AddMul(o, 1, inner);
  }

  /** The loop bounds of the walk: the slow index outer, the fast inner. */
  function Outer(layout: Layout2D, ySize: nat, xSize: nat): nat
  {
    if layout == Right then ySize else xSize
  }

  function Inner(layout: Layout2D, ySize: nat, xSize: nat): nat
  {
    if layout == Right then xSize else ySize
  }

  /** The matrix cell visited at outer step o, inner step i. */
  function Coordinates(layout: Layout2D, o: nat, i: nat): (nat, nat)
  {
    if layout == Right then (o, i) else (i, o)
  }

  /** Step (o, i) of the walk writes slot o * inner + i, inside the buffer,
      and that slot expects the record the step writes. */
  lemma WalkStep(layout: Layout2D, ySize: nat, xSize: nat, o: nat, i: nat)
    requires o < Outer(layout, ySize, xSize) && i < Inner(layout, ySize, xSize)
    ensures Coordinates(layout, o, i).0 < ySize && Coordinates(layout, o, i).1 < xSize
    ensures Layouts.MapIndex(Mapping2D(layout, ySize, xSize), [Coordinates(layout, o, i).0, Coordinates(layout, o, i).1])
            == o * Inner(layout, ySize, xSize) + i
    ensures o * Inner(layout, ySize, xSize) + i < ySize * xSize
    ensures Expected(layout, ySize, xSize, o * Inner(layout, ySize, xSize) + i)
            == Point2D(Coordinates(layout, o, i).0, Coordinates(layout, o, i).1, o * Inner(layout, ySize, xSize) + i + 1)
  {
    var (y, x) := Coordinates(layout, o, i);
    var k := WriteSlot(layout, ySize, xSize, y, x);
  }

  /** Every record of the walked buffer names the coordinates that map to
      its slot, inside the matrix, and was reached (counter != 0). */
  lemma ExpectedMapsBack(layout: Layout2D, ySize: nat, xSize: nat, k: nat)
    requires ySize > 0 && xSize > 0 && k < ySize * xSize
    ensures Expected(layout, ySize, xSize, k).y < ySize
    ensures Expected(layout, ySize, xSize, k).x < xSize
    ensures Layouts.MapIndex(Mapping2D(layout, ySize, xSize),
              [Expected(layout, ySize, xSize, k).y, Expected(layout, ySize, xSize, k).x]) == k
    ensures Expected(layout, ySize, xSize, k).counter != 0
  {
    var p := Expected(layout, ySize, xSize, k);
    if layout == Right {
      DivMod.QuotientBelow(k, xSize, ySize);
    } else {
      assert k < xSize * ySize;
      DivMod.QuotientBelow(k, ySize, xSize);
    }
    var k' := WriteSlot(layout, ySize, xSize, p.y, p.x);
  }

  /** The two layouts visit the same matrix cells in transposed orders: the
      cell layout_right stores at y * X + x, layout_left stores at x * Y + y,
      and both records name the same coordinates. */
  lemma LayoutsTranspose(ySize: nat, xSize: nat, y: nat, x: nat)
    requires y < ySize && x < xSize
    ensures Expected(Right, ySize, xSize, y * xSize + x).y == Expected(Left, ySize, xSize, x * ySize + y).y == y
    ensures Expected(Right, ySize, xSize, y * xSize + x).x == Expected(Left, ySize, xSize, x * ySize + y).x == x
  {
    var r := WriteSlot(Right, ySize, xSize, y, x);
    var l := WriteSlot(Left, ySize, xSize, y, x);
  }

  // ---------------------------------------------------------------------------
  // print2D
  // ---------------------------------------------------------------------------

  /** A full row y of the buffer ends inside it. */
  lemma RowBound(n: nat, slice: nat, y: nat)
    requires slice > 0 && y < n / slice
    ensures (y + 1) * slice <= n
  {
    DivMod.MulMonotone(n / slice, y + 1, slice);
    DivMod.SubtractMultiple(n, slice);
  }

  /** Row y of the buffer seen with row width `slice`. */
  function RowOf<T>(vec: seq<T>, slice: nat, y: nat): (row: seq<T>)
    requires slice > 0 && y < |vec| / slice
    ensures |row| == slice
  {
    RowBound(|vec|, slice, y);
    vec[y * slice..(y + 1) * slice]
  }

  /** The rows print2D writes (vec[y * slice + x] for x < slice, y < rows):
      vec.size() / slice rows, row y being the slice-wide run of the buffer
      that starts at y * slice; trailing elements that do not fill a row are
      not printed. */
  method Print2D<T>(vec: seq<T>, slice: nat) returns (rows: seq<seq<T>>)
    requires slice > 0
    ensures |rows| == |vec| / slice
    ensures forall y | 0 <= y < |rows| :: rows[y] == RowOf(vec, slice, y)
  {
    var count := |vec| / slice;
    rows := [];
    for y := 0 to count
      invariant |rows| == y
      invariant forall y' | 0 <= y' < y :: rows[y'] == RowOf(vec, slice, y')
    {
      RowBound(|vec|, slice, y);
      var row := [];
      for x := 0 to slice
        invariant row == vec[y * slice..y * slice + x]
      {
        row := row + [vec[y * slice + x]];
      }
      rows := rows + [row];
    }
  }

  /** Rows joined end to end. */
  function Concat<T>(rows: seq<seq<T>>): seq<T>
  {
    if rows == [] then [] else Concat(rows[..|rows| - 1]) + rows[|rows| - 1]
  }

  /** The first n printed rows, joined, are the first n * slice elements of
      the buffer, in memory order. */
  lemma {:induction false} RowsConcat<T>(vec: seq<T>, slice: nat, rows: seq<seq<T>>, n: nat)
    requires slice > 0 && |rows| == |vec| / slice && n <= |rows|
    requires forall y | 0 <= y < |rows| :: rows[y] == RowOf(vec, slice, y)
    ensures n * slice <= |vec|
    ensures Concat(rows[..n]) == vec[..n * slice]
  {
    if n > 0 {
      RowBound(|vec|, slice, n - 1);
      var lo, hi := (n - 1) * slice, n * slice;
      assert lo + slice == hi;
      assert rows[..n][..n - 1] == rows[..n - 1];
      assert Concat(rows[..n]) == Concat(rows[..n - 1]) + rows[n - 1];
      RowsConcat(vec, slice, rows, n - 1);
      assert rows[n - 1] == vec[lo..hi];
      assert vec[..hi] == vec[..lo] + vec[lo..hi];
    }
  }

  /** print2D shows the whole buffer when its size is a multiple of the row
      width, as in every call of the demos. */
  lemma PrintShowsAll<T>(vec: seq<T>, slice: nat, rows: seq<seq<T>>)
    requires slice > 0 && |vec| % slice == 0 && |rows| == |vec| / slice
    requires forall y | 0 <= y < |rows| :: rows[y] == RowOf(vec, slice, y)
    ensures Concat(rows) == vec
  {
    DivMod.SubtractMultiple(|vec|, slice);
    assert rows[..|rows|] == rows;
    RowsConcat(vec, slice, rows, |rows|);
  }

  /** The indent_str of print2D: `indent` spaces. */
  method IndentString(indent: nat) returns (s: string)
    ensures |s| == indent && forall i | 0 <= i < indent :: s[i] == ' '
  {
    s := "";
    for i := 0 to indent
      invariant |s| == i && forall i' | 0 <= i' < i :: s[i'] == ' '
    {
      s := s + " ";
    }
  }

  // ---------------------------------------------------------------------------
  // the demo
  // ---------------------------------------------------------------------------

  /** One call of the demo with a 5 x 9 matrix: the walk, then print2D with
      row width X for layout_right and Y for layout_left. Every printed row
      is one run of the fast index: under layout_right row y holds
      (y, 0) .. (y, 8), under layout_left row x holds (0, x) .. (4, x), and
      the counters run 1 .. 45 through the rows in order. */
  method Demo2D(layout: Layout2D) returns (rows: seq<seq<Point2D>>)
    ensures |rows| == (if layout == Right then 5 else 9)
    ensures forall r, c | 0 <= r < |rows| && 0 <= c < |rows[r]| ::
      rows[r][c] == (if layout == Right then Point2D(r, c, r * 9 + c + 1) else Point2D(c, r, r * 5 + c + 1))
  {
    var data, counter := Fill2D(layout, 5, 9);
    var slice := if layout == Right then 9 else 5;
    rows := Print2D(data[..], slice);
    forall r, c | 0 <= r < |rows| && 0 <= c < |rows[r]|
      ensures rows[r][c] == (if layout == Right then Point2D(r, c, r * 9 + c + 1) else Point2D(c, r, r * 5 + c + 1))
    {
      var k := r * slice + c;
      assert rows[r][c] == data[k];
      DivMod.DivModUnique(k, slice, r, c);
    }
  }
}
