/** The first mdspan demo: one buffer of Z * Y * X ints seen both as a 3D
    mdspan (layout_right, extents {Z, Y, X}) and as a 1D mdspan of extent
    Z * Y * X. Writing a running access counter through the 3D view with x
    innermost fills the buffer with 0, 1, 2, ...; the 1D view then reads
    element i as i. */
module HelloMdspan {
  import DivMod
  import RowMajor
  import Layouts
  import Text

  /** The 3D offset of layout_right: (z * Y + y) * X + x. */
  lemma Offset3D(zSize: nat, ySize: nat, xSize: nat, z: nat, y: nat, x: nat)
    ensures Layouts.MapIndex(Layouts.LayoutRight([zSize, ySize, xSize]), [z, y, x]) == (z * ySize + y) * xSize + x
  {
    var ext := [zSize, ySize, xSize];
    assert ext[1..] == [ySize, xSize] && ext[2..] == [xSize] && ext[3..] == [];
    RowMajor.Prod2(ySize, xSize);
    assert RowMajor.Prod([xSize]) == xSize;
    var st := Layouts.Strides(Layouts.LayoutRight(ext));
    assert st == [ySize * xSize, xSize, 1];
    var idx := [z, y, x];
    assert Layouts.DotFrom(idx, st, 2) == x;
    assert Layouts.DotFrom(idx, st, 1) == y * xSize + x;
    assert z * (ySize * xSize) + y * xSize == (z * ySize + y) * xSize;
  }

  /** The one-dimensional layout_right view reads slot i at index i. */
  lemma Offset1D(n: nat, i: nat)
    ensures Layouts.MapIndex(Layouts.LayoutRight([n]), [i]) == i
  {
    assert [n][1..] == [];
    assert RowMajor.Prod([]) == 1;
    assert Layouts.Strides(Layouts.LayoutRight([n])) == [1];
    assert Layouts.DotFrom([i], [1], 1) == 0;
  }

  /** The nested z / y / x loops assigning mdspan3D[z, y, x] =
      access_counter++ over a zeroed buffer: every element ends up holding
      its own offset and the counter ends at Z * Y * X. */
  method Fill3D(zSize: nat, ySize: nat, xSize: nat) returns (data: array<int>, accessCounter: int)
    ensures fresh(data) && data.Length == zSize * ySize * xSize
    ensures accessCounter == zSize * ySize * xSize
    ensures forall i | 0 <= i < data.Length :: data[i] == i
  {
    data := new int[zSize * ySize * xSize](_ => 0);
    accessCounter := 0;
    var m := Layouts.LayoutRight([zSize, ySize, xSize]);
    for z := 0 to zSize
      invariant accessCounter == z * ySize * xSize
      invariant forall i | 0 <= i < data.Length :: data[i] == if i < accessCounter then i else 0
    {
      accessCounter := FillPlane(data, m, zSize, ySize, xSize, z, accessCounter);
    }
  }

  /** The y and x loops for one z: the plane z * Y * X .. (z + 1) * Y * X. */
  method FillPlane(data: array<int>, m: Layouts.Mapping, zSize: nat, ySize: nat, xSize: nat, z: nat, accessCounter: int)
    returns (counter: int)
    requires m == Layouts.LayoutRight([zSize, ySize, xSize]) && z < zSize
    requires data.Length == zSize * ySize * xSize && accessCounter == z * ySize * xSize
    requires forall i | 0 <= i < data.Length :: data[i] == if i < accessCounter then i else 0
    modifies data
    ensures counter == (z + 1) * ySize * xSize
    ensures forall i | 0 <= i < data.Length :: data[i] == if i < counter then i else 0
  {
    counter := accessCounter;
    DivMod.AddMul(z * ySize, 0, xSize);
    for y := 0 to ySize
      invariant counter == (z * ySize + y) * xSize
      invariant forall i | 0 <= i < data.Length :: data[i] == if i < counter then i else 0
    {
      counter := FillRow(data, m, zSize, ySize, xSize, z, y, counter);
      DivMod.AddMul(z * ySize + y, 1, xSize);
    }
    DivMod.AddMul(z, 1, ySize);
  }

  /** The x loop for one (z, y): the row (z * Y + y) * X .. (z * Y + y + 1) * X. */
  method FillRow(data: array<int>, m: Layouts.Mapping, zSize: nat, ySize: nat, xSize: nat, z: nat, y: nat,
                 accessCounter: int)
    returns (counter: int)
    requires m == Layouts.LayoutRight([zSize, ySize, xSize]) && z < zSize && y < ySize
    requires data.Length == zSize * ySize * xSize && accessCounter == (z * ySize + y) * xSize
    requires forall i | 0 <= i < data.Length :: data[i] == if i < accessCounter then i else 0
    modifies data
    ensures counter == accessCounter + xSize
    ensures forall i | 0 <= i < data.Length :: data[i] == if i < counter then i else 0
  {
    counter := accessCounter;
    for x := 0 to xSize
      invariant counter == accessCounter + x
      invariant forall i | 0 <= i < data.Length :: data[i] == if i < counter then i else 0
    {
      Offset3D(zSize, ySize, xSize, z, y, x);
      Slot3DBound(zSize, ySize, xSize, z, y, x);
      data[Layouts.MapIndex(m, [z, y, x])] := counter;
      counter := counter + 1;
    }
  }

  /** Inside the extents, the 3D offset lies inside the buffer. */
  lemma Slot3DBound(zSize: nat, ySize: nat, xSize: nat, z: nat, y: nat, x: nat)
    requires z < zSize && y < ySize && x < xSize
    ensures (z * ySize + y) * xSize + x < zSize * ySize * xSize
  {
    DivMod.PairBound(z, y, zSize, ySize);
    DivMod.PairBound(z * ySize + y, x, zSize * ySize, xSize);
  }

  /** The are_equal check: mdspan1D[i] == i for every i below the total,
      reading through the one-dimensional view. The flag is set exactly
      when every element equals its index. */
  method AreEqual(data: array<int>) returns (areEqual: bool)
    ensures areEqual <==> forall i | 0 <= i < data.Length :: data[i] == i
  {
    var total := data.Length;
    var view := Layouts.LayoutRight([total]);
    areEqual := true;
    for i := 0 to total
      invariant areEqual <==> forall i' | 0 <= i' < i :: data[i'] == i'
    {
      Offset1D(total, i);
      if data[Layouts.MapIndex(view, [i])] != i {
        areEqual := false;
      }
    }
  }

  /** operator<< for std::vector: "[", the elements with a single space
      between neighbours (written after element i when i < size - 1),
      "]". The elements arrive already formatted. */
  method PrintVector(items: seq<string>) returns (s: string)
    ensures s == "[" + Text.Join(items, " ") + "]"
  {
    s := "[";
    for i := 0 to |items|
      invariant s == "[" + Text.Join(items[..i], " ") + (if 0 < i < |items| then " " else "")
    {
      assert items[..i + 1][..i] == items[..i];
      s := s + items[i];
      if i < |items| - 1 {
        s := s + " ";
      }
    }
    assert items[..|items|] == items;
    s := s + "]";
  }

  /** The demo: extents {4, 5, 2}. The 1D view has extent 40, the counter
      ends at 40 and the equality check succeeds. */
  method Demo() returns (extent1D: nat, accessCounter: int, areEqual: bool)
    ensures extent1D == 40 && accessCounter == 40 && areEqual
  {
    var data;
    data, accessCounter := Fill3D(4, 5, 2);
    extent1D := Layouts.Size(Layouts.LayoutRight([data.Length]));
    assert [data.Length][1..] == [];
    assert RowMajor.Prod([data.Length]) == data.Length * RowMajor.Prod([]);
    areEqual := AreEqual(data);
  }
}
