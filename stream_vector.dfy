/** MyVector: a std::vector with `merge` (a new vector holding this vector's
    elements followed by the other's) and `<<` as its operator spelling,
    plus the list printer "[a, b, c]". */
module StreamVector {
  import Text

  class MyVector<T> {
    var elems: seq<T>

    /** MyVector(std::initializer_list): the listed elements. */
    constructor FromList(list: seq<T>)
      ensures elems == list
    {
      elems := list;
    }

    /** The copy constructor: a separate vector with the same elements. */
    constructor Copy(other: MyVector<T>)
      ensures elems == other.elems
    {
      elems := other.elems;
    }

    /** push_back, the effect of one step of the back_inserter copy. */
    method PushBack(x: T)
      modifies this
      ensures elems == old(elems) + [x]
    {
      elems := elems + [x];
    }

    /** merge: copy this vector, then append the other's elements one by
      one. The result is a new vector; neither operand changes. */
    method Merge(other: MyVector<T>) returns (merged: MyVector<T>)
      ensures fresh(merged)
      ensures merged.elems == elems + other.elems
      ensures elems == old(elems) && other.elems == old(other.elems)
    {
      merged := new MyVector.Copy(this);
      for i := 0 to |other.elems|
        invariant fresh(merged)
        invariant merged.elems == elems + other.elems[..i]
      {
        assert other.elems[..i + 1] == other.elems[..i] + [other.elems[i]];
        merged.PushBack(other.elems[i]);
      }
      assert other.elems[..|other.elems|] == other.elems;
    }
  }

  /** operator<<(MyVector, MyVector): v1.merge(v2). */
  method Shift<T>(v1: MyVector<T>, v2: MyVector<T>) returns (r: MyVector<T>)
    ensures fresh(r)
    ensures r.elems == v1.elems + v2.elems
  {
    r := v1.Merge(v2);
  }

  /** Nesting merges to the right and chaining << to the left give the same
      elements: v1.merge(v2.merge(v3)) and v1 << v2 << v3 are both v1's,
      v2's and v3's elements in that order. */
  method NestedEqualsChained<T>(v1: MyVector<T>, v2: MyVector<T>, v3: MyVector<T>)
    returns (nested: seq<T>, chained: seq<T>)
    ensures nested == chained == v1.elems + v2.elems + v3.elems
  {
    var inner := v2.Merge(v3);
    var n := v1.Merge(inner);
    var left := Shift(v1, v2);
    var c := Shift(left, v3);
    nested, chained := n.elems, c.elems;
  }

  /** operator<<(ostream, MyVector): "[", the elements with ", " after every
      element but the last (i != size - 1), "]". The elements arrive
      already formatted. */
  method PrintMyVector(items: seq<string>) returns (s: string)
    ensures s == "[" + Text.Join(items, ", ") + "]"
  {
    s := "[";
    for i := 0 to |items|
      invariant s == "[" + Text.Join(items[..i], ", ") + (if 0 < i < |items| then ", " else "")
    {
      assert items[..i + 1][..i] == items[..i];
      s := s + items[i];
      if i != |items| - 1 {
        s := s + ", ";
      }
    }
    assert items[..|items|] == items;
    s := s + "]";
  }

  /** The printout of a merge is the two printouts' contents joined by one
      separator: printing v1 << v2 shows v1's elements, ", ", v2's. */
  lemma PrintMerged(a: seq<string>, b: seq<string>)
    requires |a| > 0 && |b| > 0
    ensures "[" + Text.Join(a + b, ", ") + "]" == "[" + Text.Join(a, ", ") + ", " + Text.Join(b, ", ") + "]"
  {
    Text.JoinAppend(a, b, ", ");
  }

  /** The first half of the demo: v1 = {1, 2, 3}, v2 = {4, 5, 6},
      v3 = {7, 8, 9}; v1.merge(v2.merge(v3)) and v123 = v1 << v2 << v3
      both hold 1 .. 9. */
  method Demo123() returns (nested: seq<int>, v123: seq<int>)
    ensures nested == v123 == [1, 2, 3, 4, 5, 6, 7, 8, 9]
  {
    var v1 := new MyVector.FromList([1, 2, 3]);
    var v2 := new MyVector.FromList([4, 5, 6]);
    var v3 := new MyVector.FromList([7, 8, 9]);
    nested, v123 := NestedEqualsChained(v1, v2, v3);
  }

  /** The second half of the demo as written: it prints
      v3.merge(v1.merge(v2)) (7, 8, 9, 1 .. 6) but then assigns
      v312 = v1 << v2 << v3, which holds 1 .. 9, so the vector named and
      printed as v312 differs from the merge printed above it. */
  method Demo312AsWritten() returns (nested: seq<int>, v312: seq<int>)
    ensures nested == [7, 8, 9, 1, 2, 3, 4, 5, 6]
    ensures v312 == [1, 2, 3, 4, 5, 6, 7, 8, 9]
    ensures v312 != nested
  {
    var v1 := new MyVector.FromList([1, 2, 3]);
    var v2 := new MyVector.FromList([4, 5, 6]);
    var v3 := new MyVector.FromList([7, 8, 9]);
    var chained;
    nested, chained := NestedEqualsChained(v3, v1, v2);
    var left := Shift(v1, v2);
    var r := Shift(left, v3);
    v312 := r.elems;
    assert v312[0] != nested[0];
  }

  /** The second half of the demo with v312 = v3 << v1 << v2, the chain
      the name and the lines above it describe: it equals
      v3.merge(v1.merge(v2)). */
  method Demo312() returns (nested: seq<int>, v312: seq<int>)
    ensures nested == v312 == [7, 8, 9, 1, 2, 3, 4, 5, 6]
  {
    var v1 := new MyVector.FromList([1, 2, 3]);
    var v2 := new MyVector.FromList([4, 5, 6]);
    var v3 := new MyVector.FromList([7, 8, 9]);
    nested, v312 := NestedEqualsChained(v3, v1, v2);
  }
}
