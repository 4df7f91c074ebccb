/** Facts about Dafny's (Euclidean) division and remainder on natural numbers
    that the index mappings rely on. On non-negative operands they agree with
    the truncating unsigned division of the C++ sources. */
module DivMod {

  /** Quotient and remainder are unique: whoever writes n as q * d + r with a
      remainder below d has found n / d and n % d. */
  lemma DivModUnique(n: int, d: int, q: int, r: int)
    requires d > 0 && 0 <= r < d && n == q * d + r
    ensures q == n / d && r == n % d
  {
    var q', r' := n / d, n % d;
    assert n == q' * d + r';
    if q < q' {
      MulMonotone(q' - q, 1, d);
      assert false;
    } else if q > q' {
      MulMonotone(q - q', 1, d);
      assert false;
    }
  }

  /** Multiplying by a positive number keeps the order. */
  lemma MulMonotone(a: int, b: int, d: int)
    requires a >= b && d >= 0
    ensures a * d >= b * d
  {
    assert a * d - b * d == (a - b) * d;
  }

  /** Below n, one more multiple of w is still at most n * w. */
  lemma NextMultiple(v: nat, n: nat, w: nat)
    requires v < n
    ensures v * w + w == (v + 1) * w <= n * w
  {
    MulMonotone(n, v + 1, w);
  }

  lemma AddMul(a: int, b: int, c: int)
    ensures (a + b) * c == a * c + b * c
  {
  }

  lemma MulAssoc(a: int, b: int, c: int)
    ensures (a * b) * c == a * (b * c)
  {
  }

  /** Dividing by w and then by e is dividing by w * e. */
  lemma DivDiv(i: nat, w: nat, e: nat)
    requires w > 0 && e > 0
    ensures i / (w * e) == (i / w) / e
  {
    ModProduct(i, w, e);
    assert e * w == w * e;
  }

  /** Taking the lowest digit q % d off the multiple q * w of w leaves the
      multiple (q / d) * (w * d) of the next weight. */
  lemma MulDropDigit(q: nat, d: nat, w: nat)
    requires d > 0
    ensures (q % d) * w <= q * w
    ensures q * w - (q % d) * w == (q / d) * (w * d)
  {
    var t := q / d;
    MulMonotone(q, q % d, w);
    assert q - q % d == t * d;
    calc {
      q * w - (q % d) * w;
      (q - q % d) * w;
      (t * d) * w;
      { MulAssoc(t, d, w); }
      t * (d * w);
      t * (w * d);
    }
  }

  /** A digit of a mixed-radix number: the remainder modulo e * w splits into
      the digit of weight w and the remainder modulo w. */
  lemma ModProduct(i: nat, w: nat, e: nat)
    requires w > 0 && e > 0
    ensures i % (e * w) == ((i / w) % e) * w + i % w
    ensures i / (e * w) == (i / w) / e
  {
    var q := i / w;
    assert i == q * w + i % w;
    assert q == (q / e) * e + q % e;
    var r := (q % e) * w + i % w;
    MulMonotone(e - 1, q % e, w);
    assert r < e * w;
    assert i == (q / e) * (e * w) + r by {
      calc {
        i;
        q * w + i % w;
        ((q / e) * e + q % e) * w + i % w;
        (q / e) * (e * w) + (q % e) * w + i % w;
      }
    }
    DivModUnique(i, e * w, q / e, r);
  }

  /** Taking the remainder by a multiple first does not change the remainder. */
  lemma ModOfMod(i: nat, w: nat, e: nat)
    requires w > 0 && e > 0
    ensures (i % (e * w)) % w == i % w
  {
    ModProduct(i, w, e);
    DivModUnique(i % (e * w), w, (i / w) % e, i % w);
  }

  /** The quotient of a remainder by the inner weight is the inner digit. */
  lemma DivOfMod(i: nat, w: nat, e: nat)
    requires w > 0 && e > 0
    ensures (i % (e * w)) / w == (i / w) % e
  {
    ModProduct(i, w, e);
    DivModUnique(i % (e * w), w, (i / w) % e, i % w);
  }

  /** A row-major pair (row, col) of width w lies below rows * w. */
  lemma PairBound(row: nat, col: nat, rows: nat, w: nat)
    requires row < rows && col < w
    ensures row * w + col < rows * w
  {
    MulMonotone(rows - 1, row, w);
  }

  /** What is left of i once the whole multiples of w are taken away,
      written as the C++ sources write it: i - (i / w) * w. */
  function Remainder(i: nat, w: nat): (r: nat)
    requires w > 0
    ensures r == i % w && r < w
  {
    i - (i / w) * w
  }

  /** Subtracting the whole multiples leaves the remainder. */
  lemma SubtractMultiple(i: nat, w: nat)
    requires w > 0
    ensures (i / w) * w <= i && i - (i / w) * w == i % w
  {
  }

  /** A number at least e * w has a quotient by w of at least e. */
  lemma QuotientAtLeast(i: nat, w: nat, e: nat)
    requires w > 0 && i >= e * w
    ensures i / w >= e
  {
    if i / w < e {
      MulMonotone(e - 1, i / w, w);
      assert false;
    }
  }

  /** A number below e * w has a quotient by w below e. */
  lemma QuotientBelow(i: nat, w: nat, e: nat)
    requires w > 0 && i < e * w
    ensures i / w < e
  {
    if i / w >= e {
      MulMonotone(i / w, e, w);
      assert false;
    }
  }
}
