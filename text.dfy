/** Joining already formatted elements with a separator, the shape both
    vector printers of the demos write between their brackets.
    The program never splits text: Split below is the printers' inverse,
    stated only to show that a printout is unambiguous (SplitJoin recovers
    the elements when the separator does not occur in them). */
module Text {
  /** The items with `sep` between neighbours and none after the last. */
  function Join(items: seq<string>, sep: string): string
  {
    if |items| == 0 then ""
    else if |items| == 1 then items[0]
    else Join(items[..|items| - 1], sep) + sep + items[|items| - 1]
  }

  /** The total length of the items. */
  function TotalLength(items: seq<string>): nat
  {
    if |items| == 0 then 0 else TotalLength(items[..|items| - 1]) + |items[|items| - 1]|
  }

  /** A join holds every item once and one separator less than items. */
  lemma {:induction false} JoinLength(items: seq<string>, sep: string)
    requires |items| > 0
    ensures |Join(items, sep)| == TotalLength(items) + (|items| - 1) * |sep|
  {
    if |items| > 1 {
      JoinLength(items[..|items| - 1], sep);
      assert (|items| - 2) * |sep| + |sep| == (|items| - 1) * |sep|;
    }
  }

  /** Joining a concatenation is joining each part with one separator in
      between: the printout of two lists put end to end. */
  lemma {:induction false} JoinAppend(a: seq<string>, b: seq<string>, sep: string)
    requires |a| > 0 && |b| > 0
    ensures Join(a + b, sep) == Join(a, sep) + sep + Join(b, sep)
    decreases |b|
  {
    var ab := a + b;
    if |b| == 1 {
      assert ab[..|ab| - 1] == a;
    } else {
      var b' := b[..|b| - 1];
      assert ab[..|ab| - 1] == a + b';
      JoinAppend(a, b', sep);
    }
  }

  /** When no item holds the separator character, the join can be split back
      into the items. */
  function Split(s: string, sep: char): (parts: seq<string>)
    ensures |parts| > 0
    decreases |s|
  {
    if |s| == 0 then [""]
    else
      var rest := Split(s[..|s| - 1], sep);
      if s[|s| - 1] == sep then rest + [""]
      else ExtendLast(rest, [s[|s| - 1]])
  }

  predicate Free(item: string, sep: char)
  {
    forall i | 0 <= i < |item| :: item[i] != sep
  }

  /** A word without the separator splits to itself. */
  lemma {:induction false} SplitFree(w: string, sep: char)
    requires Free(w, sep)
    ensures Split(w, sep) == [w]
    decreases |w|
  {
    if |w| > 0 {
      SplitFree(w[..|w| - 1], sep);
      assert w[..|w| - 1] + [w[|w| - 1]] == w;
    }
  }

  /** The parts with w appended to the last one. */
  function ExtendLast(parts: seq<string>, w: string): (r: seq<string>)
    requires |parts| > 0
    ensures |r| == |parts| && r[|r| - 1] == parts[|parts| - 1] + w
    ensures forall k | 0 <= k < |parts| - 1 :: r[k] == parts[k]
  {
    parts[..|parts| - 1] + [parts[|parts| - 1] + w]
  }

  /** Extending the last part twice extends it by both pieces. */
  lemma ExtendLastTwice(parts: seq<string>, w: string, c: char)
    requires |parts| > 0
    ensures ExtendLast(ExtendLast(parts, w), [c]) == ExtendLast(parts, w + [c])
  {
    var l := parts[|parts| - 1];
    assert (l + w) + [c] == l + (w + [c]);
  }

  /** Splitting s + w with w free of the separator extends the last part. */
  lemma {:induction false} SplitAppendFree(s: string, w: string, sep: char)
    requires Free(w, sep)
    ensures Split(s + w, sep) == ExtendLast(Split(s, sep), w)
    decreases |w|
  {
    var p := Split(s, sep);
    if |w| == 0 {
      assert s + w == s;
      assert p[|p| - 1] + w == p[|p| - 1];
    } else {
      var w' := w[..|w| - 1];
      var c := w[|w| - 1];
      assert w == w' + [c];
      assert s + w == (s + w') + [c];
      SplitAppendFree(s, w', sep);
      SplitOtherEnd(s + w', c, sep);
      ExtendLastTwice(p, w', c);
    }
  }

  /** A character other than the separator extends the last part. */
  lemma SplitOtherEnd(s: string, c: char, sep: char)
    requires c != sep
    ensures Split(s + [c], sep) == ExtendLast(Split(s, sep), [c])
  {
    assert (s + [c])[..|s + [c]| - 1] == s;
  }

  /** A trailing separator opens a new, empty last part. */
  lemma SplitSeparatorEnd(s: string, sep: char)
    ensures Split(s + [sep], sep) == Split(s, sep) + [""]
  {
    assert (s + [sep])[..|s + [sep]| - 1] == s;
  }

  /** Extending a fresh empty last part puts w in its place. */
  lemma ExtendEmpty(init: seq<string>, w: string)
    ensures ExtendLast(init + [""], w) == init + [w]
  {
    assert (init + [""])[..|init|] == init;
    assert "" + w == w;
  }

  /** A non-empty sequence is its front followed by its last element. */
  lemma InitLast(items: seq<string>)
    requires |items| > 0
    ensures items[..|items| - 1] + [items[|items| - 1]] == items
  {
  }

  /** Join with a one-character separator and Split undo each other. */
  lemma {:induction false} SplitJoin(items: seq<string>, sep: char)
    requires |items| > 0
    requires forall k | 0 <= k < |items| :: Free(items[k], sep)
    ensures Split(Join(items, [sep]), sep) == items
  {
    if |items| == 1 {
      SplitFree(items[0], sep);
    } else {
      var init := items[..|items| - 1];
      var last := items[|items| - 1];
      assert forall k | 0 <= k < |init| :: init[k] == items[k];
      SplitJoin(init, sep);
      var j := Join(init, [sep]);
      assert Join(items, [sep]) == (j + [sep]) + last;
      SplitSeparatorEnd(j, sep);
      SplitAppendFree(j + [sep], last, sep);
      ExtendEmpty(init, last);
      InitLast(items);
    }
  }
}
