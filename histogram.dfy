/**
 * `ColorHistogram` of color.go: a count per distinct key and a cached top-N
 * ranking that `Add` throws away and `TopN` rebuilds by bounded sorted
 * insertion.
 */
module Histogram {
  import opened Wrappers
  import opened Ranking

  /** The histogram that adding `items` in order to an empty one builds. */
  function Tally<K>(items: seq<K>): map<K, nat> {
    if items == [] then map[]
    else
      var t := Tally(items[..|items| - 1]);
      var c := items[|items| - 1];
      t[c := Lookup(t, c) + 1]
  }

  /** The tally holds exactly the items added, each counted as often as it occurs. */
  lemma {:induction false} TallyCounts<K>(items: seq<K>, k: K)
    ensures k in Tally(items) <==> k in items
    ensures Lookup(Tally(items), k) == multiset(items)[k]
  {
    if items != [] {
      var init := items[..|items| - 1];
      TallyCounts(init, k);
      assert items == init + [items[|items| - 1]];
    }
  }

  class ColorHistogram<K(==)> {
    /** `hist`: the count of every key added. A Go nil map reads as this empty map. */
    var hist: map<K, nat>
    /** `topN`: the cached ranking; `None` is Go's nil slice. */
    var topN: Option<seq<Slot<K>>>
    /** Every key passed to `Add`, in order. */
    ghost var added: seq<K>

    /**
     * Each key's count is the number of times it was added, and a cached
     * ranking is a correct ranking of the current counts.
     */
    ghost predicate Valid()
      reads this
    {
      && hist == Tally(added)
      && Positive(hist)
      && (topN.Some? ==> IsRanking(hist, topN.value))
    }

    /** The zero value `ColorHistogram{}`: no counts, no cached ranking. */
    constructor ()
      ensures Valid() && hist == map[] && topN == None && added == []
    {
      hist := map[];
      topN := None;
      added := [];
    }

    /** `Add`: raise the count of `c` by one (from zero if absent) and drop the cached ranking. */
    method Add(c: K)
      requires Valid()
      modifies this
      ensures Valid()
      ensures hist == old(hist)[c := Lookup(old(hist), c) + 1]
      ensures topN == None
      ensures added == old(added) + [c]
    {
      hist := hist[c := Lookup(hist, c) + 1];
      topN := None;
      added := added + [c];
      assert added[..|added| - 1] == old(added);
    }

    /**
     * `TopN`: the cached ranking if there is one, whatever `n` is; otherwise a
     * fresh ranking of the `n` most frequent keys (fewer if there are fewer
     * keys), which is then cached. Without a cache the source panics when `n`
     * is negative (`make`) and when `n` is zero on a non-empty histogram
     * (`topN[-1]`).
     */
    method TopN(n: int) returns (result: seq<Slot<K>>)
      requires Valid()
      requires topN.None? ==> 0 <= n && (|hist| > 0 ==> 1 <= n)
      modifies this`topN
      ensures Valid() && hist == old(hist)
      ensures old(topN).Some? ==> result == old(topN).value && topN == old(topN)
      ensures old(topN).None? ==> IsTopRanking(hist, result, n) && topN == Some(result)
      ensures IsRanking(hist, result)
    {
      if topN.Some? {
        return topN.value;
      }
      var m := n;
      if |hist| < m {
        m := |hist|;
      }
      assert |hist.Keys| == |hist|;
      assert Positive(hist);
      StartRanking(hist, m);
      topN := Some(seq(m, _ => Empty));
      var remaining := hist.Keys;
      ghost var done: set<K> := {};
      while remaining != {}
        invariant topN.Some? && |topN.value| == m
        invariant remaining <= hist.Keys && done == hist.Keys - remaining
        invariant Positive(hist) && PartialRanking(hist, topN.value, done)
        decreases remaining
      {
        // `range` visits the keys in no fixed order: any remaining key may come next
        var k :| k in remaining;
        assert hist.Keys - (remaining - {k}) == done + {k};
        remaining := remaining - {k};
        var v := hist[k];
        var s := topN.value;
        assert |s| > 0;
        if v <= Count(hist, s[|s| - 1]) {
          // not greater than the N-th highest: skip
          SkipStep(hist, s, done, k);
          done := done + {k};
          continue;
        }
        var i := FirstBelow(hist, s, v);
        InsertStep(hist, s, done, k, i);
        topN := Some(InsertAt(s, i, k));
        done := done + {k};
      }
      FinishRanking(hist, topN.value);
      result := topN.value;
    }
  }

  /**
   * The inner loop of `TopN`: the first slot whose count is strictly below
   * `v`, or `|s|` if there is none.
   */
  method FirstBelow<K>(h: map<K, nat>, s: seq<Slot<K>>, v: nat) returns (i: nat)
    ensures i <= |s|
    ensures forall j :: 0 <= j < i ==> v <= Count(h, s[j])
    ensures i < |s| ==> v > Count(h, s[i])
  {
    i := 0;
    while i < |s|
      invariant 0 <= i <= |s|
      invariant forall j :: 0 <= j < i ==> v <= Count(h, s[j])
    {
      if v > Count(h, s[i]) {
        break;
      }
      i := i + 1;
    }
  }

  /** The pixels of row `y` from column `minX` up to (not including) `maxX`. */
  function Row<K>(minX: int, maxX: int, y: int, at: (int, int) -> K): seq<K>
    decreases maxX - minX
  {
    if maxX <= minX then [] else Row(minX, maxX - 1, y, at) + [at(maxX - 1, y)]
  }

  /** The pixels of rows `minY` up to (not including) `y`, row after row. */
  function Rows<K>(minX: int, maxX: int, minY: int, y: int, at: (int, int) -> K): seq<K>
    decreases y - minY
  {
    if y <= minY then [] else Rows(minX, maxX, minY, y - 1, at) + Row(minX, maxX, y - 1, at)
  }

  /** One row holds one pixel per column. */
  lemma {:induction false} RowLength<K>(minX: int, maxX: int, y: int, at: (int, int) -> K)
    requires minX <= maxX
    ensures |Row(minX, maxX, y, at)| == maxX - minX
    decreases maxX - minX
  {
    if minX < maxX {
      RowLength(minX, maxX - 1, y, at);
    }
  }

  /** `Scan` adds one pixel per point of the bounds: width times height. */
  lemma {:induction false} RowsLength<K>(minX: int, maxX: int, minY: int, maxY: int, at: (int, int) -> K)
    requires minX <= maxX && minY <= maxY
    ensures |Rows(minX, maxX, minY, maxY, at)| == (maxY - minY) * (maxX - minX)
    decreases maxY - minY
  {
    if minY < maxY {
      RowsLength(minX, maxX, minY, maxY - 1, at);
      RowLength(minX, maxX, maxY - 1, at);
      assert (maxY - minY) * (maxX - minX) == (maxY - 1 - minY) * (maxX - minX) + (maxX - minX);
    }
  }

  /**
   * `Scan`: add every pixel of the bounds, rows top to bottom and each row left
   * to right. The pixel source `at` stands for whatever `At` the source calls.
   */
  method Scan<K(==)>(minX: int, minY: int, maxX: int, maxY: int, at: (int, int) -> K)
    returns (ch: ColorHistogram<K>)
    ensures fresh(ch) && ch.Valid() && ch.topN == None
    ensures ch.added == Rows(minX, maxX, minY, maxY, at)
  {
    ch := new ColorHistogram();
    var y := minY;
    while y < maxY
      invariant minY <= y && (y <= maxY || y == minY)
      invariant fresh(ch) && ch.Valid() && ch.topN == None
      invariant ch.added == Rows(minX, maxX, minY, y, at)
    {
      ScanRow(ch, minX, maxX, y, at);
      y := y + 1;
    }
  }

  /** The inner loop of `Scan`: add the pixels of row `y`, left to right. */
  method ScanRow<K(==)>(ch: ColorHistogram<K>, minX: int, maxX: int, y: int, at: (int, int) -> K)
    requires ch.Valid() && ch.topN == None
    modifies ch
    ensures ch.Valid() && ch.topN == None
    ensures ch.added == old(ch.added) + Row(minX, maxX, y, at)
  {
    var x := minX;
    while x < maxX
      invariant minX <= x && (x <= maxX || x == minX)
      invariant ch.Valid() && ch.topN == None
      invariant ch.added == old(ch.added) + Row(minX, x, y, at)
    {
      ghost var left := Row(minX, x, y, at);
      ch.Add(at(x, y));
      assert Row(minX, x + 1, y, at) == left + [at(x, y)];
      assert ch.added == old(ch.added) + (left + [at(x, y)]);
      x := x + 1;
    }
  }

  /**
   * A second `TopN` with no `Add` in between returns the cached slice, even
   * when it asks for more keys than the first call.
   */
  method CachedRankingIgnoresN() returns (first: seq<Slot<char>>, second: seq<Slot<char>>)
    ensures |first| == 1 && second == first
  {
    var ch := new ColorHistogram<char>();
    ch.Add('a');
    ch.Add('b');
    first := ch.TopN(1);
    second := ch.TopN(2);
  }

  /** `Add` drops the cached ranking, so the next `TopN` sees the new count. */
  method AddInvalidatesRanking() returns (before: seq<Slot<char>>, after: seq<Slot<char>>)
    ensures before == [Key('a')] && after == [Key('b')]
  {
    var ch := new ColorHistogram<char>();
    ch.Add('a');
    assert forall x :: x in ch.hist ==> x == 'a';
    before := ch.TopN(1);
    StrictMaximumFirst(ch.hist, before, 'a');
    ch.Add('b');
    ch.Add('b');
    assert ch.hist['a'] == 1 && ch.hist['b'] == 2;
    assert forall x :: x in ch.hist ==> x == 'a' || x == 'b';
    after := ch.TopN(1);
    StrictMaximumFirst(ch.hist, after, 'b');
  }

  /** A and B added three times and C once: the top two are A and B, in either order. */
  method TopTwoScenario() returns (top: seq<Slot<char>>)
    ensures top == [Key('A'), Key('B')] || top == [Key('B'), Key('A')]
  {
    var ch := new ColorHistogram<char>();
    ch.Add('A');
    ch.Add('B');
    ch.Add('A');
    ch.Add('C');
    ch.Add('B');
    ch.Add('A');
    ch.Add('B');
    assert ch.hist['A'] == 3 && ch.hist['B'] == 3 && ch.hist['C'] == 1;
    assert forall x :: x in ch.hist ==> x == 'A' || x == 'B' || x == 'C';
    SubsetSize({'A', 'B'}, ch.hist.Keys);
    top := ch.TopN(2);
    TopTwoOfThree(ch.hist, 'A', 'B', 'C', top);
  }
}
