/**
 * What a top-N ranking of a histogram is, and the steps of the bounded
 * sorted insertion that `ColorHistogram.TopN` performs (color.go).
 */
module Ranking {

  /**
   * One element of the ranking slice. `Empty` is the nil interface value that
   * `make` fills each slot with; the map has no entry for it.
   */
  datatype Slot<K> = Empty | Key(key: K)

  /** A Go map read: a missing key reads as zero. */
  function Lookup<K>(h: map<K, nat>, k: K): nat {
    if k in h then h[k] else 0
  }

  /** `ch.hist[slot]`: the count of a slot, zero for an empty one. */
  function Count<K>(h: map<K, nat>, s: Slot<K>): nat {
    match s
    case Empty => 0
    case Key(k) => Lookup(h, k)
  }

  function Min(a: int, b: int): int {
    if a <= b then a else b
  }

  /** The counts of a ranking, position by position. */
  function Counts<K>(h: map<K, nat>, r: seq<Slot<K>>): (c: seq<nat>)
    ensures |c| == |r|
  {
    seq(|r|, i requires 0 <= i < |r| => Count(h, r[i]))
  }

  /** Every key of a histogram that only `Add` builds has been added at least once. */
  ghost predicate Positive<K>(h: map<K, nat>) {
    forall k :: k in h ==> h[k] >= 1
  }

  /** Non-increasing in count. */
  ghost predicate Sorted<K>(h: map<K, nat>, r: seq<Slot<K>>) {
    forall i, j :: 0 <= i < j < |r| ==> Count(h, r[i]) >= Count(h, r[j])
  }

  /** No key occupies two slots (empty slots may repeat). */
  ghost predicate DistinctKeys<K>(r: seq<Slot<K>>) {
    forall i, j :: 0 <= i < j < |r| && r[i].Key? ==> r[i] != r[j]
  }

  /** Every slot holds a key of the histogram. */
  ghost predicate AllFrom<K>(h: map<K, nat>, r: seq<Slot<K>>) {
    forall i :: 0 <= i < |r| ==> r[i].Key? && r[i].key in h
  }

  /** Every key left out counts no more than any key kept. */
  ghost predicate NoneLeftOutLarger<K>(h: map<K, nat>, r: seq<Slot<K>>) {
    forall k, i :: k in h && Key(k) !in r && 0 <= i < |r| ==> h[k] <= Count(h, r[i])
  }

  /**
   * A correct ranking: distinct keys of the histogram in non-increasing count
   * order, with nothing left out counting more than anything kept. Keys tied
   * at the cut-off may fall either side.
   */
  ghost predicate IsRanking<K>(h: map<K, nat>, r: seq<Slot<K>>) {
    AllFrom(h, r) && DistinctKeys(r) && Sorted(h, r) && NoneLeftOutLarger(h, r)
  }

  /** A correct ranking of the `n` most frequent keys, or of all keys if there are fewer. */
  ghost predicate IsTopRanking<K>(h: map<K, nat>, r: seq<Slot<K>>, n: int) {
    IsRanking(h, r) && |r| == Min(n, |h|)
  }

  /** The key slots are exactly the first `d` slots (all of them if `d` is larger). */
  ghost predicate KeyPrefix<K>(s: seq<Slot<K>>, d: nat) {
    forall i :: 0 <= i < |s| ==> (s[i].Key? <==> i < d)
  }

  /** Every key in the slice has been visited. */
  ghost predicate KeysFrom<K>(s: seq<Slot<K>>, done: set<K>) {
    forall i :: 0 <= i < |s| && s[i].Key? ==> s[i].key in done
  }

  /** Every visited key that is not in the slice counts no more than its last slot. */
  ghost predicate BelowLast<K>(h: map<K, nat>, s: seq<Slot<K>>, done: set<K>) {
    |s| > 0 ==> forall k :: k in done && Key(k) !in s ==> Lookup(h, k) <= Count(h, s[|s| - 1])
  }

  /**
   * The state of the ranking slice while `TopN` walks the map: `done` holds
   * the keys visited so far; the key slots form a prefix as long as `done`
   * (at most the whole slice), hold distinct visited keys in sorted order, and
   * every visited key that was skipped or evicted counts no more than the last slot.
   */
  ghost predicate PartialRanking<K>(h: map<K, nat>, s: seq<Slot<K>>, done: set<K>) {
    && done <= h.Keys
    && KeyPrefix(s, |done|)
    && KeysFrom(s, done)
    && DistinctKeys(s)
    && Sorted(h, s)
    && BelowLast(h, s, done)
  }

  /**
   * `append(append(topN[:i], k), topN[i:len(topN)-1]...)`: put `k` at position
   * `i`, shift the rest right and drop the last slot.
   */
  function InsertAt<K>(s: seq<Slot<K>>, i: nat, k: K): (r: seq<Slot<K>>)
    requires i < |s|
    ensures |r| == |s| && r[i] == Key(k)
    ensures forall j :: 0 <= j < i ==> r[j] == s[j]
    ensures forall j :: i < j < |s| ==> r[j] == s[j - 1]
  {
    s[..i] + [Key(k)] + s[i..|s| - 1]
  }

  /** A freshly made slice of `m` empty slots, before any key is visited. */
  lemma StartRanking<K>(h: map<K, nat>, m: nat)
    ensures PartialRanking(h, seq(m, (_: int) => Slot<K>.Empty), {})
  {
  }

  /** Skipping a key that counts no more than the last slot keeps the invariant. */
  lemma SkipStep<K>(h: map<K, nat>, s: seq<Slot<K>>, done: set<K>, k: K)
    requires Positive(h) && PartialRanking(h, s, done)
    requires k in h && k !in done && |s| > 0
    requires h[k] <= Count(h, s[|s| - 1])
    ensures PartialRanking(h, s, done + {k})
  {
    assert s[|s| - 1].Key?;
    assert |done + {k}| == |done| + 1;
    assert Key(k) !in s;
  }

  /** What the inner loop of `TopN` establishes about the insertion point `i`. */
  ghost predicate InsertionPoint<K>(h: map<K, nat>, s: seq<Slot<K>>, k: K, i: nat) {
    && k in h && i < |s|
    && (forall j :: 0 <= j < i ==> h[k] <= Count(h, s[j]))
    && h[k] > Count(h, s[i])
  }

  /**
   * Inserting a key before the first slot that counts strictly less, and
   * dropping the last slot, keeps the invariant.
   */
  lemma InsertStep<K>(h: map<K, nat>, s: seq<Slot<K>>, done: set<K>, k: K, i: nat)
    requires Positive(h) && PartialRanking(h, s, done)
    requires k !in done && InsertionPoint(h, s, k, i)
    ensures PartialRanking(h, InsertAt(s, i, k), done + {k})
  {
    var d := |done|;
    assert |done + {k}| == d + 1;
    // every slot before the insertion point counts at least h[k] >= 1, so holds a key
    if 0 < i {
      assert Count(h, s[i - 1]) >= h[k] >= 1;
      assert s[i - 1].Key?;
    }
    assert i <= d;
    InsertKeepsPrefix(s, d, k, i);
    InsertKeepsKeysFrom(s, done, k, i);
    assert Key(k) !in s;
    InsertKeepsDistinct(s, k, i);
    InsertKeepsSorted(h, s, k, i);
    assert |s| >= 2 ==> Count(h, s[|s| - 2]) >= Count(h, s[|s| - 1]);
    InsertKeepsBelowLast(h, s, done, k, i);
  }

  lemma InsertKeepsPrefix<K>(s: seq<Slot<K>>, d: nat, k: K, i: nat)
    requires KeyPrefix(s, d) && i <= d && i < |s|
    ensures KeyPrefix(InsertAt(s, i, k), d + 1)
  {
    var r := InsertAt(s, i, k);
    forall j | 0 <= j < |s| ensures (r[j].Key? <==> j < d + 1) {
      if j > i { assert r[j] == s[j - 1]; }
    }
  }

  lemma InsertKeepsKeysFrom<K>(s: seq<Slot<K>>, done: set<K>, k: K, i: nat)
    requires KeysFrom(s, done) && i < |s|
    ensures KeysFrom(InsertAt(s, i, k), done + {k})
  {
    var r := InsertAt(s, i, k);
    forall j | 0 <= j < |s| && r[j].Key? ensures r[j].key in done + {k} {
      if j > i { assert r[j] == s[j - 1]; }
    }
  }

  lemma InsertKeepsDistinct<K>(s: seq<Slot<K>>, k: K, i: nat)
    requires DistinctKeys(s) && Key(k) !in s && i < |s|
    ensures DistinctKeys(InsertAt(s, i, k))
  {
    var r := InsertAt(s, i, k);
    forall j1, j2 | 0 <= j1 < j2 < |s| && r[j1].Key? ensures r[j1] != r[j2] {
      if j1 == i {
        assert r[j2] == s[j2 - 1];
      } else if j2 == i {
        assert r[j1] == s[j1];
      } else {
        var p1 := if j1 < i then j1 else j1 - 1;
        var p2 := if j2 < i then j2 else j2 - 1;
        assert r[j1] == s[p1] && r[j2] == s[p2] && p1 < p2;
      }
    }
  }

  lemma InsertKeepsSorted<K>(h: map<K, nat>, s: seq<Slot<K>>, k: K, i: nat)
    requires Sorted(h, s) && InsertionPoint(h, s, k, i)
    ensures Sorted(h, InsertAt(s, i, k))
  {
    var r := InsertAt(s, i, k);
    assert Count(h, r[i]) == h[k];
    forall j1, j2 | 0 <= j1 < j2 < |s| ensures Count(h, r[j1]) >= Count(h, r[j2]) {
      if j2 > i {
        assert r[j2] == s[j2 - 1];
        assert Count(h, s[j2 - 1]) <= Count(h, s[i]);
      }
      if j1 > i {
        assert r[j1] == s[j1 - 1];
      }
    }
  }

  lemma InsertKeepsBelowLast<K>(h: map<K, nat>, s: seq<Slot<K>>, done: set<K>, k: K, i: nat)
    requires BelowLast(h, s, done) && InsertionPoint(h, s, k, i)
    requires |s| >= 2 ==> Count(h, s[|s| - 2]) >= Count(h, s[|s| - 1])
    ensures Count(h, InsertAt(s, i, k)[|s| - 1]) >= Count(h, s[|s| - 1])
    ensures BelowLast(h, InsertAt(s, i, k), done + {k})
  {
    var r := InsertAt(s, i, k);
    var n := |s|;
    var last, last' := s[n - 1], r[n - 1];
    assert Count(h, last') >= Count(h, last) by {
      if i < n - 1 { assert last' == s[n - 2]; }
    }
    OnlyLastEvicted(s, k, i);
    forall x | x in done + {k} && Key(x) !in r ensures Lookup(h, x) <= Count(h, last') {
      assert x != k;
      if Key(x) in s {
        assert Key(x) == last;
      } else {
        assert x in done;
      }
    }
  }

  /** Insertion evicts at most the last slot. */
  lemma OnlyLastEvicted<K>(s: seq<Slot<K>>, k: K, i: nat)
    requires i < |s|
    ensures forall y :: y in s ==> y in InsertAt(s, i, k) || y == s[|s| - 1]
  {
    var r := InsertAt(s, i, k);
    forall y | y in s ensures y in r || y == s[|s| - 1] {
      var p :| 0 <= p < |s| && s[p] == y;
      if p < |s| - 1 {
        var q := if p < i then p else p + 1;
        assert r[q] == y;
      }
    }
  }

  /** Once every key is visited and the slice is no longer than the map, it is a ranking. */
  lemma FinishRanking<K>(h: map<K, nat>, s: seq<Slot<K>>)
    requires PartialRanking(h, s, h.Keys) && |s| <= |h|
    ensures IsRanking(h, s)
  {
    assert |h.Keys| == |h|;
  }

  /** The keys a slice holds. */
  ghost function KeysOf<K>(r: seq<Slot<K>>): set<K> {
    if r == [] then {}
    else KeysOf(r[..|r| - 1]) + (if r[|r| - 1].Key? then {r[|r| - 1].key} else {})
  }

  lemma {:induction false} KeysOfMember<K>(r: seq<Slot<K>>, k: K)
    ensures k in KeysOf(r) <==> Key(k) in r
  {
    if r != [] {
      var init := r[..|r| - 1];
      KeysOfMember(init, k);
      assert r == init + [r[|r| - 1]];
    }
  }

  /** A slice holds at most as many keys as it has slots, and exactly as many if they are distinct keys. */
  lemma {:induction false} KeysOfSize<K>(r: seq<Slot<K>>)
    ensures |KeysOf(r)| <= |r|
    ensures (forall i :: 0 <= i < |r| ==> r[i].Key?) && DistinctKeys(r) ==> |KeysOf(r)| == |r|
  {
    if r != [] {
      var init := r[..|r| - 1];
      KeysOfSize(init);
      if (forall i :: 0 <= i < |r| ==> r[i].Key?) && DistinctKeys(r) {
        KeysOfMember(init, r[|r| - 1].key);
        assert forall i :: 0 <= i < |init| ==> init[i] != r[|r| - 1];
        assert r[|r| - 1] !in init;
      }
    }
  }

  lemma {:induction false} SubsetSize<K>(a: set<K>, b: set<K>)
    requires a <= b
    ensures |a| <= |b|
    decreases a
  {
    if a != {} {
      var x :| x in a;
      SubsetSize(a - {x}, b - {x});
    }
  }

  /** Asking for at least as many keys as the histogram has yields every key. */
  lemma FullRankingHasEveryKey<K>(h: map<K, nat>, r: seq<Slot<K>>, n: int)
    requires IsTopRanking(h, r, n) && n >= |h|
    ensures forall k :: k in h <==> Key(k) in r
  {
    KeysOfSize(r);
    forall k | k in KeysOf(r) ensures k in h {
      KeysOfMember(r, k);
      var i :| 0 <= i < |r| && r[i] == Key(k);
    }
    forall k | k in h ensures Key(k) in r {
      KeysOfMember(r, k);
      if k !in KeysOf(r) {
        SubsetSize(KeysOf(r), h.Keys - {k});
        assert false;
      }
    }
  }

  /** Every key counting at least `c` lies before the first slot counting less than `c`. */
  lemma HigherKeysBefore<K>(h: map<K, nat>, r: seq<Slot<K>>, c: nat, j: nat)
    requires IsRanking(h, r) && j < |r| && Count(h, r[j]) < c
    ensures forall x :: x in h && h[x] >= c ==> x in KeysOf(r[..j])
  {
    forall x | x in h && h[x] >= c ensures x in KeysOf(r[..j]) {
      KeysOfMember(r[..j], x);
      assert Key(x) in r;
      var q :| 0 <= q < |r| && r[q] == Key(x);
      assert q < j;
      assert r[..j][q] == Key(x);
    }
  }

  /** The first `j + 1` slots of a ranking hold `j + 1` keys, each counting at least slot `j`. */
  lemma PrefixKeysAtLeast<K>(h: map<K, nat>, r: seq<Slot<K>>, j: nat)
    requires AllFrom(h, r) && DistinctKeys(r) && Sorted(h, r) && j < |r|
    ensures |KeysOf(r[..j + 1])| == j + 1
    ensures forall x :: x in KeysOf(r[..j + 1]) ==> x in h && h[x] >= Count(h, r[j])
  {
    var top := r[..j + 1];
    KeysOfSize(top);
    forall x | x in KeysOf(top) ensures x in h && h[x] >= Count(h, r[j]) {
      KeysOfMember(top, x);
      var p :| 0 <= p < |top| && top[p] == Key(x);
      assert r[p] == Key(x);
    }
  }

  /** At each position a ranking counts at least as much as any other ranking of the same length. */
  lemma CountAtMost<K>(h: map<K, nat>, r1: seq<Slot<K>>, r2: seq<Slot<K>>, j: nat)
    requires IsRanking(h, r1) && IsRanking(h, r2) && |r1| == |r2| && j < |r1|
    ensures Count(h, r2[j]) <= Count(h, r1[j])
  {
    var c := Count(h, r2[j]);
    if c > Count(h, r1[j]) {
      PrefixKeysAtLeast(h, r2, j);
      HigherKeysBefore(h, r1, c, j);
      KeysOfSize(r1[..j]);
      SubsetSize(KeysOf(r2[..j + 1]), KeysOf(r1[..j]));
      assert false;
    }
  }

  /**
   * Rankings of the same histogram and length agree count by count: they can
   * differ only in the order of tied keys and in which tied keys make the cut.
   */
  lemma RankingCountsUnique<K>(h: map<K, nat>, r1: seq<Slot<K>>, r2: seq<Slot<K>>)
    requires IsRanking(h, r1) && IsRanking(h, r2) && |r1| == |r2|
    ensures Counts(h, r1) == Counts(h, r2)
    ensures multiset(Counts(h, r1)) == multiset(Counts(h, r2))
  {
    forall j | 0 <= j < |r1| ensures Count(h, r1[j]) == Count(h, r2[j]) {
      CountAtMost(h, r1, r2, j);
      CountAtMost(h, r2, r1, j);
    }
    assert Counts(h, r1) == Counts(h, r2);
  }

  /** With A and B seen three times and C once, the top two are A and B in either order. */
  lemma TopTwoOfThreeThreeOne<K>(a: K, b: K, c: K, r: seq<Slot<K>>)
    requires a != b && b != c && a != c
    requires IsTopRanking(map[a := 3, b := 3, c := 1], r, 2)
    ensures r == [Key(a), Key(b)] || r == [Key(b), Key(a)]
  {
    var h := map[a := 3, b := 3, c := 1];
    assert |h| == 3;
    TopTwoOfThree(h, a, b, c, r);
  }

  /** Two keys that both count more than the only other key make up every two-slot ranking. */
  lemma TopTwoOfThree<K>(h: map<K, nat>, a: K, b: K, c: K, r: seq<Slot<K>>)
    requires IsRanking(h, r) && |r| == 2
    requires a != b && a in h && b in h && c in h && h[c] < h[a] && h[c] < h[b]
    requires forall z :: z in h ==> z == a || z == b || z == c
    ensures r == [Key(a), Key(b)] || r == [Key(b), Key(a)]
  {
    var x, y := r[0].key, r[1].key;
    assert r == [Key(x), Key(y)];
    assert x in h && y in h && x != y;
    assert h[x] >= h[y];
    assert Count(h, r[1]) >= h[a] || Key(a) in r;
    assert Count(h, r[1]) >= h[b] || Key(b) in r;
  }

  lemma TopFiveOfThreeThreeOne<K>(a: K, b: K, c: K, r: seq<Slot<K>>)
    requires a != b && b != c && a != c
    requires IsTopRanking(map[a := 3, b := 3, c := 1], r, 5)
    ensures |r| == 3 && r[2] == Key(c)
  {
    var h := map[a := 3, b := 3, c := 1];
    assert |h| == 3;
    FullRankingHasEveryKey(h, r, 5);
    assert Key(c) in r;
    var p :| 0 <= p < |r| && r[p] == Key(c);
    assert Count(h, r[2]) >= 1;
    assert p == 2;
  }

  /** A key that counts strictly more than every other key heads every non-empty ranking. */
  lemma StrictMaximumFirst<K>(h: map<K, nat>, r: seq<Slot<K>>, k: K)
    requires IsRanking(h, r) && |r| >= 1 && k in h
    requires forall x :: x in h && x != k ==> h[x] < h[k]
    ensures r[0] == Key(k)
  {
    assert r[0].key in h;
    assert Count(h, r[0]) >= h[k] || Key(k) in r;
    if Key(k) in r {
      var p :| 0 <= p < |r| && r[p] == Key(k);
      assert Count(h, r[0]) >= Count(h, r[p]);
    }
  }

  /**
   * The cache invalidation of `Add`: once an `Add` lifts a key above the old
   * ranking's last count, every ranking of the new counts of the same length
   * includes that key.
   */
  lemma InvalidationIncludes<K>(h: map<K, nat>, r: seq<Slot<K>>, x: K, r2: seq<Slot<K>>)
    requires IsRanking(h, r) && |r| >= 1
    requires Lookup(h, x) + 1 > Count(h, r[|r| - 1])
    requires IsRanking(h[x := Lookup(h, x) + 1], r2) && |r2| == |r|
    ensures Key(x) in r2
  {
    var h2 := h[x := Lookup(h, x) + 1];
    var j := |r| - 1;
    var c := Count(h, r[j]);
    if Key(x) !in r2 {
      forall y | y in KeysOf(r2) ensures y in KeysOf(r[..j]) {
        KeysOfMember(r2, y);
        var q :| 0 <= q < |r2| && r2[q] == Key(y);
        assert y != x && y in h;
        assert h[y] == Count(h2, r2[q]) >= h2[x];
        HigherKeysBefore(h, r, c + 1, j);
      }
      KeysOfSize(r2);
      KeysOfSize(r[..j]);
      SubsetSize(KeysOf(r2), KeysOf(r[..j]));
      assert false;
    }
  }
}
