# image-analyzer colour histogram and colour codec, in Dafny

This project models `color.go` of image-analyzer, which has two parts.

* **`ColorHistogram`** counts how often each colour occurs. It also caches a
  top-N ranking of the most frequent colours. `Add` raises one count and drops
  the cache. If a cache exists, `TopN(n)` returns it as is. Otherwise it
  allocates `n` empty slots (clamped to the number of distinct colours) and
  walks the map once. Each key is either skipped, or placed before the first
  slot that counts strictly less, with the last slot evicted.
* **The `#RRGGBB` codec.** `NewColorFromString` parses a colour string,
  `Color.String` formats one, and `NewColor` narrows 16-bit channels to 8 bits.

Files and modules:

* `wrappers.dfy` (`Wrappers`): `Option`, which stands for Go's nil slice and
  nil error.
* `colors.dfy` (`Colors`): the codec, written as functions. The regular
  expression becomes a per-character predicate, `IsColorString`.
  `strconv.ParseUint` becomes hex-digit arithmetic, checked against the
  positional value `HexValue`.
* `ranking.dfy` (`Ranking`): what a correct ranking is (`IsRanking`,
  `IsTopRanking`), the invariant of the ranking loop (`PartialRanking`), and
  lemmas about both.
* `histogram.dfy` (`Histogram`): the class `ColorHistogram<K>`, generic over
  any equality type of keys. Its fields are `hist` (a `map`), `topN` (an
  `Option` of a slice) and a ghost history `added` of every key passed to
  `Add`. `Valid()` says three things. `hist` is the tally of `added`. Every
  count is at least 1. A cached ranking is a correct ranking of the current
  counts.

Modelling choices:

* **Go types.** Each slot of Go's `[]color.Color` is a `Slot`. `Empty` is the
  nil interface value that `make` fills in, and its count reads as 0, as
  `ch.hist[nil]` does. A nil map is the empty map.
* **Map iteration order.** `range` over the map picks any remaining key
  (`var k :| k in remaining`), so `TopN` is verified for every iteration order.
* **Panics.** Without a cache, `TopN` panics when `n < 0` (at `make`). It also
  panics when `n == 0` on a non-empty histogram (at `topN[len(topN)-1]`). The
  model states both as a `requires` on the uncached path only. With a cache,
  any `n` is allowed.
* **Cache behaviour.** A later `TopN` with a larger `n` returns the cached
  slice unchanged (color.go:78-80). `CachedRankingIgnoresN` shows this.
* **Stale tests.** `color_test.go` calls `NewColor` with a string and reads
  the channels through methods `R()`, `G()` and `B()`. The code has
  `NewColorFromString` for strings and plain fields. The test lemmas state the
  tests' expectations against `NewColorFromString` and the fields.
* **Channel values as inputs.** `NewColor` takes the three channel values that
  `RGBA()` returns, as `uint32` inputs. `Widen` states how `color.RGBA`
  widens 8 bits to 16.

## Model

| member | source | states |
|---|---|---|
| `Colors.NewColorFromString` | color.go:24-36 | Fails exactly when the string is not `#` and six case-insensitive hex digits. On failure it returns the zero colour and `ErrInvalidColorString`. Otherwise R, G and B are the hex values of characters 1-2, 3-4 and 5-6, and A is 0. |
| `Colors.ParseHexByte` | color.go:31-33 | `ParseUint(p, 16, 8)` of two hex digits equals their positional hex value. |
| `Colors.Color.String` | color.go:52-54 | Always `#` and six upper-case hex digits (length 7). Each digit pair denotes the R, G and B channel in turn. |
| `Colors.FormatHexByte` | color.go:53 | `%02X` gives two upper-case hex digits whose value is the byte. |
| `Colors.NewColor` | color.go:39-49 | A is 0. Each 8-bit channel is the high byte of the low 16 bits of its input (`uint8(x >> 8)`). |
| `Colors.FormatThenParse` | color.go:24-54 | Parsing the formatted text succeeds and returns the colour's R, G and B, with A = 0. |
| `Colors.PairRoundTrip` | color.go:31-53 | Formatting a parsed digit pair gives the pair back, upper-cased. |
| `Colors.ParseThenFormat` | color.go:24-54 | For a valid string, parsing succeeds, and formatting the result gives the string upper-cased. |
| `Colors.CanonicalRoundTrip` | color.go:24-54 | A valid string with no lower-case digits survives parsing and formatting unchanged. |
| `Colors.NewColorOfWidened` | color.go:43-48 | `NewColor` recovers any 8-bit colour from its 16-bit widening `x * 0x101`. |
| `Colors.TestNewColorCases` | color_test.go:10-14 | `#010101`, `#AABBCC` and `#ab0194` are accepted. `invalid` and `9123` are rejected with `ErrInvalidColorString`. |
| `Colors.DecodesTo` | color.go:24-35 | A valid string parses, with no error, to the colour whose channels are 16 times the first digit plus the second of each pair. |
| `Colors.TestRGBCases` | color_test.go:35-46 | `#FF0000`, `#00FE00` and `#0000BB` decode to the expected channels, with A = 0 and no error. |
| `Colors.LowerCaseDecodesLikeUpper` | color.go:25-53 | `#ff0000` decodes like `#FF0000`, and that colour formats as `#FF0000`. |
| `Colors.RejectsNonHexAndShort` | color.go:25-27 | `#zz0000` (a non-hex digit) and `1234` (no `#`, too short) give the zero colour and `ErrInvalidColorString`. |
| `Histogram.TallyCounts` | color.go:63-70 | After any sequence of `Add` calls, a key is present exactly when it was added, and its count is the number of times it was added. |
| `Histogram.ColorHistogram.constructor` | color.go:58-61 | The zero `ColorHistogram` has no counts and no cached ranking. |
| `Histogram.ColorHistogram.Add` | color.go:64-70 | Raises the key's count by exactly 1 (from 0 if absent). Leaves every other count unchanged. Clears the cache. Keeps `Valid()`. |
| `Histogram.ColorHistogram.TopN` | color.go:77-102 | With a cache: returns the cached slice unchanged, for any `n`. Without one: length `min(n, len(hist))`, distinct keys of `hist` and no empty slot. Non-increasing in count. No key left out counts more than any key returned. The result is then cached. `hist` is unchanged. |
| `Histogram.FirstBelow` | color.go:90-95 | Returns the first index whose count is strictly below `v`, or the length if none is. |
| `Histogram.Scan` | color.go:105-116 | Returns a fresh histogram with no cache, fed with `at(x, y)` for every point of the bounds, row by row and left to right. |
| `Histogram.RowsLength` | color.go:110-113 | The nested loops call `Add` exactly (maxY - minY) * (maxX - minX) times on non-empty bounds. |
| `Histogram.ScanRow` | color.go:111-113 | Adds the pixels of one row, left to right, to the histogram, and keeps it valid with no cache. |
| `Histogram.CachedRankingIgnoresN` | color.go:78-80 | After `TopN(1)`, a later `TopN(2)` returns the same one-element slice. |
| `Histogram.AddInvalidatesRanking` | color.go:69 | An `Add` that makes another key the most frequent changes what the next `TopN(1)` returns. |
| `Histogram.TopTwoScenario` | color.go:72-76 | With A and B added three times and C once, `TopN(2)` returns A and B in either order. |
| `Ranking.InsertAt` | color.go:96-99 | The new slice has `k` at `i`, the slots before `i` unchanged, and the rest shifted right by one, with the last slot dropped. |
| `Ranking.StartRanking` | color.go:84 | A slice of empty slots satisfies the loop invariant before any key is visited. |
| `Ranking.SkipStep` | color.go:86-89 | Skipping a key that counts no more than the last slot keeps the loop invariant. |
| `Ranking.InsertStep` | color.go:90-99 | Inserting before the first strictly smaller slot, and evicting the last, keeps the invariant. That invariant is: key slots form a prefix as long as the keys visited; they are distinct and sorted; every key skipped or evicted counts no more than the last slot. |
| `Ranking.InsertKeepsSorted` | color.go:90-99 | The insertion keeps the slice in non-increasing count order. |
| `Ranking.InsertKeepsBelowLast` | color.go:86-99 | The last slot never counts less after an insertion. The evicted key counts no more than it. |
| `Ranking.OnlyLastEvicted` | color.go:97-99 | Every slot except the last survives an insertion. |
| `Ranking.FinishRanking` | color.go:85-101 | Once every key is visited, the slice (at most as long as the map) is a correct ranking. |
| `Ranking.FullRankingHasEveryKey` | color.go:81-83 | If `n` is at least the number of keys, the ranking holds exactly the keys of the histogram. |
| `Ranking.RankingCountsUnique` | color.go:72-76 | Two rankings of the same length agree count by count. Only the order of tied keys, and which tied keys make the cut, can differ. |
| `Ranking.TopTwoOfThreeThreeOne` | color.go:72-76 | Counts A=3, B=3, C=1: every top-2 ranking is [A, B] or [B, A]. |
| `Ranking.TopTwoOfThree` | color.go:72-76 | If only three keys exist and two of them both count more than the third, every two-slot ranking holds exactly those two, in some order. |
| `Ranking.TopFiveOfThreeThreeOne` | color.go:81-83 | Counts A=3, B=3, C=1: every top-5 ranking has three keys, with C last. |
| `Ranking.InvalidationIncludes` | color.go:69-101 | Once an `Add` lifts a key above the last count of a ranking, every ranking of the new counts of the same length includes that key. |
| `Ranking.StrictMaximumFirst` | color.go:86-99 | A key that counts strictly more than every other key heads every non-empty ranking. |

## Left out

- `fetchurl.go`: goroutines, channels, HTTP fetching and process exit. This is I/O and concurrency with no state of the histogram.
- `Color.RGBA` and the `color.Color` interface conformance (color.go:15-19): they delegate to the `image/color` library.
- `NewColor` takes the three channel values as inputs instead of calling `RGBA()` on a `color.Color`, because that call goes into `image/color`.
- The regular-expression engine, its per-call compilation (color.go:25, a performance detail) and `strconv.ParseUint` itself: a character predicate and hex arithmetic replace them.
- Histogram counts are unbounded naturals: the wrap-around of Go's `uint` at 2^64 is not modelled.
- Adding the nil colour is not modelled. Keys are a type apart from the empty slot, so the model has no collision between a nil key and the sentinel.
- `Add`'s allocation of a nil map (color.go:65-67) has no counterpart: a nil map and the empty map are the same value here.
- Histogram.ColorHistogram.TopN: the result is a sequence value. Go returns the cached slice itself, so a caller who writes into it also changes the cache. That aliasing is not modelled.
- Histogram.ColorHistogram.TopN: the two panics are preconditions, not modelled error results.
- Histogram.Scan: the pixel source is a parameter `at`, because what the source feeds to `Add` comes from the `image` library. The code calls `At` on the bounds rectangle rather than on the image, and what `image.Rectangle.At` returns is not part of this model. Go returns the histogram by value; here it is a fresh object.
