# Hourly VWAP aggregation: a Dafny model

This project models the aggregation engine of a VWAP (volume-weighted average
price) calculator for currency-pair tick data and proves properties of it. The
engine is the `VWAPCalculator` class. Its constructor groups a list of trades by
exact currency-pair string. `calculateHourlyVWAPs` works pair by pair:

1. It groups the pair's trades by hour key. The key is the epoch milliseconds
   divided by 3 600 000.
2. It reduces each hour to an entry `(bucket start, VWAP)`. The bucket start is
   the key times 3 600 000.
3. The VWAP is `sum(price*volume) / sum(volume)`. When the total volume is not
   positive it is `null`, but the entry still carries the hour's timestamp.
4. It sorts the pair's entries chronologically.

Modules, one per concept:

- `Optional`: `Option` (a Java reference that may be `null`) and `Result` (a
  computation that may throw).
- `Trades`: the immutable `Trade` record (epoch millis, pair, price, volume).
- `Grouping`: the sequential meaning of the `groupingBy` collector. `Select`
  is its functional reference definition. `GroupBy` is the one-pass collector,
  proved equal to it.
- `Hours`: the hour key and the bucket start. It holds both the source's
  truncating division (`JavaHourKey`) and the floor division the model uses
  (`HourKey`); see Findings.
- `Reducer`: `calculateVWAP`. The functional `Vwap`, the one-pass method
  `CalculateVwap` proved equal to it, and the weighted-mean laws.
- `Series`: the `(start, outcome)` entry, insertion sort by start, and the
  ascending-order lemmas.
- `Calculator`: the constructor, `calculateHourlyVWAPs` and the end-to-end
  `Aggregate`. `IsHourlySeries` states what one pair's result list must be. The
  hours, and then the pairs, are processed in an arbitrary order (`:|`). This
  stands for the parallel reduction finishing in any order.
  `HourlySeriesUnique` shows the output does not depend on that order.
- `Scenarios`: the unit tests' zero-volume input, with the series any run must
  produce for it.

Prices, sums and VWAPs are exact `real`s. A trade's timestamp is an `int` of
epoch milliseconds, so a null timestamp cannot occur.

## Model

| member | source | states |
|---|---|---|
| Calculator.NewCalculator | src/main/java/org/vwap/calculator/VWAPCalculator.java:19-22 | The constructor's map has exactly the input's pairs as keys. Each list holds exactly that pair's trades, in input order. Every input trade occurs in its pair's list as often as in the input. No list holds a trade of another pair. |
| Optional.Result.ToOption | src/main/java/org/vwap/calculator/VWAPCalculator.java:48-56 | Catching the exception yields no value exactly when the computation failed. A successful computation's value is kept unchanged. |
| Grouping.GroupBy | src/main/java/org/vwap/calculator/VWAPCalculator.java:21 | The one-pass collector produces exactly the keys that occur. Each key's list equals the reference selection of the trades with that key. |
| Grouping.Select | src/main/java/org/vwap/calculator/VWAPCalculator.java:35-36 | A group holds each trade with its key exactly as often as the input does, and nothing with another key. |
| Grouping.SelectEmptyIffAbsent | src/main/java/org/vwap/calculator/VWAPCalculator.java:21 | A key's group is non-empty exactly when some trade carries that key, so no key gets an empty list. |
| Grouping.SelectAppend | src/main/java/org/vwap/calculator/VWAPCalculator.java:21 | Grouping a concatenation groups each part. |
| Grouping.PartitionCount | src/main/java/org/vwap/calculator/VWAPCalculator.java:35-36 | Grouping loses and duplicates nothing: over the keys that occur, the group sizes add up to the number of trades. |
| Hours.BucketStart | src/main/java/org/vwap/calculator/VWAPCalculator.java:47 | A bucket start is an exact hour boundary (a multiple of 3 600 000), and dividing it by 3 600 000 gives back its key. |
| Hours.HourKey | src/main/java/org/vwap/calculator/VWAPCalculator.java:36 | The hour key's bucket contains the timestamp: `start <= millis < start + 3600000`. |
| Hours.HourKeyIff | src/main/java/org/vwap/calculator/VWAPCalculator.java:36 | A key is a timestamp's hour key if and only if the key's hour contains the timestamp. |
| Hours.HourKeyOfBucketStart | src/main/java/org/vwap/calculator/VWAPCalculator.java:47 | A bucket start maps back to its own key. |
| Hours.BucketStartOrder | src/main/java/org/vwap/calculator/VWAPCalculator.java:47 | Bucket starts are ordered as their keys, and distinct keys have distinct starts. |
| Hours.HourKeyMonotone | src/main/java/org/vwap/calculator/VWAPCalculator.java:36 | A later timestamp never gets an earlier hour key. |
| Hours.JavaHourKey | src/main/java/org/vwap/calculator/VWAPCalculator.java:36 | The source's truncating key puts the bucket start strictly within an hour of the timestamp, on the epoch's side of it. |
| Hours.JavaHourKeyFromEpoch | src/main/java/org/vwap/calculator/VWAPCalculator.java:36 | For timestamps from the epoch on, the source's key equals the floor key the model uses. |
| Hours.JavaHourKeyMisplacesPreEpoch | src/main/java/org/vwap/calculator/VWAPCalculator.java:47 | Before the epoch, off the hour boundaries, the source's key is one more than the floor key, and its bucket starts after the trade. |
| Hours.OneMilliBeforeEpoch | src/main/java/org/vwap/calculator/VWAPCalculator.java:36 | The concrete case: timestamp -1 gets key 0 and bucket start 0 (1970-01-01T00:00Z). |
| Hours.JavaHourKeyZeroSpansTwoHours | src/main/java/org/vwap/calculator/VWAPCalculator.java:36 | The source's key is 0 exactly for timestamps strictly within one hour of the epoch, on either side. So key 0 covers two hours, the one before the epoch and the one after it. |
| Reducer.Vwap | src/main/java/org/vwap/calculator/VWAPCalculator.java:77-81 | A bucket has a VWAP exactly when its total volume is positive. That VWAP times the total volume is the sum of price times volume. |
| Reducer.CalculateVwap | src/main/java/org/vwap/calculator/VWAPCalculator.java:68-82 | The one-pass accumulation throws exactly when the total volume is at most 0, with the source's message. Otherwise it returns the VWAP. |
| Reducer.SumAppend | src/main/java/org/vwap/calculator/VWAPCalculator.java:72-75 | The accumulated sums of a concatenation are the sums of its parts. |
| Reducer.SumPermutation | src/main/java/org/vwap/calculator/VWAPCalculator.java:72-75 | The accumulated sums do not depend on the order of the trades. |
| Reducer.VwapOrderIndependent | src/main/java/org/vwap/calculator/VWAPCalculator.java:68-82 | Reordering a bucket's trades leaves its VWAP unchanged. |
| Reducer.VwapSingleTrade | src/test/java/calculator/VWAPCalculatorTest.java:44 | A bucket holding one trade of positive volume has that trade's price as its VWAP. |
| Reducer.VwapUndefinedWithoutVolume | src/main/java/org/vwap/calculator/VWAPCalculator.java:77-78 | A bucket whose volumes are all at most 0 has no VWAP. |
| Reducer.NotionalBounds | src/main/java/org/vwap/calculator/VWAPCalculator.java:72-75 | With non-negative volumes and prices in `[lo, hi]`, the sum of price times volume lies between `lo` and `hi` times the total volume. |
| Reducer.VwapWithinPriceRange | src/main/java/org/vwap/calculator/VWAPCalculator.java:72-80 | With non-negative volumes, a positive total and prices in `[lo, hi]`, the VWAP is defined and lies in `[lo, hi]`. Taking `lo` and `hi` as the bucket's minimum and maximum price gives min price <= VWAP <= max price. |
| Series.Insert | src/main/java/org/vwap/calculator/VWAPCalculator.java:62 | Inserting into a sorted list keeps it sorted by start and adds exactly the new entry. |
| Series.SortByStart | src/main/java/org/vwap/calculator/VWAPCalculator.java:62 | Sorting by start yields a list sorted by start that is a permutation of its input. |
| Series.InsertStrict | src/main/java/org/vwap/calculator/VWAPCalculator.java:62 | Inserting an entry at a new start into a strictly ascending list keeps it strictly ascending. |
| Series.SortStrict | src/main/java/org/vwap/calculator/VWAPCalculator.java:62 | When no two entries share a start, the sorted list is strictly ascending. |
| Series.AscendingStartsCount | src/main/java/org/vwap/calculator/VWAPCalculator.java:62 | A strictly ascending list has exactly as many entries as distinct starts. |
| Series.AscendingDetermined | src/main/java/org/vwap/calculator/VWAPCalculator.java:62 | Two strictly ascending lists with the same entries are equal. |
| Calculator.HourlySeries | src/main/java/org/vwap/calculator/VWAPCalculator.java:35-62 | One pair's list is strictly ascending by start. Its starts are exactly the starts of the hours holding trades. Each entry carries the VWAP of exactly that hour's trades, whatever order the hours were reduced in. |
| Calculator.CalculateHourlyVwaps | src/main/java/org/vwap/calculator/VWAPCalculator.java:30-66 | The output has exactly the calculator's pairs as keys. Each pair maps to the hourly series of that pair's trades. |
| Calculator.Aggregate | src/main/java/org/vwap/calculator/VWAPCalculator.java:19-66 | Construct-then-calculate maps every pair of the input, and no other string, to the hourly series of that pair's trades. |
| Calculator.TradeHasEntry | src/main/java/org/vwap/calculator/VWAPCalculator.java:42-58 | Every trade's hour has its entry in the series. That entry's start is the beginning of the hour the trade falls in. |
| Calculator.UndefinedKeepsTimestamp | src/main/java/org/vwap/calculator/VWAPCalculator.java:50-52 | An hour whose total volume is at most 0 is still present in the series, with its start and no value. |
| Calculator.SeriesLength | src/main/java/org/vwap/calculator/VWAPCalculator.java:38-39 | A pair's series has exactly one entry per distinct hour among its trades. |
| Calculator.HourlySeriesUnique | src/main/java/org/vwap/calculator/VWAPCalculator.java:42-62 | Any two series meeting the contract for the same trades are equal. So the result does not depend on the order the parallel reduction finishes in. |
| Calculator.BucketIsolation | src/main/java/org/vwap/calculator/VWAPCalculator.java:42-59 | Adding trades outside pair `p`'s hour `k`, of any volume and in any order, leaves that bucket's VWAP unchanged. |
| Calculator.EntryIsolation | src/main/java/org/vwap/calculator/VWAPCalculator.java:42-62 | Adding trades outside pair `p`'s hour `k` leaves that hour alone in `p`'s series. One series has an entry at the hour's start exactly when the other has, and those entries are equal, timestamp and value. |
| Calculator.HourSurvivesGrowth | src/main/java/org/vwap/calculator/VWAPCalculator.java:35-47 | An hour of `p` with trades in the input has its entry in the series computed from any larger input. |
| Calculator.HourSurvivesShrinking | src/main/java/org/vwap/calculator/VWAPCalculator.java:35-47 | An hour of `p` whose trades are all in the input keeps its entry when the added trades avoid that hour. |
| Scenarios.ZeroVolumeHourScenario | src/test/java/calculator/VWAPCalculatorTest.java:63-64 | For the test's input, the USD/JPY series is the single entry (2024-10-24T10:00Z, no value). |
| Scenarios.SingleTradeHourScenario | src/test/java/calculator/VWAPCalculatorTest.java:65 | For the same input, the AUD/USD series is the single entry (2024-10-24T10:00Z, 0.6899). |
| Scenarios.EpochStraddleMerged | src/main/java/org/vwap/calculator/VWAPCalculator.java:36 | The source's truncating key puts a trade at -1 ms and a trade at +1 ms into the one bucket with key 0. Their combined VWAP (prices 1.0 and 2.0, volume 1 each) is 1.5. |
| Scenarios.EpochStraddleSeries | src/main/java/org/vwap/calculator/VWAPCalculator.java:35-62 | With the floor key, the same two trades give two entries: (-3 600 000, 1.0) and (0, 2.0). |

## Findings

| source | as written | input that shows it | evidently intended | confidence | as-written member | corrected member |
|---|---|---|---|---|---|---|
| src/main/java/org/vwap/calculator/VWAPCalculator.java:36 | `toEpochMilli() / 3600000` truncates toward zero, so a pre-1970 timestamp off an hour boundary gets the key of the following hour. | millis = -1 (1969-12-31T23:59:59.999Z) gets key 0. Its reported bucket starts at 1970-01-01T00:00Z, after the trade. Trades of one pair at -1 and +1 share that bucket, so the source reports one merged entry at 0. | Floor division (`Math.floorDiv`): the bucket is the UTC hour containing the trade, `start <= millis < start + 3600000`. | low (not executed; pre-1970 tick data is unlikely) | Hours.JavaHourKey, shown by Hours.JavaHourKeyMisplacesPreEpoch, Hours.OneMilliBeforeEpoch, Hours.JavaHourKeyZeroSpansTwoHours and Scenarios.EpochStraddleMerged | Hours.HourKey, proved by its contract and Hours.HourKeyIff; at engine level Scenarios.EpochStraddleSeries |

The engine uses `Hours.HourKey`. `Hours.JavaHourKeyFromEpoch` proves that this
equals the source's key for every timestamp at or after the epoch. So on such
inputs the engine computes exactly what the source computes. Before the epoch
the two differ. The source's key 0 covers every timestamp strictly within an
hour of the epoch, on either side (`Hours.JavaHourKeyZeroSpansTwoHours`), so
the source merges the hour before the epoch into the bucket starting at the
epoch. `Scenarios.EpochStraddleMerged` and `Scenarios.EpochStraddleSeries` show
one such input. The source reports one merged entry for it, and the engine
reports two.

## Left out

- `FileReader.java`, `Main.java` and `generate_test_data.py` are not part of this model. They cover file I/O, text parsing through library parsers, the command line, timing, and test-data generation.
- Calculator.HourlySeries, Calculator.CalculateHourlyVwaps, Calculator.Aggregate and Calculator.TradeHasEntry: bucket pre-epoch timestamps by floor division. The source truncates toward zero (VWAPCalculator.java:36). That shifts each pre-epoch timestamp that is not on an hour boundary into the following hour. It also merges the timestamps in (-3600000, 3600000) into the single bucket with key 0. The model does not reproduce that output; see Findings.
- Calculator.NewCalculator: keeps each pair's trades in input order. The concurrent collector in the source promises no order within a list. Nothing downstream depends on that order (`Reducer.VwapOrderIndependent`).
- Concurrency is modelled sequentially. This covers `parallelStream`, `groupingByConcurrent`, and the unsynchronised `ArrayList.add` from a parallel `forEach` (VWAPCalculator.java:58). The model does the intended collect-then-sort. Arbitrary arrival order is modelled by an arbitrary choice of the next hour or pair.
- Reducer.CalculateVwap: computes in exact reals. The source has a `float` price, a `float` product `price * volume`, and `double` accumulation. Rounding, and the bit-exact test constants such as `139.42494749734252`, are not modelled.
- Trade volumes are unbounded integers, not 32-bit Java `int`s. The source only sums volumes in a `double`, so no wrap-around occurs there.
- Null timestamps are not modelled. The source throws a `NullPointerException` at VWAPCalculator.java:36. Here a timestamp is always an integer.
- Instants beyond the `long` millisecond range are not modelled. For those, `toEpochMilli` throws `ArithmeticException` during grouping, outside the caught region.
- The stderr diagnostics for a failed bucket are not modelled (VWAPCalculator.java:51-55). Neither are the Lombok getters and setters. Trades are immutable values.
- The `HashMap` and `ArrayList` capacity hints have no observable effect and are not modelled.
