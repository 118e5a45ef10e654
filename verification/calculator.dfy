/** The aggregation engine: trades grouped by currency pair, each pair's trades
    grouped by hour, each hour reduced to its VWAP, each pair's results sorted
    chronologically. */
module Calculator {
  import opened Optional
  import opened Trades
  import opened Grouping
  import opened Hours
  import opened Reducer
  import opened Series

  /** The grouping key of the second stage: the trade's hour. */
  function HourOf(t: Trade): int
  {
    HourKey(t.millis)
  }

  /** The trades of `ts` in the hour with key `k`. */
  function Bucket(ts: seq<Trade>, k: int): seq<Trade>
  {
    Select(ts, HourOf, k)
  }

  /** The trades of `input` with currency pair `p`. */
  function OfPair(input: seq<Trade>, p: string): seq<Trade>
  {
    Select(input, PairOf, p)
  }

  /** The currency pairs that occur in `input`. */
  function PairsOf(input: seq<Trade>): set<string>
  {
    set t | t in input :: t.pair
  }

  /** The starts of the hours in which `ts` has trades. */
  function HourStarts(ts: seq<Trade>): set<int>
  {
    set t | t in ts :: BucketStart(HourOf(t))
  }

  /** What the source promises of one pair's result list: one entry per hour
      that holds trades, keyed by the hour's start, in strictly ascending order
      of start, each carrying the VWAP of exactly that hour's trades (`None`
      when its volume is not positive). */
  ghost predicate IsHourlySeries(ts: seq<Trade>, s: seq<Entry>)
  {
    && StrictlyAscending(s)
    && StartsOf(s) == HourStarts(ts)
    && forall e | e in s :: e.vwap == Vwap(Bucket(ts, HourKey(e.start)))
  }

  /** The calculator object: the input trades grouped by currency pair. */
  datatype Calculator = Calculator(categorisedTrades: map<string, seq<Trade>>)

  /** The constructor: group the input by exact currency-pair string. Every
      pair of the input gets a list, and that list holds exactly the input's
      trades of that pair, in input order. */
  method NewCalculator(input: seq<Trade>) returns (c: Calculator)
    ensures c.categorisedTrades.Keys == PairsOf(input)
    ensures forall p | p in c.categorisedTrades :: c.categorisedTrades[p] == OfPair(input, p)
    ensures forall t | t in input :: multiset(c.categorisedTrades[t.pair])[t] == multiset(input)[t]
    ensures forall p, t | p in c.categorisedTrades && t in c.categorisedTrades[p] :: t.pair == p
  {
    var groups := GroupBy(input, PairOf);
    c := Calculator(groups);
    forall p, t: Trade | p in groups && t in groups[p]
      ensures t.pair == p
    {
      assert t in multiset(groups[p]);
    }
  }

  /** The entry the reduction produces for the hour with key `k`. */
  function HourEntry(ts: seq<Trade>, k: int): Entry
  {
    Entry(BucketStart(k), Vwap(Bucket(ts, k)))
  }

  /** Progress of the reduction: `collected[i]` is the entry of hour
      `hours[i]`, each hour reduced once, and exactly the hours outside
      `remaining` reduced so far. */
  ghost predicate Reduced(trades: seq<Trade>, keys: set<int>, remaining: set<int>,
                          hours: seq<int>, collected: seq<Entry>)
  {
    && remaining <= keys
    && |hours| == |collected|
    && (forall i | 0 <= i < |hours| :: hours[i] in keys && hours[i] !in remaining)
    && (forall k | k in keys && k !in remaining :: k in hours)
    && (forall i | 0 <= i < |collected| :: collected[i] == HourEntry(trades, hours[i]))
    && Distinct(hours)
  }

  /** Reducing one more hour keeps the progress description exact. */
  lemma ReduceStep(trades: seq<Trade>, keys: set<int>, remaining: set<int>,
                   hours: seq<int>, collected: seq<Entry>, hour: int)
    requires Reduced(trades, keys, remaining, hours, collected)
    requires hour in remaining
    ensures Reduced(trades, keys, remaining - {hour}, hours + [hour],
                    collected + [HourEntry(trades, hour)])
  {
    var hours', collected' := hours + [hour], collected + [HourEntry(trades, hour)];
    forall i, j | 0 <= i < j < |hours'|
      ensures hours'[i] != hours'[j]
    {
      if j == |hours| {
        assert hours'[i] == hours[i];
      } else {
        assert hours'[i] == hours[i] && hours'[j] == hours[j];
      }
    }
    forall k | k in keys && k !in remaining - {hour}
      ensures k in hours'
    {
      if k != hour {
        assert k in hours;
        var i :| 0 <= i < |hours| && hours[i] == k;
        assert hours'[i] == k;
      } else {
        assert hours'[|hours|] == k;
      }
    }
  }

  /** One pair's series: group its trades by hour, reduce each hour (in any
      order, as the parallel reduction may finish in any order), then sort the
      collected entries by start. */
  method HourlySeries(trades: seq<Trade>) returns (series: seq<Entry>)
    ensures IsHourlySeries(trades, series)
  {
    var hourlyTrades := GroupBy(trades, HourOf);
    var remaining := hourlyTrades.Keys;
    var collected: seq<Entry> := [];
    ghost var hours: seq<int> := [];
    while remaining != {}
      invariant Reduced(trades, hourlyTrades.Keys, remaining, hours, collected)
      decreases remaining
    {
      var hour :| hour in remaining;
      var outcome := CalculateVwap(hourlyTrades[hour]);
      ReduceStep(trades, hourlyTrades.Keys, remaining, hours, collected, hour);
      collected := collected + [Entry(BucketStart(hour), outcome.ToOption())];
      hours := hours + [hour];
      remaining := remaining - {hour};
    }
    series := SortByStart(collected);
    SeriesFromCollected(trades, hours, collected);
  }

  /** Distinct hours give the collected entries distinct starts. */
  lemma CollectedUniqueStarts(trades: seq<Trade>, keys: set<int>,
                              hours: seq<int>, collected: seq<Entry>)
    requires Reduced(trades, keys, {}, hours, collected)
    ensures UniqueStarts(collected)
  {
    forall i, j | 0 <= i < j < |collected|
      ensures collected[i].start != collected[j].start
    {
      BucketStartOrder(hours[i], hours[j]);
    }
  }

  /** Every collected entry is the entry of an hour holding trades, and every
      such hour has its entry among them. */
  lemma CollectedEntries(trades: seq<Trade>, keys: set<int>,
                         hours: seq<int>, collected: seq<Entry>)
    requires keys == KeysOf(trades, HourOf)
    requires Reduced(trades, keys, {}, hours, collected)
    ensures forall e | e in collected ::
      e.start in HourStarts(trades) && e.vwap == Vwap(Bucket(trades, HourKey(e.start)))
    ensures HourStarts(trades) <= StartsOf(collected)
  {
    forall e | e in collected
      ensures e.start in HourStarts(trades)
      ensures e.vwap == Vwap(Bucket(trades, HourKey(e.start)))
    {
      var i :| 0 <= i < |collected| && collected[i] == e;
      var k := hours[i];
      HourKeyOfBucketStart(k);
      var t :| t in trades && HourOf(t) == k;
    }
    forall x | x in HourStarts(trades)
      ensures x in StartsOf(collected)
    {
      var t :| t in trades && x == BucketStart(HourOf(t));
      assert HourOf(t) in keys;
      var i :| 0 <= i < |hours| && hours[i] == HourOf(t);
      assert collected[i] in collected;
    }
  }

  /** Sorting the entries of all hours meets the series contract. */
  lemma SeriesFromCollected(trades: seq<Trade>, hours: seq<int>, collected: seq<Entry>)
    requires Reduced(trades, KeysOf(trades, HourOf), {}, hours, collected)
    ensures IsHourlySeries(trades, SortByStart(collected))
  {
    var keys, series := KeysOf(trades, HourOf), SortByStart(collected);
    CollectedUniqueStarts(trades, keys, hours, collected);
    SortStrict(collected);
    CollectedEntries(trades, keys, hours, collected);
    SameMembers(series, collected);
  }

  /** `calculateHourlyVWAPs`: one strictly ascending hourly series per
      currency pair of the calculator, each computed from that pair's trades
      only. */
  method CalculateHourlyVwaps(c: Calculator) returns (out: map<string, seq<Entry>>)
    ensures out.Keys == c.categorisedTrades.Keys
    ensures forall p | p in out :: IsHourlySeries(c.categorisedTrades[p], out[p])
  {
    out := map[];
    var remaining := c.categorisedTrades.Keys;
    while remaining != {}
      invariant remaining <= c.categorisedTrades.Keys
      invariant out.Keys == c.categorisedTrades.Keys - remaining
      invariant forall p | p in out :: IsHourlySeries(c.categorisedTrades[p], out[p])
      decreases remaining
    {
      var pair :| pair in remaining;
      var series := HourlySeries(c.categorisedTrades[pair]);
      out := out[pair := series];
      remaining := remaining - {pair};
    }
  }

  /** The whole engine as its callers use it: construct, then calculate. The
      output has one entry per currency pair of the input, holding that pair's
      hourly series. */
  method Aggregate(input: seq<Trade>) returns (out: map<string, seq<Entry>>)
    ensures out.Keys == PairsOf(input)
    ensures forall p | p in out :: IsHourlySeries(OfPair(input, p), out[p])
  {
    var c := NewCalculator(input);
    out := CalculateHourlyVwaps(c);
  }

  /** Every trade is covered: its hour has its entry in the series, and that
      entry's start is the beginning of the hour the trade falls in. */
  lemma TradeHasEntry(ts: seq<Trade>, s: seq<Entry>, t: Trade)
    requires IsHourlySeries(ts, s)
    requires t in ts
    ensures HourEntry(ts, HourOf(t)) in s
    ensures HourEntry(ts, HourOf(t)).start <= t.millis < HourEntry(ts, HourOf(t)).start + MillisPerHour
  {
    var start := BucketStart(HourOf(t));
    assert start in StartsOf(s);
    var e :| e in s && e.start == start;
    HourKeyOfBucketStart(HourOf(t));
  }

  /** An hour whose total volume is not positive keeps its place in the
      series: the entry is present, with the hour's start and no value. */
  lemma UndefinedKeepsTimestamp(ts: seq<Trade>, s: seq<Entry>, t: Trade)
    requires IsHourlySeries(ts, s)
    requires t in ts
    requires TotalVolume(Bucket(ts, HourOf(t))) <= 0.0
    ensures Entry(BucketStart(HourOf(t)), None) in s
  {
    TradeHasEntry(ts, s, t);
  }

  /** A series holds exactly one entry per distinct hour of its trades. */
  lemma SeriesLength(ts: seq<Trade>, s: seq<Entry>)
    requires IsHourlySeries(ts, s)
    ensures |s| == |HourStarts(ts)|
  {
    AscendingStartsCount(s);
  }

  /** The series of a list of trades is unique: every run of the engine on
      the same trades yields the same series, whatever order the hours were
      reduced in. */
  lemma HourlySeriesUnique(ts: seq<Trade>, a: seq<Entry>, b: seq<Entry>)
    requires IsHourlySeries(ts, a) && IsHourlySeries(ts, b)
    ensures a == b
  {
    forall e
      ensures e in a <==> e in b
    {
      if e in a {
        SameStartSameEntry(ts, a, b, e);
      }
      if e in b {
        SameStartSameEntry(ts, b, a, e);
      }
    }
    AscendingDetermined(a, b);
  }

  /** An entry of one series for `ts` also appears in any other. */
  lemma SameStartSameEntry(ts: seq<Trade>, a: seq<Entry>, b: seq<Entry>, e: Entry)
    requires IsHourlySeries(ts, a) && IsHourlySeries(ts, b)
    requires e in a
    ensures e in b
  {
    assert e.start in StartsOf(b);
    var f :| f in b && f.start == e.start;
  }

  /** Isolation between buckets: trades added outside pair `p`'s hour `k`,
      whatever their volumes, and in any order, leave that bucket's VWAP
      unchanged. */
  lemma BucketIsolation(input: seq<Trade>, larger: seq<Trade>, extra: seq<Trade>, p: string, k: int)
    requires multiset(larger) == multiset(input) + multiset(extra)
    requires forall t | t in extra :: t.pair != p || HourOf(t) != k
    ensures Vwap(Bucket(OfPair(larger, p), k)) == Vwap(Bucket(OfPair(input, p), k))
  {
    var a, b := Bucket(OfPair(larger, p), k), Bucket(OfPair(input, p), k);
    forall t: Trade
      ensures multiset(a)[t] == multiset(b)[t]
    {
      if t.pair == p && HourOf(t) == k {
        assert t !in extra;
      }
    }
    assert multiset(a) == multiset(b);
    VwapOrderIndependent(a, b);
  }

  /** Isolation at the level of the output: if `larger` adds trades outside
      pair `p`'s hour `k`, then any series computed for `p` from `larger` and
      from `input` agree on hour `k`: one has an entry there exactly when the
      other has, and those entries are equal, timestamp and value. */
  lemma EntryIsolation(input: seq<Trade>, larger: seq<Trade>, extra: seq<Trade>, p: string, k: int,
                       s: seq<Entry>, s': seq<Entry>)
    requires multiset(larger) == multiset(input) + multiset(extra)
    requires forall t | t in extra :: t.pair != p || HourOf(t) != k
    requires IsHourlySeries(OfPair(input, p), s)
    requires IsHourlySeries(OfPair(larger, p), s')
    ensures forall e, e' | e in s && e' in s' && e.start == BucketStart(k) == e'.start :: e == e'
    ensures forall e | e in s && e.start == BucketStart(k) :: e in s'
    ensures forall e | e in s' && e.start == BucketStart(k) :: e in s
  {
    BucketIsolation(input, larger, extra, p, k);
    HourKeyOfBucketStart(k);
    forall e | e in s && e.start == BucketStart(k)
      ensures e in s'
    {
      HourSurvivesGrowth(input, larger, extra, p, k, s');
    }
    forall e | e in s' && e.start == BucketStart(k)
      ensures e in s
    {
      HourSurvivesShrinking(input, larger, extra, p, k, s);
    }
  }

  /** An hour of `p` with trades in `input` has its entry in any series of
      `p` computed from a larger input. */
  lemma HourSurvivesGrowth(input: seq<Trade>, larger: seq<Trade>, extra: seq<Trade>, p: string, k: int,
                           s': seq<Entry>)
    requires multiset(larger) == multiset(input) + multiset(extra)
    requires IsHourlySeries(OfPair(larger, p), s')
    requires BucketStart(k) in HourStarts(OfPair(input, p))
    ensures HourEntry(OfPair(larger, p), k) in s'
  {
    var small, big := OfPair(input, p), OfPair(larger, p);
    var t :| t in small && BucketStart(HourOf(t)) == BucketStart(k);
    BucketStartOrder(HourOf(t), k);
    assert multiset(small)[t] > 0;
    assert multiset(big)[t] > 0;
    TradeHasEntry(big, s', t);
  }

  /** An hour of `p` with trades in `larger` but none added by `extra` has
      its entry in any series of `p` computed from `input`. */
  lemma HourSurvivesShrinking(input: seq<Trade>, larger: seq<Trade>, extra: seq<Trade>, p: string, k: int,
                              s: seq<Entry>)
    requires multiset(larger) == multiset(input) + multiset(extra)
    requires forall t | t in extra :: t.pair != p || HourOf(t) != k
    requires IsHourlySeries(OfPair(input, p), s)
    requires BucketStart(k) in HourStarts(OfPair(larger, p))
    ensures HourEntry(OfPair(input, p), k) in s
  {
    var small, big := OfPair(input, p), OfPair(larger, p);
    var t :| t in big && BucketStart(HourOf(t)) == BucketStart(k);
    BucketStartOrder(HourOf(t), k);
    assert multiset(big)[t] > 0;
    assert t !in extra;
    assert multiset(small)[t] > 0;
    TradeHasEntry(small, s, t);
  }
}
