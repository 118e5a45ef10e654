/** Concrete instances of the engine's contract: the inputs of the
    calculator's unit tests, with the series any run must produce for them. */
module Scenarios {
  import opened Optional
  import opened Trades
  import opened Grouping
  import opened Hours
  import opened Reducer
  import opened Series
  import opened Calculator

  /** 2024-10-24T10:00:00Z in epoch milliseconds. */
  const TenOClock: int := 1729764000000

  /** Five trades in the 10:00 hour, the two USD/JPY ones with volume zero. */
  const ZeroVolumeTrades: seq<Trade> := [
    Trade(1729764930000, "USD/JPY", 142.497, 0),
    Trade(1729764931000, "USD/JPY", 139.392, 0),
    Trade(1729764932000, "AUD/USD", 0.6899, 444134),
    Trade(1729764933000, "NZD/GBP", 0.4731, 64380),
    Trade(1729764934000, "NZD/GBP", 0.4725, 8226295)
  ]

  /** A series whose trades all fall in one hour is that hour's single entry. */
  lemma SingleHourSeries(ts: seq<Trade>, s: seq<Entry>, k: int)
    requires IsHourlySeries(ts, s)
    requires |ts| > 0
    requires forall t | t in ts :: HourOf(t) == k
    ensures s == [HourEntry(ts, k)]
  {
    assert ts[0] in ts;
    assert HourStarts(ts) == {BucketStart(k)};
    SeriesLength(ts, s);
    TradeHasEntry(ts, s, ts[0]);
    assert HourEntry(ts, k) in s;
  }

  /** A group that is a prefix of the input: every trade of `a` carries key
      `k` and no trade of `b` does. */
  lemma {:induction false} SelectPrefix<K>(a: seq<Trade>, b: seq<Trade>, key: Trade -> K, k: K)
    requires forall t | t in a :: key(t) == k
    requires forall t | t in b :: key(t) != k
    ensures Select(a + b, key, k) == a
  {
    SelectAppend(a, b, key, k);
    SelectAll(a, key, k);
    SelectEmptyIffAbsent(b, key, k);
  }

  /** A group of one trade: `x` carries key `k` and no trade around it does. */
  lemma {:induction false} SelectOnly<K>(a: seq<Trade>, x: Trade, b: seq<Trade>, key: Trade -> K, k: K)
    requires key(x) == k
    requires forall t | t in a :: key(t) != k
    requires forall t | t in b :: key(t) != k
    ensures Select(a + [x] + b, key, k) == [x]
  {
    SelectAppend(a + [x], b, key, k);
    SelectAppend(a, [x], key, k);
    SelectEmptyIffAbsent(a, key, k);
    SelectAll([x], key, k);
    SelectEmptyIffAbsent(b, key, k);
  }

  /** The USD/JPY trades of the scenario are its first two. */
  lemma ScenarioUsdJpy()
    ensures OfPair(ZeroVolumeTrades, "USD/JPY") == ZeroVolumeTrades[..2]
  {
    var ts := ZeroVolumeTrades;
    assert ts == ts[..2] + ts[2..];
    assert ts[2..] == [ts[2], ts[3], ts[4]];
    SelectPrefix(ts[..2], ts[2..], PairOf, "USD/JPY");
  }

  /** The AUD/USD trade of the scenario is its third. */
  lemma ScenarioAudUsd()
    ensures OfPair(ZeroVolumeTrades, "AUD/USD") == [ZeroVolumeTrades[2]]
  {
    var ts := ZeroVolumeTrades;
    assert ts == ts[..2] + [ts[2]] + ts[3..];
    assert ts[..2] == [ts[0], ts[1]];
    assert ts[3..] == [ts[3], ts[4]];
    SelectOnly(ts[..2], ts[2], ts[3..], PairOf, "AUD/USD");
  }

  /** A series whose trades all fall in hour `k` with no positive volume is
      that hour's start with no value. */
  lemma SingleHourNoVolume(ts: seq<Trade>, s: seq<Entry>, k: int)
    requires IsHourlySeries(ts, s)
    requires |ts| > 0
    requires forall t | t in ts :: HourOf(t) == k && t.volume <= 0
    ensures s == [Entry(BucketStart(k), None)]
  {
    SingleHourSeries(ts, s, k);
    SelectAll(ts, HourOf, k);
    VwapUndefinedWithoutVolume(ts);
  }

  /** The USD/JPY trades of the scenario both lie in the 10:00 hour, with
      volume zero. */
  lemma UsdJpyHour()
    ensures forall t | t in ZeroVolumeTrades[..2] :: HourOf(t) == 480490 && t.volume == 0
  {
    var jpy := ZeroVolumeTrades[..2];
    assert jpy == [ZeroVolumeTrades[0], ZeroVolumeTrades[1]];
    assert HourOf(jpy[0]) == 480490 && HourOf(jpy[1]) == 480490;
  }

  /** The zero-volume USD/JPY hour keeps its 10:00 timestamp with no value. */
  lemma ZeroVolumeHourScenario(usdJpy: seq<Entry>)
    requires IsHourlySeries(OfPair(ZeroVolumeTrades, "USD/JPY"), usdJpy)
    ensures usdJpy == [Entry(TenOClock, None)]
  {
    ScenarioUsdJpy();
    UsdJpyHour();
    SingleHourNoVolume(ZeroVolumeTrades[..2], usdJpy, 480490);
  }

  /** The AUD/USD hour of the same input, with one trade, gets that trade's
      price, unaffected by the failed USD/JPY hour. */
  lemma SingleTradeHourScenario(audUsd: seq<Entry>)
    requires IsHourlySeries(OfPair(ZeroVolumeTrades, "AUD/USD"), audUsd)
    ensures audUsd == [Entry(TenOClock, Some(0.6899))]
  {
    ScenarioAudUsd();
    var aud := [ZeroVolumeTrades[2]];
    assert forall t | t in aud :: HourOf(t) == 480490;
    SingleHourSeries(aud, audUsd, 480490);
    SelectAll(aud, HourOf, 480490);
    VwapSingleTrade(ZeroVolumeTrades[2]);
  }

  /** One trade a millisecond before the epoch and one a millisecond after,
      of the same pair and with distinct prices. */
  const EpochStraddle: seq<Trade> := [
    Trade(-1, "EUR/USD", 1.0, 1),
    Trade(1, "EUR/USD", 2.0, 1)
  ]

  /** The hour key as the source computes it, for a trade. */
  function JavaHourOf(t: Trade): int
  {
    JavaHourKey(t.millis)
  }

  /** The hour groups of `ts` under `key` that hold only `ts[0]` and only
      `ts[1]`, for a two-trade input whose trades have different keys. */
  lemma SplitPair(ts: seq<Trade>, key: Trade -> int)
    requires |ts| == 2 && key(ts[0]) != key(ts[1])
    ensures Select(ts, key, key(ts[0])) == [ts[0]]
    ensures Select(ts, key, key(ts[1])) == [ts[1]]
  {
    assert ts == [ts[0]] + [ts[1]];
    SelectSnoc([ts[0]], ts[1], key, key(ts[0]));
    SelectSnoc([ts[0]], ts[1], key, key(ts[1]));
    SelectAll([ts[0]], key, key(ts[0]));
    SelectEmptyIffAbsent([ts[0]], key, key(ts[1]));
  }

  /** Under the source's key both trades of `EpochStraddle` form one bucket,
      whose VWAP is the average of the two prices. */
  lemma EpochStraddleMerged()
    ensures Select(EpochStraddle, JavaHourOf, 0) == EpochStraddle
    ensures Vwap(EpochStraddle) == Some(1.5)
  {
    var ts := EpochStraddle;
    JavaHourKeyZeroSpansTwoHours(-1);
    JavaHourKeyZeroSpansTwoHours(1);
    SelectAll(ts, JavaHourOf, 0);
    assert ts == [ts[0]] + [ts[1]];
    assert [ts[0]][..0] == [] && [ts[1]][..0] == [];
    SumAppend([ts[0]], [ts[1]], Weighted);
    SumAppend([ts[0]], [ts[1]], Volume);
    assert Notional(ts) == 3.0 && TotalVolume(ts) == 2.0;
  }

  /** Two trades in different hours start two different hours. */
  lemma TwoHourStarts(ts: seq<Trade>)
    requires |ts| == 2 && HourOf(ts[0]) < HourOf(ts[1])
    ensures HourStarts(ts) == {BucketStart(HourOf(ts[0])), BucketStart(HourOf(ts[1]))}
    ensures BucketStart(HourOf(ts[0])) < BucketStart(HourOf(ts[1]))
  {
    BucketStartOrder(HourOf(ts[0]), HourOf(ts[1]));
    assert ts == [ts[0], ts[1]];
  }

  /** A series of two trades in different hours holds the earlier hour's
      entry, then the later one's. */
  lemma TwoHourSeries(ts: seq<Trade>, s: seq<Entry>)
    requires IsHourlySeries(ts, s)
    requires |ts| == 2 && HourOf(ts[0]) < HourOf(ts[1])
    ensures s == [HourEntry(ts, HourOf(ts[0])), HourEntry(ts, HourOf(ts[1]))]
  {
    var a, b := HourEntry(ts, HourOf(ts[0])), HourEntry(ts, HourOf(ts[1]));
    TradeHasEntry(ts, s, ts[0]);
    TradeHasEntry(ts, s, ts[1]);
    TwoHourStarts(ts);
    SeriesLength(ts, s);
    TwoEntries(s, a, b);
  }

  /** A strictly ascending list of two entries holding `a` and a later `b`
      is exactly `[a, b]`. */
  lemma TwoEntries(s: seq<Entry>, a: Entry, b: Entry)
    requires StrictlyAscending(s) && |s| == 2
    requires a in s && b in s && a.start < b.start
    ensures s == [a, b]
  {
    assert s[0].start < s[1].start;
  }

  /** Under the floor key each trade of `EpochStraddle` has its own hour, the
      first starting one hour before the epoch. */
  lemma EpochStraddleSeries(s: seq<Entry>)
    requires IsHourlySeries(EpochStraddle, s)
    ensures s == [Entry(-MillisPerHour, Some(1.0)), Entry(0, Some(2.0))]
  {
    var ts := EpochStraddle;
    assert HourOf(ts[0]) == -1 && HourOf(ts[1]) == 0;
    TwoHourSeries(ts, s);
    SplitPair(ts, HourOf);
    VwapSingleTrade(ts[0]);
    VwapSingleTrade(ts[1]);
  }
}
