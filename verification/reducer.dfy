/** The per-bucket reduction: the volume-weighted average price of a list of
    trades, undefined when the total volume is not positive. */
module Reducer {
  import opened Trades
  import opened Optional

  /** The message of the exception raised for a bucket without positive volume. */
  const ZeroVolumeMessage: string := "Erroneous data - total volume of trades is zero"

  /** Sum of `f` over the trades, accumulated from the first to the last. */
  function Sum(ts: seq<Trade>, f: Trade -> real): real
  {
    if |ts| == 0 then 0.0 else Sum(ts[..|ts| - 1], f) + f(ts[|ts| - 1])
  }

  /** Sum of price times volume. */
  function Notional(ts: seq<Trade>): real
  {
    Sum(ts, Weighted)
  }

  /** Sum of the volumes. */
  function TotalVolume(ts: seq<Trade>): real
  {
    Sum(ts, Volume)
  }

  /** The VWAP of a bucket: defined exactly when the total volume is positive,
      and then the price that, applied to the whole volume, gives the notional. */
  function Vwap(ts: seq<Trade>): (r: Option<real>)
    ensures r.Some? <==> TotalVolume(ts) > 0.0
    ensures r.Some? ==> r.value * TotalVolume(ts) == Notional(ts)
  {
    var volume := TotalVolume(ts);
    if volume <= 0.0 then None else Some(Notional(ts) / volume)
  }

  /** The reduction as the source runs it: one pass accumulating both sums,
      then a division, or an exception when the total volume is not positive. */
  method CalculateVwap(trades: seq<Trade>) returns (r: Result<real>)
    ensures r.ToOption() == Vwap(trades)
    ensures r.Failure? ==> r.message == ZeroVolumeMessage
  {
    var volumePrice := 0.0;
    var totalVolume := 0.0;
    var i := 0;
    while i < |trades|
      invariant 0 <= i <= |trades|
      invariant volumePrice == Notional(trades[..i])
      invariant totalVolume == TotalVolume(trades[..i])
    {
      assert trades[..i + 1][..i] == trades[..i];
      volumePrice := volumePrice + trades[i].price * trades[i].volume as real;
      totalVolume := totalVolume + trades[i].volume as real;
      i := i + 1;
    }
    assert trades[..i] == trades;
    if totalVolume <= 0.0 {
      r := Failure(ZeroVolumeMessage);
    } else {
      r := Success(volumePrice / totalVolume);
    }
  }

  /** Summing a concatenation sums each part. */
  lemma {:induction false} SumAppend(a: seq<Trade>, b: seq<Trade>, f: Trade -> real)
    ensures Sum(a + b, f) == Sum(a, f) + Sum(b, f)
    decreases |b|
  {
    if |b| == 0 {
      assert a + b == a;
    } else {
      assert (a + b)[..|a + b| - 1] == a + b[..|b| - 1];
      SumAppend(a, b[..|b| - 1], f);
    }
  }

  /** Taking one trade out of a sequence takes its term out of the sum. */
  lemma SumRemove(b: seq<Trade>, j: int, f: Trade -> real)
    requires 0 <= j < |b|
    ensures Sum(b, f) == Sum(b[..j] + b[j + 1..], f) + f(b[j])
  {
    var before, after := b[..j], b[j + 1..];
    var upTo := before + [b[j]];
    assert b == upTo + after;
    SumAppend(upTo, after, f);
    assert upTo[..|upTo| - 1] == before;
    SumAppend(before, after, f);
  }

  /** A sum does not depend on the order of the trades. */
  lemma {:induction false} SumPermutation(a: seq<Trade>, b: seq<Trade>, f: Trade -> real)
    requires multiset(a) == multiset(b)
    ensures Sum(a, f) == Sum(b, f)
    decreases |a|
  {
    if |a| > 0 {
      var init, last := a[..|a| - 1], a[|a| - 1];
      assert a == init + [last];
      assert last in multiset(b);
      var j :| 0 <= j < |b| && b[j] == last;
      var rest := b[..j] + b[j + 1..];
      assert b == b[..j] + [last] + b[j + 1..];
      calc {
        multiset(init);
        multiset(a) - multiset{last};
        multiset(b) - multiset{last};
        multiset(b[..j]) + multiset(b[j + 1..]);
        multiset(rest);
      }
      SumPermutation(init, rest, f);
      SumRemove(b, j, f);
    }
  }

  /** A sum of pointwise smaller terms is smaller. */
  lemma {:induction false} SumMonotone(ts: seq<Trade>, f: Trade -> real, g: Trade -> real)
    requires forall t | t in ts :: f(t) <= g(t)
    ensures Sum(ts, f) <= Sum(ts, g)
  {
    if |ts| > 0 {
      SumMonotone(ts[..|ts| - 1], f, g);
    }
  }

  /** A constant factor comes out of a sum. */
  lemma {:induction false} SumScale(ts: seq<Trade>, c: real, f: Trade -> real, g: Trade -> real)
    requires forall t | t in ts :: g(t) == c * f(t)
    ensures Sum(ts, g) == c * Sum(ts, f)
  {
    if |ts| > 0 {
      SumScale(ts[..|ts| - 1], c, f, g);
    }
  }

  /** The VWAP does not depend on the order of the trades in the bucket. */
  lemma VwapOrderIndependent(a: seq<Trade>, b: seq<Trade>)
    requires multiset(a) == multiset(b)
    ensures Vwap(a) == Vwap(b)
  {
    SumPermutation(a, b, Weighted);
    SumPermutation(a, b, Volume);
  }

  /** A bucket holding one trade of positive volume has that trade's price. */
  lemma VwapSingleTrade(t: Trade)
    requires t.volume > 0
    ensures Vwap([t]) == Some(t.price)
  {
    assert [t][..0] == [];
    var v := t.volume as real;
    assert Sum([t], Volume) == Sum([], Volume) + Volume(t);
    assert Sum([t], Weighted) == Sum([], Weighted) + Weighted(t);
    assert TotalVolume([t]) == v;
    assert Notional([t]) == t.price * v;
    assert (t.price * v) / v == t.price;
    assert Vwap([t]) == Some((t.price * v) / v);
  }

  /** A bucket whose volumes are all at most zero has no VWAP. */
  lemma VwapUndefinedWithoutVolume(ts: seq<Trade>)
    requires forall t | t in ts :: t.volume <= 0
    ensures Vwap(ts) == None
  {
    SumMonotone(ts, Volume, _ => 0.0);
    SumScale(ts, 0.0, Volume, _ => 0.0);
  }

  /** Scaling by a positive factor preserves order, so it can be cancelled. */
  lemma CancelPositive(x: real, y: real, v: real)
    requires v > 0.0
    requires x * v <= y * v
    ensures x <= y
  {
  }

  /** Each trade's weighted term lies between its volume scaled by the
      lowest and by the highest price. */
  lemma {:induction false} NotionalBounds(ts: seq<Trade>, lo: real, hi: real)
    requires forall t | t in ts :: 0 <= t.volume && lo <= t.price <= hi
    ensures lo * TotalVolume(ts) <= Notional(ts) <= hi * TotalVolume(ts)
  {
    if |ts| > 0 {
      var init, last := ts[..|ts| - 1], ts[|ts| - 1];
      NotionalBounds(init, lo, hi);
      var v := Volume(last);
      assert (last.price - lo) * v >= 0.0;
      assert (hi - last.price) * v >= 0.0;
    }
  }

  /** With non-negative volumes and prices in `[lo, hi]`, the VWAP, when it is
      defined, lies in `[lo, hi]`: it is a weighted mean of the prices. */
  lemma VwapWithinPriceRange(ts: seq<Trade>, lo: real, hi: real)
    requires forall t | t in ts :: 0 <= t.volume && lo <= t.price <= hi
    requires TotalVolume(ts) > 0.0
    ensures Vwap(ts).Some?
    ensures lo <= Vwap(ts).value <= hi
  {
    NotionalBounds(ts, lo, hi);
    var v := TotalVolume(ts);
    var w := Vwap(ts).value;
    CancelPositive(lo, w, v);
    CancelPositive(w, hi, v);
  }
}
