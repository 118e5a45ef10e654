/** One trade observation, as handed to the calculator by the ingestion layer. */
module Trades {

  /** An immutable trade. The timestamp is the instant as epoch milliseconds
      (never null here), `pair` the currency-pair code used as grouping key,
      `price` the quoted price and `volume` the traded quantity (a Java `int`). */
  datatype Trade = Trade(millis: int, pair: string, price: real, volume: int)

  /** The grouping key of the first stage: the exact currency-pair string. */
  function PairOf(t: Trade): string
  {
    t.pair
  }

  /** The trade's contribution to the volume-weighted sum: price times volume. */
  function Weighted(t: Trade): real
  {
    t.price * t.volume as real
  }

  /** The trade's contribution to the total volume. */
  function Volume(t: Trade): real
  {
    t.volume as real
  }
}
