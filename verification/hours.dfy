/** Hour buckets of epoch-millisecond timestamps. */
module Hours {

  /** Milliseconds in one hour: the divisor of the hour key and the multiplier
      of the bucket start. */
  const MillisPerHour: int := 3600000

  /** The first instant (epoch millis) of the hour with key `k`. */
  function BucketStart(k: int): (start: int)
    ensures start % MillisPerHour == 0
    ensures start / MillisPerHour == k
  {
    k * MillisPerHour
  }

  /** The hour key of a timestamp: the number of whole hours since the epoch,
      rounded down, so that the bucket of the key contains the timestamp. */
  function HourKey(millis: int): (k: int)
    ensures BucketStart(k) <= millis < BucketStart(k) + MillisPerHour
  {
    millis / MillisPerHour
  }

  /** The hour key is the one key whose hour contains the timestamp. */
  lemma HourKeyIff(millis: int, k: int)
    ensures HourKey(millis) == k <==> BucketStart(k) <= millis < BucketStart(k) + MillisPerHour
  {
  }

  /** A bucket start lies in its own bucket, so the key is recovered from it. */
  lemma HourKeyOfBucketStart(k: int)
    ensures HourKey(BucketStart(k)) == k
  {
    HourKeyIff(BucketStart(k), k);
  }

  /** Distinct keys have distinct starts, in the same order. */
  lemma BucketStartOrder(j: int, k: int)
    ensures j < k <==> BucketStart(j) < BucketStart(k)
    ensures j == k <==> BucketStart(j) == BucketStart(k)
  {
  }

  /** Later timestamps never fall in an earlier bucket. */
  lemma HourKeyMonotone(a: int, b: int)
    requires a <= b
    ensures HourKey(a) <= HourKey(b)
  {
  }

  /** The hour key as the source writes it: Java `long` division, which
      truncates toward zero. */
  function JavaHourKey(millis: int): (k: int)
    ensures 0 <= millis ==> 0 <= BucketStart(k) <= millis
    ensures millis < 0 ==> millis <= BucketStart(k) <= 0
    ensures millis - MillisPerHour < BucketStart(k) < millis + MillisPerHour
  {
    if millis >= 0 then millis / MillisPerHour else -((-millis) / MillisPerHour)
  }

  /** From the epoch on, the source's key is the floor key used by the model. */
  lemma JavaHourKeyFromEpoch(millis: int)
    requires 0 <= millis
    ensures JavaHourKey(millis) == HourKey(millis)
  {
    HourKeyIff(millis, JavaHourKey(millis));
  }

  /** Before the epoch, every timestamp that is not on an hour boundary gets
      the key of the FOLLOWING hour from truncating division, so its reported
      bucket starts after the trade itself. */
  lemma JavaHourKeyMisplacesPreEpoch(millis: int)
    requires millis < 0 && millis % MillisPerHour != 0
    ensures JavaHourKey(millis) == HourKey(millis) + 1
    ensures millis < BucketStart(JavaHourKey(millis))
  {
    var j := JavaHourKey(millis);
    var h := HourKey(millis);
    assert BucketStart(h) < millis;
    HourKeyIff(millis, j - 1);
  }

  /** Truncation folds two hours into key 0: a timestamp gets key 0 exactly
      when it lies strictly within one hour of the epoch, on either side, so
      the hour before the epoch and the hour after it share one bucket. */
  lemma JavaHourKeyZeroSpansTwoHours(millis: int)
    ensures JavaHourKey(millis) == 0 <==> -MillisPerHour < millis < MillisPerHour
  {
  }

  /** The smallest instance: one millisecond before the epoch is reported in
      the bucket starting at the epoch. */
  lemma OneMilliBeforeEpoch()
    ensures JavaHourKey(-1) == 0 && HourKey(-1) == -1
    ensures BucketStart(JavaHourKey(-1)) == 0
  {
  }
}
