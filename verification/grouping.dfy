/** The sequential meaning of a `groupingBy` collector over trades: every trade
    goes to the list of its key, keeping the input order within each list. */
module Grouping {
  import opened Trades

  /** The set of keys that occur among `xs`. */
  function KeysOf<K(==)>(xs: seq<Trade>, key: Trade -> K): set<K>
  {
    set x | x in xs :: key(x)
  }

  /** The elements of `xs` whose key is `k`, in input order. */
  function Select<K(==)>(xs: seq<Trade>, key: Trade -> K, k: K): (r: seq<Trade>)
    ensures forall x :: multiset(r)[x] == if key(x) == k then multiset(xs)[x] else 0
    ensures forall i | 0 <= i < |r| :: key(r[i]) == k
  {
    if |xs| == 0 then []
    else
      var init := xs[..|xs| - 1];
      var last := xs[|xs| - 1];
      assert xs == init + [last];
      var rest := Select(init, key, k);
      if key(last) == k then rest + [last] else rest
  }

  /** A key has a non-empty group exactly when some element carries it. */
  lemma SelectEmptyIffAbsent<K>(xs: seq<Trade>, key: Trade -> K, k: K)
    ensures Select(xs, key, k) == [] <==> k !in KeysOf(xs, key)
  {
    var r := Select(xs, key, k);
    if r != [] {
      assert multiset(r)[r[0]] > 0;
      assert r[0] in multiset(xs);
    }
  }

  /** When every trade carries key `k`, the group of `k` is the whole input. */
  lemma {:induction false} SelectAll<K>(xs: seq<Trade>, key: Trade -> K, k: K)
    requires forall x | x in xs :: key(x) == k
    ensures Select(xs, key, k) == xs
  {
    if |xs| > 0 {
      SelectAll(xs[..|xs| - 1], key, k);
      assert xs == xs[..|xs| - 1] + [xs[|xs| - 1]];
    }
  }

  /** Selecting from a concatenation selects from each part. */
  lemma {:induction false} SelectAppend<K>(a: seq<Trade>, b: seq<Trade>, key: Trade -> K, k: K)
    ensures Select(a + b, key, k) == Select(a, key, k) + Select(b, key, k)
    decreases |b|
  {
    if |b| == 0 {
      assert a + b == a;
    } else {
      var init := b[..|b| - 1];
      var last := b[|b| - 1];
      assert a + b == (a + init) + [last];
      assert (a + b)[..|a + b| - 1] == a + init;
      SelectAppend(a, init, key, k);
    }
  }

  /** Appending one trade extends exactly the group of its key. */
  lemma SelectSnoc<K>(xs: seq<Trade>, x: Trade, key: Trade -> K, k: K)
    ensures Select(xs + [x], key, k) == if key(x) == k then Select(xs, key, k) + [x] else Select(xs, key, k)
    ensures KeysOf(xs + [x], key) == KeysOf(xs, key) + {key(x)}
  {
    assert (xs + [x])[..|xs + [x]| - 1] == xs;
  }

  /** `groups` holds, for every key occurring in `xs`, exactly that key's group. */
  ghost predicate Collected<K>(groups: map<K, seq<Trade>>, xs: seq<Trade>, key: Trade -> K)
  {
    && groups.Keys == KeysOf(xs, key)
    && forall k | k in groups :: groups[k] == Select(xs, key, k)
  }

  /** One step of the collector: append `x` to the group of its key, opening
      that group if it is new. */
  function Accumulate<K(==)>(groups: map<K, seq<Trade>>, x: Trade, key: Trade -> K): map<K, seq<Trade>>
  {
    if key(x) in groups then groups[key(x) := groups[key(x)] + [x]] else groups[key(x) := [x]]
  }

  /** The collector step keeps the collected groups exact. */
  lemma AccumulateCollects<K>(groups: map<K, seq<Trade>>, xs: seq<Trade>, x: Trade, key: Trade -> K)
    requires Collected(groups, xs, key)
    ensures Collected(Accumulate(groups, x, key), xs + [x], key)
  {
    var g := Accumulate(groups, x, key);
    SelectSnoc(xs, x, key, key(x));
    if key(x) !in groups {
      SelectEmptyIffAbsent(xs, key, key(x));
    }
    forall k | k in g
      ensures g[k] == Select(xs + [x], key, k)
    {
      SelectSnoc(xs, x, key, k);
    }
  }

  /** Collecting `xs` into a map from key to group, one trade at a time. */
  method GroupBy<K(==)>(xs: seq<Trade>, key: Trade -> K) returns (groups: map<K, seq<Trade>>)
    ensures groups.Keys == KeysOf(xs, key)
    ensures forall k | k in groups :: groups[k] == Select(xs, key, k)
  {
    groups := map[];
    var i := 0;
    while i < |xs|
      invariant 0 <= i <= |xs|
      invariant Collected(groups, xs[..i], key)
    {
      assert xs[..i + 1] == xs[..i] + [xs[i]];
      AccumulateCollects(groups, xs[..i], xs[i], key);
      groups := Accumulate(groups, xs[i], key);
      i := i + 1;
    }
    assert xs[..i] == xs;
  }

  /** No key is listed twice. */
  ghost predicate Distinct<K>(ks: seq<K>)
  {
    forall i, j | 0 <= i < j < |ks| :: ks[i] != ks[j]
  }

  /** The total number of trades in the groups of the listed keys. */
  ghost function GroupSizes<K>(xs: seq<Trade>, key: Trade -> K, ks: seq<K>): nat
  {
    if |ks| == 0 then 0 else |Select(xs, key, ks[0])| + GroupSizes(xs, key, ks[1..])
  }

  /** The tail of a duplicate-free list is duplicate-free and misses its head. */
  lemma DistinctTail<K>(ks: seq<K>)
    requires Distinct(ks) && |ks| > 0
    ensures Distinct(ks[1..])
    ensures ks[0] !in ks[1..]
    ensures forall k :: k in ks <==> k == ks[0] || k in ks[1..]
  {
    assert ks == [ks[0]] + ks[1..];
    forall i, j | 0 <= i < j < |ks[1..]|
      ensures ks[1..][i] != ks[1..][j]
    {
      assert ks[1..][i] == ks[i + 1] && ks[1..][j] == ks[j + 1];
    }
    forall j | 0 <= j < |ks[1..]|
      ensures ks[1..][j] != ks[0]
    {
      assert ks[1..][j] == ks[j + 1];
    }
  }

  /** Appending a trade adds one to the group sizes when its key is listed. */
  lemma {:induction false} GroupSizesSnoc<K>(xs: seq<Trade>, x: Trade, key: Trade -> K, ks: seq<K>)
    requires Distinct(ks)
    ensures GroupSizes(xs + [x], key, ks) == GroupSizes(xs, key, ks) + (if key(x) in ks then 1 else 0)
  {
    if |ks| > 0 {
      SelectSnoc(xs, x, key, ks[0]);
      DistinctTail(ks);
      GroupSizesSnoc(xs, x, key, ks[1..]);
    }
  }

  /** Grouping loses and duplicates nothing: over any duplicate-free list of
      keys that covers every key occurring in `xs`, the group sizes add up to
      the number of trades. */
  lemma {:induction false} PartitionCount<K>(xs: seq<Trade>, key: Trade -> K, ks: seq<K>)
    requires Distinct(ks)
    requires forall x | x in xs :: key(x) in ks
    ensures GroupSizes(xs, key, ks) == |xs|
    decreases |xs|
  {
    if |xs| == 0 {
      ZeroGroupSizes(key, ks);
    } else {
      var init := xs[..|xs| - 1];
      var last := xs[|xs| - 1];
      assert xs == init + [last];
      PartitionCount(init, key, ks);
      GroupSizesSnoc(init, last, key, ks);
    }
  }

  /** Groups taken from no trades are all empty. */
  lemma {:induction false} ZeroGroupSizes<K>(key: Trade -> K, ks: seq<K>)
    ensures GroupSizes([], key, ks) == 0
  {
    if |ks| > 0 {
      ZeroGroupSizes(key, ks[1..]);
    }
  }
}
