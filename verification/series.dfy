/** A currency pair's hourly series: (bucket start, VWAP-or-null) entries and
    the chronological sort applied to them. */
module Series {
  import opened Optional

  /** One hourly result: the first instant of the hour (epoch millis) and the
      VWAP of that hour, `None` standing for the source's `null`. */
  datatype Entry = Entry(start: int, vwap: Option<real>)

  /** Entries in non-decreasing order of start. */
  ghost predicate SortedByStart(s: seq<Entry>)
  {
    forall i, j | 0 <= i < j < |s| :: s[i].start <= s[j].start
  }

  /** Entries in strictly increasing order of start: sorted and without two
      entries for the same hour. */
  ghost predicate StrictlyAscending(s: seq<Entry>)
  {
    forall i, j | 0 <= i < j < |s| :: s[i].start < s[j].start
  }

  /** The starts the entries carry. */
  function StartsOf(s: seq<Entry>): set<int>
  {
    set e | e in s :: e.start
  }

  /** No two positions carry the same start. */
  ghost predicate UniqueStarts(s: seq<Entry>)
  {
    forall i, j | 0 <= i < j < |s| :: s[i].start != s[j].start
  }

  /** Putting an entry no later than the first in front keeps a sequence
      sorted, and strictly ascending when it is strictly earlier. */
  lemma ConsOrdered(x: Entry, t: seq<Entry>)
    requires SortedByStart(t)
    requires |t| > 0 ==> x.start <= t[0].start
    ensures SortedByStart([x] + t)
    ensures StrictlyAscending(t) && (|t| > 0 ==> x.start < t[0].start) ==> StrictlyAscending([x] + t)
  {
    forall j | 1 <= j < |[x] + t|
      ensures ([x] + t)[j] == t[j - 1]
    {
    }
  }

  /** Inserting into a sorted sequence keeps it sorted and adds exactly `e`. */
  function Insert(e: Entry, s: seq<Entry>): (r: seq<Entry>)
    requires SortedByStart(s)
    ensures SortedByStart(r)
    ensures multiset(r) == multiset(s) + multiset{e}
    ensures r[0] == e || (|s| > 0 && r[0] == s[0])
  {
    if |s| == 0 then [e]
    else if e.start <= s[0].start then
      ConsOrdered(e, s);
      [e] + s
    else
      assert s == [s[0]] + s[1..];
      var tail := Insert(e, s[1..]);
      ConsOrdered(s[0], tail);
      [s[0]] + tail
  }

  /** Sorting by start (the comparator of the source's `sort` call): the result
      is sorted and is a permutation of the input. */
  function SortByStart(s: seq<Entry>): (r: seq<Entry>)
    ensures SortedByStart(r)
    ensures multiset(r) == multiset(s)
  {
    if |s| == 0 then []
    else
      assert s == [s[0]] + s[1..];
      Insert(s[0], SortByStart(s[1..]))
  }

  /** Sequences with the same multiset have the same members and starts. */
  lemma SameMembers(r: seq<Entry>, s: seq<Entry>)
    requires multiset(r) == multiset(s)
    ensures forall e :: e in r <==> e in s
    ensures StartsOf(r) == StartsOf(s)
  {
    forall e
      ensures e in r <==> e in s
    {
      assert e in r <==> e in multiset(r);
      assert e in s <==> e in multiset(s);
    }
  }

  /** The tail of a strictly ascending series is strictly ascending and
      lies wholly after its first entry. */
  lemma AscendingTail(s: seq<Entry>)
    requires StrictlyAscending(s) && |s| > 0
    ensures StrictlyAscending(s[1..])
    ensures forall e | e in s[1..] :: s[0].start < e.start
  {
    var tail := s[1..];
    forall i, j | 0 <= i < j < |tail|
      ensures tail[i].start < tail[j].start
    {
      assert tail[i] == s[i + 1] && tail[j] == s[j + 1];
    }
    forall e | e in tail
      ensures s[0].start < e.start
    {
      var k :| 0 <= k < |tail| && tail[k] == e;
      assert s[k + 1] == e;
    }
  }

  /** The starts of a non-empty sequence: its first start and its tail's. */
  lemma StartsOfCons(s: seq<Entry>)
    requires |s| > 0
    ensures StartsOf(s) == {s[0].start} + StartsOf(s[1..])
  {
    assert s == [s[0]] + s[1..];
  }

  /** A strictly ascending series has as many entries as distinct starts. */
  lemma {:induction false} AscendingStartsCount(s: seq<Entry>)
    requires StrictlyAscending(s)
    ensures |StartsOf(s)| == |s|
  {
    if |s| > 0 {
      AscendingTail(s);
      AscendingStartsCount(s[1..]);
      StartsOfCons(s);
      assert s[0].start !in StartsOf(s[1..]);
    }
  }

  /** Inserting an entry at a new start into a strictly ascending sequence
      keeps it strictly ascending. */
  lemma {:induction false} InsertStrict(e: Entry, s: seq<Entry>)
    requires StrictlyAscending(s)
    requires forall x | x in s :: x.start != e.start
    ensures StrictlyAscending(Insert(e, s))
  {
    if |s| > 0 && s[0].start < e.start {
      assert s == [s[0]] + s[1..];
      InsertStrict(e, s[1..]);
      ConsOrdered(s[0], Insert(e, s[1..]));
    } else if |s| > 0 {
      assert s[0] in s;
      ConsOrdered(e, s);
    }
  }

  /** When no two entries share a start, sorting yields a strictly ascending
      series: one entry per start, earliest first. */
  lemma {:induction false} SortStrict(s: seq<Entry>)
    requires UniqueStarts(s)
    ensures StrictlyAscending(SortByStart(s))
  {
    if |s| > 0 {
      assert s == [s[0]] + s[1..];
      assert UniqueStarts(s[1..]) by {
        forall i, j | 0 <= i < j < |s[1..]|
          ensures s[1..][i].start != s[1..][j].start
        {
          assert s[1..][i] == s[i + 1] && s[1..][j] == s[j + 1];
        }
      }
      SortStrict(s[1..]);
      forall x | x in SortByStart(s[1..])
        ensures x.start != s[0].start
      {
        assert x in multiset(SortByStart(s[1..]));
        var k :| 0 <= k < |s[1..]| && s[1..][k] == x;
        assert s[k + 1] == x;
      }
      InsertStrict(s[0], SortByStart(s[1..]));
    }
  }

  /** The first entry of a strictly ascending series is its earliest, and the
      only one at that start. */
  lemma FirstIsEarliest(a: seq<Entry>, e: Entry)
    requires StrictlyAscending(a)
    requires e in a
    ensures a[0].start <= e.start
    ensures e.start == a[0].start ==> e == a[0]
  {
  }

  /** Past the first entry of a strictly ascending series come exactly the
      other entries. */
  lemma TailMembers(a: seq<Entry>, e: Entry)
    requires StrictlyAscending(a) && |a| > 0
    ensures e in a[1..] <==> e in a && e != a[0]
  {
    assert a == [a[0]] + a[1..];
    if e in a[1..] {
      var i :| 0 <= i < |a[1..]| && a[1..][i] == e;
      assert a[i + 1] == e;
    }
  }

  /** A strictly ascending series is fixed by its set of entries: two such
      series with the same entries are equal. */
  lemma {:induction false} AscendingDetermined(a: seq<Entry>, b: seq<Entry>)
    requires StrictlyAscending(a) && StrictlyAscending(b)
    requires forall e :: e in a <==> e in b
    ensures a == b
    decreases |a|
  {
    assert |a| > 0 ==> a[0] in b;
    assert |b| > 0 ==> b[0] in a;
    if |a| > 0 {
      FirstIsEarliest(a, b[0]);
      FirstIsEarliest(b, a[0]);
      forall e
        ensures e in a[1..] <==> e in b[1..]
      {
        TailMembers(a, e);
        TailMembers(b, e);
      }
      AscendingDetermined(a[1..], b[1..]);
      assert a == [a[0]] + a[1..];
      assert b == [b[0]] + b[1..];
    }
  }
}
