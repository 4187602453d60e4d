/**
 Ordering of time ranges by start (`TimeRange.ORDER_BY_START`) and the stable
 sort the finder relies on.

 The source sorts with the Java library: a stream's `sorted` and
 `ImmutableList.sortedCopyOf`. Both are stable when their input has an
 iteration order, as a `List` of events does. Among ranges with equal starts,
 their order changes what the sweep emits. So the model fixes one stable
 sort, an insertion sort, applied to the events in sequence order.
 `StableSortIsUnique` shows that every stable sort by start gives the same
 result.
 */
module Sorting {
  import opened Calendar

  /** Non-decreasing by start. */
  predicate SortedByStart(s: seq<TimeRange>)
  {
    forall i, j :: 0 <= i < j < |s| ==> s[i].start <= s[j].start
  }

  /** The ranges of `s` that start at `k`, in their order in `s`. */
  function StartingAt(s: seq<TimeRange>, k: int): seq<TimeRange>
  {
    if |s| == 0 then []
    else (if s[0].start == k then [s[0]] else []) + StartingAt(s[1..], k)
  }

  /** Places `x` after every range of `sorted` that starts no later than it. */
  function Insert(sorted: seq<TimeRange>, x: TimeRange): seq<TimeRange>
  {
    if |sorted| == 0 then [x]
    else if x.start < sorted[0].start then [x] + sorted
    else [sorted[0]] + Insert(sorted[1..], x)
  }

  lemma {:induction false} InsertPermutes(sorted: seq<TimeRange>, x: TimeRange)
    ensures multiset(Insert(sorted, x)) == multiset(sorted) + multiset{x}
    decreases |sorted|
  {
    if |sorted| > 0 && x.start >= sorted[0].start {
      InsertPermutes(sorted[1..], x);
      assert sorted == [sorted[0]] + sorted[1..];
    }
  }

  lemma {:induction false} InsertSorted(sorted: seq<TimeRange>, x: TimeRange)
    requires SortedByStart(sorted)
    ensures SortedByStart(Insert(sorted, x))
    decreases |sorted|
  {
    if |sorted| > 0 && x.start >= sorted[0].start {
      var rest := Insert(sorted[1..], x);
      InsertSorted(sorted[1..], x);
      InsertPermutes(sorted[1..], x);
      forall i | 0 <= i < |rest|
        ensures sorted[0].start <= rest[i].start
      {
        assert rest[i] in multiset(sorted[1..]) + multiset{x};
      }
    }
  }

  /** Stable insertion sort by start: the last range goes in after the sorted prefix. */
  function SortByStart(s: seq<TimeRange>): seq<TimeRange>
  {
    if |s| == 0 then []
    else Insert(SortByStart(s[..|s| - 1]), s[|s| - 1])
  }

  /** The sort returns a permutation of its input, sorted by start. */
  lemma {:induction false} SortByStartSorts(s: seq<TimeRange>)
    ensures SortedByStart(SortByStart(s))
    ensures multiset(SortByStart(s)) == multiset(s)
    decreases |s|
  {
    if |s| > 0 {
      var init, last := s[..|s| - 1], s[|s| - 1];
      assert s == init + [last];
      SortByStartSorts(init);
      InsertSorted(SortByStart(init), last);
      InsertPermutes(SortByStart(init), last);
    }
  }

  lemma {:induction false} StartingAtAppend(a: seq<TimeRange>, b: seq<TimeRange>, k: int)
    ensures StartingAt(a + b, k) == StartingAt(a, k) + StartingAt(b, k)
    decreases |a|
  {
    if |a| == 0 {
      assert a + b == b;
    } else {
      var head := if a[0].start == k then [a[0]] else [];
      assert (a + b)[0] == a[0];
      assert (a + b)[1..] == a[1..] + b;
      calc {
        StartingAt(a + b, k);
        head + StartingAt(a[1..] + b, k);
        { StartingAtAppend(a[1..], b, k); }
        head + (StartingAt(a[1..], k) + StartingAt(b, k));
        (head + StartingAt(a[1..], k)) + StartingAt(b, k);
      }
    }
  }

  /** No range of `s` starts at `k` when every range starts after `k`. */
  lemma {:induction false} StartingAtNone(s: seq<TimeRange>, k: int)
    requires forall i :: 0 <= i < |s| ==> k < s[i].start
    ensures StartingAt(s, k) == []
    decreases |s|
  {
    if |s| > 0 {
      StartingAtNone(s[1..], k);
    }
  }

  /** Inserting `x` appends it to the ranges that share its start and leaves
      the others' subsequences alone. */
  lemma {:induction false} InsertKeepsOrder(sorted: seq<TimeRange>, x: TimeRange, k: int)
    requires SortedByStart(sorted)
    ensures StartingAt(Insert(sorted, x), k)
         == StartingAt(sorted, k) + (if x.start == k then [x] else [])
    decreases |sorted|
  {
    var tail := if x.start == k then [x] else [];
    if |sorted| == 0 {
      assert Insert(sorted, x) == [x];
      assert StartingAt([x], k) == tail + StartingAt([x][1..], k);
    } else if x.start < sorted[0].start {
      var r := [x] + sorted;
      assert Insert(sorted, x) == r;
      assert r[1..] == sorted;
      assert StartingAt(r, k) == tail + StartingAt(sorted, k);
      if x.start == k {
        StartingAtNone(sorted, k);
      }
    } else {
      var head := if sorted[0].start == k then [sorted[0]] else [];
      var rest := Insert(sorted[1..], x);
      var r := [sorted[0]] + rest;
      assert Insert(sorted, x) == r;
      assert r[1..] == rest;
      calc {
        StartingAt(r, k);
        head + StartingAt(rest, k);
        { InsertKeepsOrder(sorted[1..], x, k); }
        head + (StartingAt(sorted[1..], k) + tail);
        (head + StartingAt(sorted[1..], k)) + tail;
        StartingAt(sorted, k) + tail;
      }
    }
  }

  /** The sort is stable: for every start value, the ranges with that start
      keep their relative order. */
  lemma {:induction false} SortIsStable(s: seq<TimeRange>, k: int)
    ensures StartingAt(SortByStart(s), k) == StartingAt(s, k)
    decreases |s|
  {
    if |s| > 0 {
      var init, last := s[..|s| - 1], s[|s| - 1];
      var sorted := SortByStart(init);
      SortByStartSorts(init);
      var tail := if last.start == k then [last] else [];
      assert s == init + [last];
      assert StartingAt([last], k) == tail;
      calc {
        StartingAt(SortByStart(s), k);
        StartingAt(Insert(sorted, last), k);
        { InsertKeepsOrder(sorted, last, k); }
        StartingAt(sorted, k) + tail;
        { SortIsStable(init, k); }
        StartingAt(init, k) + tail;
        { StartingAtAppend(init, [last], k); }
        StartingAt(init + [last], k);
      }
    }
  }

  /** In a sorted sequence the first range is the first one with its start,
      and dropping it only shortens that start's subsequence. */
  lemma SortedHead(t: seq<TimeRange>, k: int)
    requires SortedByStart(t) && |t| > 0
    ensures StartingAt(t, t[0].start) == [t[0]] + StartingAt(t[1..], t[0].start)
    ensures k != t[0].start ==> StartingAt(t[1..], k) == StartingAt(t, k)
  {
  }

  lemma {:induction false} StartingAtMember(s: seq<TimeRange>, k: int, i: int)
    requires 0 <= i < |s| && s[i].start == k
    ensures |StartingAt(s, k)| > 0
    ensures forall j :: 0 <= j < |StartingAt(s, k)| ==> StartingAt(s, k)[j] in s
    decreases |s|
  {
    StartingAtIn(s, k);
    if i > 0 && s[0].start != k {
      StartingAtMember(s[1..], k, i - 1);
    }
  }

  lemma HeadStartsSomething(s: seq<TimeRange>)
    ensures |s| > 0 ==> StartingAt(s, s[0].start) != []
  {
  }

  lemma {:induction false} StartingAtIn(s: seq<TimeRange>, k: int)
    ensures forall j :: 0 <= j < |StartingAt(s, k)| ==>
              StartingAt(s, k)[j] in s && StartingAt(s, k)[j].start == k
    decreases |s|
  {
    if |s| > 0 {
      StartingAtIn(s[1..], k);
    }
  }

  /** Two sequences sorted by start that agree on the subsequence of every
      start value are equal. Hence any stable sort by start, the library's
      included, returns exactly `SortByStart(s)`. */
  lemma {:induction false} StableSortIsUnique(t: seq<TimeRange>, u: seq<TimeRange>)
    requires SortedByStart(t) && SortedByStart(u)
    requires forall k :: StartingAt(t, k) == StartingAt(u, k)
    ensures t == u
    decreases |t|
  {
    if |t| == 0 || |u| == 0 {
      HeadStartsSomething(t);
      HeadStartsSomething(u);
    } else {
      var a, b := t[0].start, u[0].start;
      StartingAtMember(t, a, 0);
      StartingAtIn(u, a);
      assert StartingAt(u, a)[0] in u;
      StartingAtMember(u, b, 0);
      StartingAtIn(t, b);
      assert StartingAt(t, b)[0] in t;
      assert a == b;
      SortedHead(t, a);
      SortedHead(u, a);
      assert t[0] == u[0];
      forall k
        ensures StartingAt(t[1..], k) == StartingAt(u[1..], k)
      {
        SortedHead(t, k);
        SortedHead(u, k);
        if k == a {
          assert StartingAt(t, a) == StartingAt(u, a);
          assert StartingAt(t[1..], a) == StartingAt(t, a)[1..];
        }
      }
      StableSortIsUnique(t[1..], u[1..]);
      assert t == [t[0]] + t[1..];
      assert u == [u[0]] + u[1..];
    }
  }

  /** Every stable sort of `s` by start is `SortByStart(s)`. */
  lemma LibrarySortAgrees(s: seq<TimeRange>, t: seq<TimeRange>)
    requires SortedByStart(t)
    requires forall k :: StartingAt(t, k) == StartingAt(s, k)
    ensures t == SortByStart(s)
  {
    forall k
      ensures StartingAt(t, k) == StartingAt(SortByStart(s), k)
    {
      SortIsStable(s, k);
    }
    SortByStartSorts(s);
    StableSortIsUnique(t, SortByStart(s));
  }
}
