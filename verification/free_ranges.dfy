/**
 The free-range sweep of `FindMeetingQuery.findFreeRanges`.

 The sweep visits the busy ranges in order of start. A cursor marks where
 the current free stretch begins, and it starts at `START_OF_DAY`. Before
 each busy range, the gap from the cursor to that range's start is emitted
 when the meeting fits in it. The cursor then moves to the later of itself
 and that range's end. This step merges overlapping busy ranges without a
 separate pass. At the end, the rest of the day is emitted as an inclusive
 range, but only if the meeting fits there with room to spare: the
 interior test is `<=` while the day-closing test is `<`.
 */
module FreeRanges {
  import opened Calendar
  import opened Sorting

  /** The interior free range `[cursor, end)`, if a meeting of `duration` fits in it. */
  function Gap(duration: int, cursor: int, end: int): seq<TimeRange>
  {
    if duration <= end - cursor then [FromStartEnd(cursor, end, false)] else []
  }

  /** The day-closing range from `cursor` to `END_OF_DAY`, built inclusive,
      emitted only when `duration` is strictly less than what remains. */
  function Closing(duration: int, cursor: int): seq<TimeRange>
  {
    if duration < END_OF_DAY - cursor then [FromStartEnd(cursor, END_OF_DAY, true)] else []
  }

  /** Where the cursor stands after the sweep has passed every range of `busy`. */
  function FinalCursor(busy: seq<TimeRange>, cursor: int): int
    decreases |busy|
  {
    if |busy| == 0 then cursor
    else FinalCursor(busy[1..], Max(cursor, busy[0].end))
  }

  /** The final cursor is the largest of `cursor` and the ends of `busy`:
      at or past each of them, and equal to one of them. */
  lemma {:induction false} FinalCursorBounds(busy: seq<TimeRange>, cursor: int)
    ensures cursor <= FinalCursor(busy, cursor)
    ensures forall i :: 0 <= i < |busy| ==> busy[i].end <= FinalCursor(busy, cursor)
    ensures FinalCursor(busy, cursor) == cursor
         || exists i :: 0 <= i < |busy| && FinalCursor(busy, cursor) == busy[i].end
    decreases |busy|
  {
    if |busy| > 0 {
      var c := FinalCursor(busy, cursor);
      FinalCursorBounds(busy[1..], Max(cursor, busy[0].end));
      assert c != Max(cursor, busy[0].end) ==> exists i :: 0 <= i < |busy[1..]| && c == busy[1..][i].end;
      assert forall i :: 0 <= i < |busy[1..]| ==> busy[1..][i] == busy[i + 1];
    }
  }

  /** Where the cursor stands once the first `n` busy ranges have been processed. */
  function CursorAfter(busy: seq<TimeRange>, cursor: int, n: int): int
    requires 0 <= n <= |busy|
  {
    FinalCursor(busy[..n], cursor)
  }

  /** A meeting of `duration` fits in `r`: an interior range is at least
      `duration` long, and the day-closing range leaves more than `duration`
      minutes before `END_OF_DAY`. */
  predicate Fits(duration: int, r: TimeRange)
  {
    if r.inclusive then duration < END_OF_DAY - r.start else duration <= r.end - r.start
  }

  /** No two ranges of `s` overlap, each later one starting no earlier than
      every earlier one ends. */
  predicate NonOverlapping(s: seq<TimeRange>)
  {
    forall k, l :: 0 <= k < l < |s| ==> s[k].end <= s[l].start
  }

  /** No range of `free` overlaps a range of `busy`, and an inclusive range of
      `free` starts after every busy range has ended. */
  predicate AvoidsAll(free: seq<TimeRange>, busy: seq<TimeRange>)
  {
    forall k, j :: 0 <= k < |free| && 0 <= j < |busy| ==>
      Apart(free[k], busy[j]) && (free[k].inclusive ==> busy[j].end <= free[k].start)
  }

  /** Some range of `free` contains `[from, to)`. */
  predicate Covers(free: seq<TimeRange>, from: int, to: int)
  {
    exists k :: 0 <= k < |free| && free[k].start <= from && to <= free[k].end
  }

  /** The sweep over `busy`, with the cursor at `cursor`. */
  function Sweep(duration: int, busy: seq<TimeRange>, cursor: int): seq<TimeRange>
    decreases |busy|
  {
    if |busy| == 0 then Closing(duration, cursor)
    else Gap(duration, cursor, busy[0].start) + Sweep(duration, busy[1..], Max(cursor, busy[0].end))
  }

  /** Every range the sweep emits starts at or after the cursor and holds
      the meeting; there is at most one range per busy range plus the
      day-closing one, and only the last range can be inclusive. */
  lemma {:induction false} SweepFits(duration: int, busy: seq<TimeRange>, cursor: int)
    ensures |Sweep(duration, busy, cursor)| <= |busy| + 1
    ensures StartsFrom(Sweep(duration, busy, cursor), cursor)
    ensures AllFit(duration, Sweep(duration, busy, cursor))
    ensures OnlyLastInclusive(Sweep(duration, busy, cursor))
    decreases |busy|
  {
    if |busy| > 0 {
      var next := Max(cursor, busy[0].end);
      var gap := Gap(duration, cursor, busy[0].start);
      var rest := Sweep(duration, busy[1..], next);
      SweepFits(duration, busy[1..], next);
      var free := gap + rest;
      assert Sweep(duration, busy, cursor) == free;
      forall k | |gap| <= k < |free|
        ensures free[k] == rest[k - |gap|]
      {
      }
    }
  }

  /** Every range of `free` starts at or after `cursor`. */
  predicate StartsFrom(free: seq<TimeRange>, cursor: int)
  {
    forall k :: 0 <= k < |free| ==> cursor <= free[k].start
  }

  /** A meeting of `duration` fits in every range of `free`. */
  predicate AllFit(duration: int, free: seq<TimeRange>)
  {
    forall k :: 0 <= k < |free| ==> Fits(duration, free[k])
  }

  /** Only the last range of `free` can be inclusive. */
  predicate OnlyLastInclusive(free: seq<TimeRange>)
  {
    forall k :: 0 <= k < |free| - 1 ==> !free[k].inclusive
  }

  /** `findFreeRanges`: the sweep from the start of the day. */
  function FindFreeRanges(request: MeetingRequest, sortedBusyRanges: seq<TimeRange>): (free: seq<TimeRange>)
    ensures StartsFrom(free, START_OF_DAY) && AllFit(request.duration, free)
  {
    SweepFits(request.duration, sortedBusyRanges, START_OF_DAY);
    Sweep(request.duration, sortedBusyRanges, START_OF_DAY)
  }

  /** The interior ranges the sweep finds before busy range `n`, listed
      busy range by busy range: a reference definition of the sweep's output. */
  function GapsBefore(duration: int, busy: seq<TimeRange>, cursor: int, n: int): seq<TimeRange>
    requires 0 <= n <= |busy|
  {
    if n == 0 then []
    else GapsBefore(duration, busy, cursor, n - 1)
         + Gap(duration, CursorAfter(busy, cursor, n - 1), busy[n - 1].start)
  }

  /** The loop of `findFreeRanges` as written, with the list builder as an
      accumulated sequence: it produces the gaps busy range by busy range and
      then the day-closing range, which is exactly the sweep. */
  method FindFreeRangesLoop(request: MeetingRequest, sortedBusyRanges: seq<TimeRange>)
    returns (freeRanges: seq<TimeRange>)
    ensures freeRanges == FindFreeRanges(request, sortedBusyRanges)
  {
    freeRanges := [];
    var startFreeRange := START_OF_DAY;
    var i := 0;
    while i < |sortedBusyRanges|
      invariant 0 <= i <= |sortedBusyRanges|
      invariant freeRanges == GapsBefore(request.duration, sortedBusyRanges, START_OF_DAY, i)
      invariant startFreeRange == CursorAfter(sortedBusyRanges, START_OF_DAY, i)
    {
      var endFreeRange := sortedBusyRanges[i].start;
      if request.duration <= endFreeRange - startFreeRange {
        freeRanges := freeRanges + [FromStartEnd(startFreeRange, endFreeRange, false)];
      }
      CursorAfterStep(sortedBusyRanges, START_OF_DAY, i);
      startFreeRange := Max(startFreeRange, sortedBusyRanges[i].end);
      i := i + 1;
    }
    assert sortedBusyRanges[..i] == sortedBusyRanges;
    if request.duration < END_OF_DAY - startFreeRange {
      freeRanges := freeRanges + [FromStartEnd(startFreeRange, END_OF_DAY, true)];
    }
    SweepIsGapsThenClosing(request.duration, sortedBusyRanges, START_OF_DAY);
  }

  /** The cursor after one more busy range is the later of the cursor before
      it and that range's end. */
  lemma {:induction false} FinalCursorSnoc(busy: seq<TimeRange>, x: TimeRange, cursor: int)
    ensures FinalCursor(busy + [x], cursor) == Max(FinalCursor(busy, cursor), x.end)
    decreases |busy|
  {
    if |busy| > 0 {
      assert (busy + [x])[1..] == busy[1..] + [x];
      FinalCursorSnoc(busy[1..], x, Max(cursor, busy[0].end));
    }
  }

  lemma CursorAfterStep(busy: seq<TimeRange>, cursor: int, i: int)
    requires 0 <= i < |busy|
    ensures CursorAfter(busy, cursor, i + 1) == Max(CursorAfter(busy, cursor, i), busy[i].end)
  {
    assert busy[..i + 1] == busy[..i] + [busy[i]];
    FinalCursorSnoc(busy[..i], busy[i], cursor);
  }

  /** After the first `j` busy ranges the sweep has emitted `GapsBefore(j)`
      and carries on from the cursor at that point. */
  lemma {:induction false} SweepSplit(duration: int, busy: seq<TimeRange>, cursor: int, j: int)
    requires 0 <= j <= |busy|
    ensures Sweep(duration, busy, cursor)
         == GapsBefore(duration, busy, cursor, j) + Sweep(duration, busy[j..], CursorAfter(busy, cursor, j))
    decreases j
  {
    if j == 0 {
      assert busy[0..] == busy;
    } else {
      var c := CursorAfter(busy, cursor, j - 1);
      SweepSplit(duration, busy, cursor, j - 1);
      SweepStep(duration, busy, j - 1, c);
      CursorAfterStep(busy, cursor, j - 1);
      var before := GapsBefore(duration, busy, cursor, j - 1);
      var gap := Gap(duration, c, busy[j - 1].start);
      var rest := Sweep(duration, busy[j..], CursorAfter(busy, cursor, j));
      assert before + (gap + rest) == (before + gap) + rest;
    }
  }

  /** The sweep is the gaps before each busy range followed by the
      day-closing range from the final cursor. */
  lemma SweepIsGapsThenClosing(duration: int, busy: seq<TimeRange>, cursor: int)
    ensures Sweep(duration, busy, cursor)
         == GapsBefore(duration, busy, cursor, |busy|) + Closing(duration, FinalCursor(busy, cursor))
  {
    SweepSplit(duration, busy, cursor, |busy|);
    assert busy[..|busy|] == busy;
    assert busy[|busy|..] == [];
  }

  /** One iteration of the loop is one unfolding of the sweep. */
  lemma SweepStep(duration: int, busy: seq<TimeRange>, i: int, cursor: int)
    requires 0 <= i < |busy|
    ensures Sweep(duration, busy[i..], cursor)
         == Gap(duration, cursor, busy[i].start) + Sweep(duration, busy[i + 1..], Max(cursor, busy[i].end))
  {
    assert busy[i..][1..] == busy[i + 1..];
  }

  /** The cursor never moves back, and once a busy range has been processed
      the cursor is at or past its end. */
  lemma CursorMonotone(busy: seq<TimeRange>, cursor: int, m: int, n: int)
    requires 0 <= m <= n <= |busy|
    ensures cursor <= CursorAfter(busy, cursor, m) <= CursorAfter(busy, cursor, n)
    ensures forall i :: 0 <= i < n ==> busy[i].end <= CursorAfter(busy, cursor, n)
  {
    var c := CursorAfter(busy, cursor, m);
    FinalCursorBounds(busy[..m], cursor);
    FinalCursorBounds(busy[..n], cursor);
    if c != cursor {
      var i :| 0 <= i < m && c == busy[..m][i].end;
      assert busy[..n][i] == busy[i];
    }
    assert forall i :: 0 <= i < n ==> busy[..n][i] == busy[i];
  }

  /** Processing one more busy range moves the cursor to the later of where
      it was and that range's end. */
  lemma CursorStep(busy: seq<TimeRange>, cursor: int, i: int)
    requires 0 <= i < |busy|
    ensures CursorAfter(busy, cursor, i + 1) == CursorAfter(busy[1..], Max(cursor, busy[0].end), i)
  {
    assert busy[..i + 1][1..] == busy[1..][..i];
  }

  /** The day-closing range is emitted exactly when the meeting is strictly
      shorter than what is left of the day after the last busy range, and it
      is the inclusive range from the final cursor to `END_OF_DAY`. */
  lemma {:induction false} SweepClosesDay(duration: int, busy: seq<TimeRange>, cursor: int)
    ensures var free := Sweep(duration, busy, cursor);
      (|free| > 0 && free[|free| - 1].inclusive) <==> duration < END_OF_DAY - FinalCursor(busy, cursor)
    ensures var free := Sweep(duration, busy, cursor);
      |free| > 0 && free[|free| - 1].inclusive ==>
        free[|free| - 1] == FromStartEnd(FinalCursor(busy, cursor), END_OF_DAY, true)
    decreases |busy|
  {
    if |busy| > 0 {
      var next := Max(cursor, busy[0].end);
      var gap := Gap(duration, cursor, busy[0].start);
      var rest := Sweep(duration, busy[1..], next);
      SweepFits(duration, busy[1..], next);
      SweepClosesDay(duration, busy[1..], next);
      assert Sweep(duration, busy, cursor) == gap + rest;
      assert FinalCursor(busy, cursor) == FinalCursor(busy[1..], next);
    }
  }

  /** Every range the sweep emits after an interior one starts no earlier
      than that one ends; so, given well-formed busy ranges and a
      non-negative duration, the output is sorted by start and no two
      emitted ranges overlap. */
  lemma {:induction false} SweepOrdered(duration: int, busy: seq<TimeRange>, cursor: int)
    requires 0 <= duration
    requires AllWellFormed(busy)
    ensures AllWellFormed(Sweep(duration, busy, cursor))
    ensures NonOverlapping(Sweep(duration, busy, cursor))
    ensures SortedByStart(Sweep(duration, busy, cursor))
    decreases |busy|
  {
    var free := Sweep(duration, busy, cursor);
    if |busy| > 0 {
      var next := Max(cursor, busy[0].end);
      var gap := Gap(duration, cursor, busy[0].start);
      var rest := Sweep(duration, busy[1..], next);
      SweepFits(duration, busy[1..], next);
      SweepOrdered(duration, busy[1..], next);
      assert free == gap + rest;
      PrependOrdered(gap, rest, busy[0].start);
    }
    OrderedIsSorted(free);
  }

  /** A range that ends by `bound`, put before well-formed, non-overlapping
      ranges that all start at or after `bound`, keeps them so. */
  lemma PrependOrdered(gap: seq<TimeRange>, rest: seq<TimeRange>, bound: int)
    requires |gap| <= 1 && AllWellFormed(gap) && (|gap| == 1 ==> gap[0].end <= bound)
    requires AllWellFormed(rest) && NonOverlapping(rest)
    requires forall l :: 0 <= l < |rest| ==> bound <= rest[l].start
    ensures AllWellFormed(gap + rest) && NonOverlapping(gap + rest)
  {
    var free := gap + rest;
    forall k, l | 0 <= k < l < |free|
      ensures free[k].end <= free[l].start
    {
      assert free[l] == rest[l - |gap|];
      if k >= |gap| {
        assert free[k] == rest[k - |gap|];
      }
    }
    forall k | 0 <= k < |free|
      ensures WellFormed(free[k])
    {
      if k >= |gap| {
        assert free[k] == rest[k - |gap|];
      }
    }
  }

  /** Well-formed ranges that do not overlap are sorted by start. */
  lemma OrderedIsSorted(s: seq<TimeRange>)
    requires AllWellFormed(s) && NonOverlapping(s)
    ensures SortedByStart(s)
  {
    forall i, j | 0 <= i < j < |s|
      ensures s[i].start <= s[j].start
    {
      assert WellFormed(s[i]);
    }
  }

  /** No emitted range overlaps a busy range, provided the busy ranges come
      sorted by start; the day-closing range starts after every busy range ends. */
  lemma {:induction false} SweepAvoidsBusy(duration: int, busy: seq<TimeRange>, cursor: int)
    requires SortedByStart(busy)
    ensures AvoidsAll(Sweep(duration, busy, cursor), busy)
    decreases |busy|
  {
    if |busy| > 0 {
      var next := Max(cursor, busy[0].end);
      var gap := Gap(duration, cursor, busy[0].start);
      var rest := Sweep(duration, busy[1..], next);
      SweepFits(duration, busy[1..], next);
      SweepAvoidsBusy(duration, busy[1..], next);
      AvoidsFirstBusy(rest, busy, next);
      assert forall k :: 0 <= k < |gap| ==> gap[k].end == busy[0].start && !gap[k].inclusive;
      AvoidsAllAppend(gap, rest, busy);
      assert Sweep(duration, busy, cursor) == gap + rest;
    }
  }

  /** Ranges clear of `busy[1..]` that start at or after the end of `busy[0]`
      are clear of all of `busy`. */
  lemma AvoidsFirstBusy(rest: seq<TimeRange>, busy: seq<TimeRange>, next: int)
    requires |busy| > 0 && busy[0].end <= next
    requires StartsFrom(rest, next)
    requires AvoidsAll(rest, busy[1..])
    ensures AvoidsAll(rest, busy)
  {
    forall k, j | 0 <= k < |rest| && 0 <= j < |busy|
      ensures Apart(rest[k], busy[j]) && (rest[k].inclusive ==> busy[j].end <= rest[k].start)
    {
      if j > 0 {
        assert busy[j] == busy[1..][j - 1];
      }
    }
  }

  /** A single interior range ending where the first of the start-sorted
      busy ranges begins, followed by ranges clear of `busy`, is clear of `busy`. */
  lemma AvoidsAllAppend(gap: seq<TimeRange>, rest: seq<TimeRange>, busy: seq<TimeRange>)
    requires SortedByStart(busy) && |busy| > 0
    requires forall k :: 0 <= k < |gap| ==> gap[k].end == busy[0].start && !gap[k].inclusive
    requires AvoidsAll(rest, busy)
    ensures AvoidsAll(gap + rest, busy)
  {
    var free := gap + rest;
    forall k, j | 0 <= k < |free| && 0 <= j < |busy|
      ensures Apart(free[k], busy[j]) && (free[k].inclusive ==> busy[j].end <= free[k].start)
    {
      if k < |gap| {
        assert free[k] == gap[k];
        assert busy[0].start <= busy[j].start;
      } else {
        assert free[k] == rest[k - |gap|];
      }
    }
  }

  /** Completeness: a slot `[at, at + duration)` that starts no earlier than
      the cursor, ends strictly before `END_OF_DAY` and overlaps no busy range
      lies inside some emitted range. */
  lemma {:induction false} SweepFindsEverySlot(duration: int, busy: seq<TimeRange>, cursor: int, at: int)
    requires cursor <= at && at + duration <= END_OF_DAY
    requires at + duration < END_OF_DAY || FinalCursor(busy, cursor) < at
    requires forall j :: 0 <= j < |busy| ==> busy[j].end <= at || at + duration <= busy[j].start
    ensures Covers(Sweep(duration, busy, cursor), at, at + duration)
    decreases |busy|
  {
    var free := Sweep(duration, busy, cursor);
    if |busy| == 0 {
      assert free[0].start <= at;
    } else {
      var next := Max(cursor, busy[0].end);
      var gap := Gap(duration, cursor, busy[0].start);
      var rest := Sweep(duration, busy[1..], next);
      assert free == gap + rest;
      if at + duration <= busy[0].start {
        assert |gap| == 1;
        assert free[0] == gap[0];
      } else {
        SweepFindsEverySlot(duration, busy[1..], next, at);
        var k :| 0 <= k < |rest| && rest[k].start <= at && at + duration <= rest[k].end;
        assert free[|gap| + k] == rest[k];
      }
    }
  }

  /** The one slot the strict day-closing test loses: with well-formed busy
      ranges and a positive duration, the slot that starts at the final
      cursor and ends exactly at `END_OF_DAY` lies in no emitted range. */
  lemma SweepLosesFullClosingSlot(duration: int, busy: seq<TimeRange>, cursor: int)
    requires AllWellFormed(busy)
    requires 0 < duration && FinalCursor(busy, cursor) + duration == END_OF_DAY
    ensures !Covers(Sweep(duration, busy, cursor), FinalCursor(busy, cursor), END_OF_DAY)
  {
    var free := Sweep(duration, busy, cursor);
    var f := FinalCursor(busy, cursor);
    SweepFits(duration, busy, cursor);
    SweepClosesDay(duration, busy, cursor);
    SweepInteriorRanges(duration, busy, cursor);
    FinalCursorBounds(busy, cursor);
    forall k | 0 <= k < |free|
      ensures !(free[k].start <= f && END_OF_DAY <= free[k].end)
    {
      if !free[k].inclusive {
        var i :| 0 <= i < |busy| && free[k] == FromStartEnd(CursorAfter(busy, cursor, i), busy[i].start, false);
        assert free[k].end <= busy[i].end <= f;
      }
    }
  }

  /** The interior ranges are exactly the gaps `[cursor, busy[i].start)`, with
      the cursor as it stands before busy range `i`, that are at least
      `duration` long. */
  lemma {:induction false} SweepInteriorRanges(duration: int, busy: seq<TimeRange>, cursor: int)
    ensures var free := Sweep(duration, busy, cursor);
      forall k :: 0 <= k < |free| && !free[k].inclusive ==>
        exists i ::
          && 0 <= i < |busy|
          && free[k] == FromStartEnd(CursorAfter(busy, cursor, i), busy[i].start, false)
          && duration <= busy[i].start - CursorAfter(busy, cursor, i)
    ensures var free := Sweep(duration, busy, cursor);
      forall i :: 0 <= i < |busy| && duration <= busy[i].start - CursorAfter(busy, cursor, i) ==>
        FromStartEnd(CursorAfter(busy, cursor, i), busy[i].start, false) in free
    decreases |busy|
  {
    var free := Sweep(duration, busy, cursor);
    if |busy| > 0 {
      var next := Max(cursor, busy[0].end);
      var gap := Gap(duration, cursor, busy[0].start);
      var rest := Sweep(duration, busy[1..], next);
      SweepInteriorRanges(duration, busy[1..], next);
      assert free == gap + rest;
      assert CursorAfter(busy, cursor, 0) == cursor;
      forall i | 0 <= i < |busy[1..]|
        ensures CursorAfter(busy, cursor, i + 1) == CursorAfter(busy[1..], next, i)
        ensures busy[1..][i] == busy[i + 1]
      {
        CursorStep(busy, cursor, i);
      }
      forall k | 0 <= k < |free| && !free[k].inclusive
        ensures exists i ::
          && 0 <= i < |busy|
          && free[k] == FromStartEnd(CursorAfter(busy, cursor, i), busy[i].start, false)
          && duration <= busy[i].start - CursorAfter(busy, cursor, i)
      {
        if k >= |gap| {
          var r := rest[k - |gap|];
          assert r == free[k];
          var i :| 0 <= i < |busy[1..]|
            && r == FromStartEnd(CursorAfter(busy[1..], next, i), busy[1..][i].start, false)
            && duration <= busy[1..][i].start - CursorAfter(busy[1..], next, i);
          assert free[k] == FromStartEnd(CursorAfter(busy, cursor, i + 1), busy[i + 1].start, false);
        }
      }
      forall i | 0 <= i < |busy| && duration <= busy[i].start - CursorAfter(busy, cursor, i)
        ensures FromStartEnd(CursorAfter(busy, cursor, i), busy[i].start, false) in free
      {
        if i > 0 {
          assert FromStartEnd(CursorAfter(busy[1..], next, i - 1), busy[1..][i - 1].start, false) in rest;
        }
      }
    }
  }

  /** Busy ranges that overlap are merged by the cursor step: two ranges
      where the second starts before the first ends give the same free ranges
      as the single range covering both. */
  lemma SweepMergesOverlap(duration: int, first: TimeRange, second: TimeRange,
                           rest: seq<TimeRange>, cursor: int)
    requires 0 <= duration
    requires second.start < first.end
    ensures Sweep(duration, [first, second] + rest, cursor)
         == Sweep(duration, [FromStartEnd(first.start, Max(first.end, second.end), false)] + rest, cursor)
  {
    var merged := FromStartEnd(first.start, Max(first.end, second.end), false);
    var next := Max(cursor, first.end);
    assert ([first, second] + rest)[1..] == [second] + rest;
    assert ([second] + rest)[1..] == rest;
    assert ([merged] + rest)[1..] == rest;
    assert Gap(duration, next, second.start) == [];
    assert Max(next, second.end) == Max(cursor, merged.end);
  }

  /** With no busy ranges the answer is the whole day as one inclusive range,
      when the meeting is strictly shorter than the day, and nothing otherwise. */
  lemma FreeRangesWithoutBusy(request: MeetingRequest)
    ensures FindFreeRanges(request, []) ==
      if request.duration < END_OF_DAY - START_OF_DAY
      then [FromStartEnd(START_OF_DAY, END_OF_DAY, true)]
      else []
  {
  }

  /** A meeting longer than the day fits nowhere when no busy range starts
      after `END_OF_DAY`. */
  lemma {:induction false} SweepTooLong(duration: int, busy: seq<TimeRange>, cursor: int)
    requires START_OF_DAY <= cursor
    requires END_OF_DAY - START_OF_DAY < duration
    requires forall i :: 0 <= i < |busy| ==> busy[i].start <= END_OF_DAY
    ensures Sweep(duration, busy, cursor) == []
    decreases |busy|
  {
    if |busy| > 0 {
      SweepTooLong(duration, busy[1..], Max(cursor, busy[0].end));
    }
  }
}
