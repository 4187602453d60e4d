/**
 `FindMeetingQuery`: the busy ranges of a set of attendees, and the
 mandatory/optional fallback policy of `query`.

 `query` first computes the free ranges for the mandatory attendees alone.
 When the request names optional attendees, it also computes the free ranges
 for everybody, over the mandatory busy ranges and the optional ones merged
 and re-sorted. Then:
 - a non-empty answer for everybody is returned;
 - an empty answer for everybody is returned as is when there are no
   mandatory attendees;
 - otherwise the mandatory-only answer is returned.
 */
module FindMeetingQuery {
  import opened Calendar
  import opened Sorting
  import opened FreeRanges

  /** The `when` ranges of the events that involve someone from `attendees`,
      in the order of the events. */
  function InvolvedRanges(attendees: set<Attendee>, events: seq<Event>): (whens: seq<TimeRange>)
    ensures |whens| <= |events|
    ensures forall r :: r in whens <==>
      exists i :: 0 <= i < |events| && Involves(events[i], attendees) && events[i].when == r
    ensures attendees == {} ==> whens == []
    decreases |events|
  {
    if |events| == 0 then []
    else
      var rest := InvolvedRanges(attendees, events[1..]);
      assert forall i :: 0 <= i < |events[1..]| ==> events[1..][i] == events[i + 1];
      (if Involves(events[0], attendees) then [events[0].when] else []) + rest
  }

  /** One event contributes its range exactly once when it involves
      someone from `attendees`, and nothing otherwise. */
  lemma InvolvedRangesOne(attendees: set<Attendee>, e: Event)
    ensures InvolvedRanges(attendees, [e]) == if Involves(e, attendees) then [e.when] else []
  {
    assert [e][1..] == [];
  }

  /** The filter works event by event and keeps the events' order: the
      ranges of two event lists in a row are those of the first list
      followed by those of the second. */
  lemma {:induction false} InvolvedRangesAppend(attendees: set<Attendee>, e1: seq<Event>, e2: seq<Event>)
    ensures InvolvedRanges(attendees, e1 + e2) == InvolvedRanges(attendees, e1) + InvolvedRanges(attendees, e2)
    decreases |e1|
  {
    if |e1| == 0 {
      assert e1 + e2 == e2;
    } else {
      var head := if Involves(e1[0], attendees) then [e1[0].when] else [];
      assert (e1 + e2)[0] == e1[0];
      assert (e1 + e2)[1..] == e1[1..] + e2;
      calc {
        InvolvedRanges(attendees, e1 + e2);
        head + InvolvedRanges(attendees, e1[1..] + e2);
        { InvolvedRangesAppend(attendees, e1[1..], e2); }
        head + (InvolvedRanges(attendees, e1[1..]) + InvolvedRanges(attendees, e2));
        (head + InvolvedRanges(attendees, e1[1..])) + InvolvedRanges(attendees, e2);
      }
    }
  }

  /** `findBusyRanges`: the involved ranges, stably sorted by start. Each
      involved event contributes its range once, so an event involving
      several of the attendees is not counted twice, while two events with
      equal ranges both are. */
  function FindBusyRanges(attendees: set<Attendee>, events: seq<Event>): (busy: seq<TimeRange>)
    ensures SortedByStart(busy)
    ensures multiset(busy) == multiset(InvolvedRanges(attendees, events))
    ensures forall r :: r in busy <==>
      exists i :: 0 <= i < |events| && Involves(events[i], attendees) && events[i].when == r
    ensures attendees == {} || events == [] ==> busy == []
  {
    var whens := InvolvedRanges(attendees, events);
    var busy := SortByStart(whens);
    SortByStartSorts(whens);
    assert forall r :: r in busy <==> r in multiset(busy);
    assert forall r :: r in whens <==> r in multiset(whens);
    busy
  }

  /** `findFreeRangesAllAttendees`: the free ranges over the mandatory busy
      ranges and the optional ones, concatenated and sorted again by start. */
  function FindFreeRangesAllAttendees(
    sortedBusyRangesForMandatoryAttendees: seq<TimeRange>,
    events: seq<Event>,
    request: MeetingRequest): (free: seq<TimeRange>)
    ensures StartsFrom(free, START_OF_DAY) && AllFit(request.duration, free)
  {
    FindFreeRanges(request, AllBusyRanges(sortedBusyRangesForMandatoryAttendees, events, request))
  }

  /** The busy ranges the all-attendee sweep runs over: every mandatory busy
      range and every optional one, sorted by start. */
  function AllBusyRanges(
    sortedBusyRangesForMandatoryAttendees: seq<TimeRange>,
    events: seq<Event>,
    request: MeetingRequest): (busy: seq<TimeRange>)
    ensures SortedByStart(busy)
    ensures multiset(busy) == multiset(sortedBusyRangesForMandatoryAttendees)
                            + multiset(FindBusyRanges(request.optionalAttendees, events))
  {
    var both := sortedBusyRangesForMandatoryAttendees + FindBusyRanges(request.optionalAttendees, events);
    SortByStartSorts(both);
    SortByStart(both)
  }

  /** `query`: the free ranges for the request, after the fallback policy. */
  function Query(events: seq<Event>, request: MeetingRequest): (result: seq<TimeRange>)
    ensures StartsFrom(result, START_OF_DAY) && AllFit(request.duration, result)
  {
    var sortedBusyRangesForMandatoryAttendees := FindBusyRanges(request.attendees, events);
    var freeRangesForMandatoryAttendees := FindFreeRanges(request, sortedBusyRangesForMandatoryAttendees);
    if request.optionalAttendees != {} then
      var freeRangesForAllAttendees :=
        FindFreeRangesAllAttendees(sortedBusyRangesForMandatoryAttendees, events, request);
      if freeRangesForAllAttendees == [] && request.attendees == {} then []
      else if freeRangesForAllAttendees != [] then freeRangesForAllAttendees
      else freeRangesForMandatoryAttendees
    else freeRangesForMandatoryAttendees
  }

  /** The free ranges for the mandatory attendees alone. */
  function MandatoryFree(events: seq<Event>, request: MeetingRequest): seq<TimeRange>
  {
    FindFreeRanges(request, FindBusyRanges(request.attendees, events))
  }

  /** The free ranges for the mandatory and optional attendees together. */
  function AllAttendeesFree(events: seq<Event>, request: MeetingRequest): seq<TimeRange>
  {
    FindFreeRangesAllAttendees(FindBusyRanges(request.attendees, events), events, request)
  }

  /** The answer is one of the two lists or empty. */
  lemma QueryChoosesOne(events: seq<Event>, request: MeetingRequest)
    ensures Query(events, request) in {[], MandatoryFree(events, request), AllAttendeesFree(events, request)}
  {
  }

  /** The all-attendee busy list holds exactly the ranges of the events that
      involve a mandatory or an optional attendee. */
  lemma AllBusyRangesAreInvolved(events: seq<Event>, request: MeetingRequest)
    ensures var all := AllBusyRanges(FindBusyRanges(request.attendees, events), events, request);
      forall r :: r in all <==>
        exists i :: 0 <= i < |events| && Involves(events[i], request.attendees + request.optionalAttendees)
                                      && events[i].when == r
  {
    var mandatory := FindBusyRanges(request.attendees, events);
    var optional := FindBusyRanges(request.optionalAttendees, events);
    var all := AllBusyRanges(mandatory, events, request);
    forall r
      ensures r in all <==> r in mandatory || r in optional
    {
      assert r in all <==> r in multiset(all);
      assert r in mandatory <==> r in multiset(mandatory);
      assert r in optional <==> r in multiset(optional);
    }
  }

  /** `g` overlaps no event that involves someone from `attendees`. */
  predicate ClearOf(g: TimeRange, events: seq<Event>, attendees: set<Attendee>)
  {
    forall i :: 0 <= i < |events| && Involves(events[i], attendees) ==> Apart(g, events[i].when)
  }

  /** Every range of `free` is clear of the events involving `attendees`. */
  predicate AllClearOf(free: seq<TimeRange>, events: seq<Event>, attendees: set<Attendee>)
  {
    forall k :: 0 <= k < |free| ==> ClearOf(free[k], events, attendees)
  }

  /** Free ranges that avoid a list holding every involved event's range are
      clear of those events. */
  lemma AvoidingBusyIsClear(free: seq<TimeRange>, busy: seq<TimeRange>,
                            events: seq<Event>, attendees: set<Attendee>)
    requires AvoidsAll(free, busy)
    requires forall i :: 0 <= i < |events| && Involves(events[i], attendees) ==> events[i].when in busy
    ensures AllClearOf(free, events, attendees)
  {
    forall k, i | 0 <= k < |free| && 0 <= i < |events| && Involves(events[i], attendees)
      ensures Apart(free[k], events[i].when)
    {
      var j :| 0 <= j < |busy| && busy[j] == events[i].when;
    }
  }

  /** Every range of the all-attendee list is clear of every event involving
      a mandatory or an optional attendee. */
  lemma {:induction false} AllAttendeesFreeIsClear(events: seq<Event>, request: MeetingRequest)
    ensures AllClearOf(AllAttendeesFree(events, request), events,
                       request.attendees + request.optionalAttendees)
  {
    var mandatory := FindBusyRanges(request.attendees, events);
    var all := AllBusyRanges(mandatory, events, request);
    SweepAvoidsBusy(request.duration, all, START_OF_DAY);
    AllBusyRangesAreInvolved(events, request);
    AvoidingBusyIsClear(AllAttendeesFree(events, request), all, events,
                        request.attendees + request.optionalAttendees);
  }

  /** Every range of the mandatory-only list is clear of every event
      involving a mandatory attendee. */
  lemma MandatoryFreeIsClear(events: seq<Event>, request: MeetingRequest)
    ensures AllClearOf(MandatoryFree(events, request), events, request.attendees)
  {
    var mandatory := FindBusyRanges(request.attendees, events);
    SweepAvoidsBusy(request.duration, mandatory, START_OF_DAY);
    AvoidingBusyIsClear(MandatoryFree(events, request), mandatory, events, request.attendees);
  }

  /** Whatever the fallback chooses, no returned range overlaps an event of a
      mandatory attendee. */
  lemma QueryIsClearForMandatory(events: seq<Event>, request: MeetingRequest)
    ensures AllClearOf(Query(events, request), events, request.attendees)
  {
    MandatoryFreeIsClear(events, request);
    AllAttendeesFreeIsClear(events, request);
    var all := AllAttendeesFree(events, request);
    forall k | 0 <= k < |all|
      ensures ClearOf(all[k], events, request.attendees)
    {
      assert ClearOf(all[k], events, request.attendees + request.optionalAttendees);
    }
  }

  /** Without optional attendees the answer is exactly the mandatory-only list. */
  lemma QueryWithoutOptional(events: seq<Event>, request: MeetingRequest)
    requires request.optionalAttendees == {}
    ensures Query(events, request) == MandatoryFree(events, request)
  {
  }

  /** With optional attendees and a non-empty all-attendee list, that list is
      the answer, and it is clear of every mandatory and optional event. */
  lemma QueryHonoursOptional(events: seq<Event>, request: MeetingRequest)
    requires request.optionalAttendees != {}
    requires AllAttendeesFree(events, request) != []
    ensures Query(events, request) == AllAttendeesFree(events, request)
    ensures AllClearOf(Query(events, request), events,
                       request.attendees + request.optionalAttendees)
  {
    AllAttendeesFreeIsClear(events, request);
  }

  /** With optional attendees and an empty all-attendee list, the answer is
      empty when there are no mandatory attendees and the mandatory-only list
      otherwise. */
  lemma QueryFallsBack(events: seq<Event>, request: MeetingRequest)
    requires request.optionalAttendees != {}
    requires AllAttendeesFree(events, request) == []
    ensures request.attendees == {} ==> Query(events, request) == []
    ensures request.attendees != {} ==> Query(events, request) == MandatoryFree(events, request)
  {
  }

  /** With well-formed events and a non-negative duration the answer is sorted
      by start, its ranges are well-formed and no two of them overlap. */
  lemma QueryOrdered(events: seq<Event>, request: MeetingRequest)
    requires 0 <= request.duration
    requires forall i :: 0 <= i < |events| ==> WellFormed(events[i].when)
    ensures SortedByStart(Query(events, request))
    ensures NonOverlapping(Query(events, request))
    ensures AllWellFormed(Query(events, request))
  {
    var mandatory := FindBusyRanges(request.attendees, events);
    var all := AllBusyRanges(mandatory, events, request);
    AllBusyRangesAreInvolved(events, request);
    assert forall j :: 0 <= j < |mandatory| ==> mandatory[j] in mandatory;
    assert forall j :: 0 <= j < |all| ==> all[j] in all;
    assert AllWellFormed(mandatory);
    assert AllWellFormed(all);
    SweepOrdered(request.duration, mandatory, START_OF_DAY);
    SweepOrdered(request.duration, all, START_OF_DAY);
    QueryChoosesOne(events, request);
  }

  /** With no events at all the answer is the whole day, as one inclusive
      range, if the meeting is strictly shorter than the day, and nothing
      otherwise. */
  lemma QueryWithoutEvents(request: MeetingRequest)
    ensures Query([], request) ==
      if request.duration < END_OF_DAY - START_OF_DAY
      then [FromStartEnd(START_OF_DAY, END_OF_DAY, true)]
      else []
  {
    FreeRangesWithoutBusy(request);
    assert FindBusyRanges(request.attendees, []) == [];
    assert FindBusyRanges(request.optionalAttendees, []) == [];
    assert SortByStart([]) == [];
  }

  /** A meeting longer than the day gets no range when every event starts by
      the end of the day. */
  lemma QueryTooLong(events: seq<Event>, request: MeetingRequest)
    requires END_OF_DAY - START_OF_DAY < request.duration
    requires forall i :: 0 <= i < |events| ==> events[i].when.start <= END_OF_DAY
    ensures Query(events, request) == []
  {
    var mandatory := FindBusyRanges(request.attendees, events);
    var all := AllBusyRanges(mandatory, events, request);
    AllBusyRangesAreInvolved(events, request);
    assert forall j :: 0 <= j < |mandatory| ==> mandatory[j] in mandatory;
    assert forall j :: 0 <= j < |all| ==> all[j] in all;
    SweepTooLong(request.duration, mandatory, START_OF_DAY);
    SweepTooLong(request.duration, all, START_OF_DAY);
    QueryChoosesOne(events, request);
  }

  /** Every event involving `attendees` has ended before `at`, which lies
      after the start of the day: the day-closing range then starts before `at`. */
  predicate AllOverBefore(events: seq<Event>, attendees: set<Attendee>, at: int)
  {
    START_OF_DAY < at
    && forall i :: 0 <= i < |events| && Involves(events[i], attendees) ==> events[i].when.end < at
  }

  /** The sweep's final cursor lies before `at` when every busy range ends
      before it and `at` lies after the start of the day. */
  lemma FinalCursorBefore(busy: seq<TimeRange>, at: int)
    requires START_OF_DAY < at
    requires forall j :: 0 <= j < |busy| ==> busy[j].end < at
    ensures FinalCursor(busy, START_OF_DAY) < at
  {
    FinalCursorBounds(busy, START_OF_DAY);
  }

  /** A slot that suits every attendee, mandatory and optional, lies inside
      some range of the answer. A slot ending at `END_OF_DAY` is covered
      when every event of those attendees is over before it starts. */
  lemma QueryFindsEverySlot(events: seq<Event>, request: MeetingRequest, at: int)
    requires START_OF_DAY <= at && at + request.duration <= END_OF_DAY
    requires at + request.duration < END_OF_DAY
          || AllOverBefore(events, request.attendees + request.optionalAttendees, at)
    requires forall i ::
               (0 <= i < |events| && Involves(events[i], request.attendees + request.optionalAttendees))
               ==> events[i].when.end <= at || at + request.duration <= events[i].when.start
    ensures Covers(Query(events, request), at, at + request.duration)
  {
    var mandatory := FindBusyRanges(request.attendees, events);
    var optional := FindBusyRanges(request.optionalAttendees, events);
    var all := AllBusyRanges(mandatory, events, request);
    var to := at + request.duration;
    var edge := to == END_OF_DAY;
    forall j | 0 <= j < |mandatory|
      ensures mandatory[j].end <= at || to <= mandatory[j].start
      ensures edge ==> mandatory[j].end < at
    {
      assert mandatory[j] in mandatory;
      var i :| 0 <= i < |events| && Involves(events[i], request.attendees)
               && events[i].when == mandatory[j];
      assert Involves(events[i], request.attendees + request.optionalAttendees);
    }
    if edge {
      FinalCursorBefore(mandatory, at);
    }
    SweepFindsEverySlot(request.duration, mandatory, START_OF_DAY, at);
    if request.optionalAttendees != {} {
      AllBusyRangesAreInvolved(events, request);
      forall j | 0 <= j < |all|
        ensures all[j].end <= at || to <= all[j].start
        ensures edge ==> all[j].end < at
      {
        assert all[j] in all;
      }
      if edge {
        FinalCursorBefore(all, at);
      }
      SweepFindsEverySlot(request.duration, all, START_OF_DAY, at);
    }
  }

  /** When the answer is the mandatory-only list (no optional attendees, or
      an empty all-attendee list while there are mandatory attendees), every
      slot that suits the mandatory attendees lies inside some range of the
      answer. A slot ending at `END_OF_DAY` is covered when every mandatory
      attendee's event is over before it starts. */
  lemma QueryFallbackFindsEverySlot(events: seq<Event>, request: MeetingRequest, at: int)
    requires request.attendees != {}
    requires request.optionalAttendees == {} || AllAttendeesFree(events, request) == []
    requires START_OF_DAY <= at && at + request.duration <= END_OF_DAY
    requires at + request.duration < END_OF_DAY || AllOverBefore(events, request.attendees, at)
    requires forall i ::
               (0 <= i < |events| && Involves(events[i], request.attendees))
               ==> events[i].when.end <= at || at + request.duration <= events[i].when.start
    ensures Covers(Query(events, request), at, at + request.duration)
  {
    var mandatory := FindBusyRanges(request.attendees, events);
    var edge := at + request.duration == END_OF_DAY;
    forall j | 0 <= j < |mandatory|
      ensures mandatory[j].end <= at || at + request.duration <= mandatory[j].start
      ensures edge ==> mandatory[j].end < at
    {
      assert mandatory[j] in mandatory;
    }
    if edge {
      FinalCursorBefore(mandatory, at);
    }
    SweepFindsEverySlot(request.duration, mandatory, START_OF_DAY, at);
  }
}
