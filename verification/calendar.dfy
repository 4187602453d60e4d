/**
 The value types the meeting-slot finder works on: time ranges measured in
 minutes of one day, calendar events and meeting requests.

 The bounds of the day are kept abstract: `START_OF_DAY` and `END_OF_DAY`
 are constants whose values the model does not fix, so nothing proved here
 depends on a particular length of day.
 */
module Calendar {

  /** First minute of the day. Its value is deliberately left unspecified. */
  const START_OF_DAY: int

  /** Last minute of the day. Its value is deliberately left unspecified. */
  const END_OF_DAY: int

  /** A time range in minutes of the day.
      - For a range the finder reads (an event's `when`), `start` and `end`
        are the values of `start()` and `end()`. The range covers
        `[start, end)`, and its `inclusive` flag plays no part.
      - For the day-closing range the finder builds with
        `fromStartEnd(cursor, END_OF_DAY, true)`, the fields are those
        arguments. `inclusive` marks that the range reaches past `end`.
        `Fits` and `AvoidsAll` read it that way; `Covers` credits it only
        up to `end`. */
  datatype TimeRange = TimeRange(start: int, end: int, inclusive: bool)

  function FromStartEnd(start: int, end: int, inclusive: bool): TimeRange
  {
    TimeRange(start, end, inclusive)
  }

  /** A range does not end before it starts. */
  predicate WellFormed(r: TimeRange)
  {
    r.start <= r.end
  }

  predicate AllWellFormed(s: seq<TimeRange>)
  {
    forall i :: 0 <= i < |s| ==> WellFormed(s[i])
  }

  /** Neither range reaches into the other: one ends no later than the other starts. */
  predicate Apart(a: TimeRange, b: TimeRange)
  {
    a.end <= b.start || b.end <= a.start
  }

  type Attendee = string

  /** A calendar event: when it happens and who attends it. */
  datatype Event = Event(when: TimeRange, attendees: set<Attendee>)

  /** A meeting request: the mandatory attendees, the optional ones and the
      length of the meeting in minutes. */
  datatype MeetingRequest = MeetingRequest(
    attendees: set<Attendee>,
    optionalAttendees: set<Attendee>,
    duration: int)

  /** An event keeps somebody from `attendees` busy when the two attendee sets
      are not disjoint. */
  predicate Involves(e: Event, attendees: set<Attendee>)
  {
    !(e.attendees !! attendees)
  }

  function Max(a: int, b: int): int
  {
    if a < b then b else a
  }
}
