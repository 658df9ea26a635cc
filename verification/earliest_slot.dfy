/** The sweep line of `FindEarliestMeetingSlotAsync`
    (Scheduler.BLL/Services/MeetingService.cs:36-48): a cursor starts at
    EarliestStart and walks the selected meetings in start order. */
module EarliestSlot {
  import opened Wrappers
  import opened Meetings

  /** Some meeting starts at or after `t`. */
  ghost predicate SomeMeetingStartsAtOrAfter(meetings: seq<Meeting>, t: int)
  {
    exists i :: 0 <= i < |meetings| && t <= meetings[i].start
  }

  /** What the sweep computes, stated without the sweep. A slot it returns is
      the earliest start at or after `earliestStart` whose window is free of
      every meeting, and that window either ends by `latestEnd` or ends before
      some meeting begins (the early return of line 41 does not look at
      `latestEnd`). It returns nothing exactly when every free start at or
      after `earliestStart` is both too late for `latestEnd` and later than
      every gap before a meeting. */
  ghost predicate IsEarliestSlot(meetings: seq<Meeting>, earliestStart: int, duration: int,
                                 latestEnd: int, slot: Option<int>)
  {
    match slot
    case Some(s) =>
      && earliestStart <= s
      && Free(meetings, s, duration)
      && (forall t :: earliestStart <= t < s ==> !Free(meetings, t, duration))
      && (s + duration <= latestEnd || SomeMeetingStartsAtOrAfter(meetings, s + duration))
    case None =>
      forall t :: earliestStart <= t && Free(meetings, t, duration) ==>
        t + duration > latestEnd && !SomeMeetingStartsAtOrAfter(meetings, t + duration)
  }

  /** Lines 36-48. `meetings` are the selected meetings, sorted by start. */
  method ScanEarliest(meetings: seq<Meeting>, earliestStart: int, duration: int, latestEnd: int)
    returns (slot: Option<int>)
    requires SortedByStart(meetings)
    ensures IsEarliestSlot(meetings, earliestStart, duration, latestEnd, slot)
  {
    var cursor := earliestStart;
    var i := 0;
    while i < |meetings|
      invariant 0 <= i <= |meetings|
      invariant earliestStart <= cursor
      // the cursor is past every meeting seen so far
      invariant forall j :: 0 <= j < i ==> meetings[j].end <= cursor
      // no meeting seen so far leaves room before it
      invariant forall j :: 0 <= j < i ==> meetings[j].start < cursor + duration
      // every earlier start is blocked by some meeting
      invariant forall t :: earliestStart <= t < cursor ==> !Free(meetings, t, duration)
    {
      var meeting := meetings[i];
      if cursor + duration <= meeting.start {
        forall j | 0 <= j < |meetings| ensures !Overlaps(cursor, duration, meetings[j]) {
          if j >= i {
            assert meeting.start <= meetings[j].start;
          }
        }
        return Some(cursor);
      }
      var next := if meeting.end > cursor then meeting.end else cursor;
      forall t | cursor <= t < next ensures !Free(meetings, t, duration) {
        assert Overlaps(t, duration, meetings[i]);
      }
      cursor := next;
      i := i + 1;
    }
    if cursor + duration <= latestEnd {
      slot := Some(cursor);
    } else {
      slot := None;
    }
  }

  /** The description above determines the result: two results that both
      meet it are equal. */
  lemma EarliestSlotIsUnique(meetings: seq<Meeting>, earliestStart: int, duration: int,
                             latestEnd: int, a: Option<int>, b: Option<int>)
    requires IsEarliestSlot(meetings, earliestStart, duration, latestEnd, a)
    requires IsEarliestSlot(meetings, earliestStart, duration, latestEnd, b)
    ensures a == b
  {
  }

  /** With no meeting selected the result is EarliestStart if the meeting
      fits before LatestEnd, and nothing otherwise. */
  lemma NoMeetingsGivesEarliestStart(earliestStart: int, duration: int, latestEnd: int, slot: Option<int>)
    requires IsEarliestSlot([], earliestStart, duration, latestEnd, slot)
    ensures slot == if earliestStart + duration <= latestEnd then Some(earliestStart) else None
  {
    assert Free([], earliestStart, duration);
    if slot.Some? {
      assert slot.value == earliestStart;
    }
  }

  /** When no selected meeting starts after LatestEnd, a returned slot ends
      by LatestEnd, so it lies inside the requested window. */
  lemma SlotInsideWindow(meetings: seq<Meeting>, earliestStart: int, duration: int, latestEnd: int, s: int)
    requires IsEarliestSlot(meetings, earliestStart, duration, latestEnd, Some(s))
    requires forall i :: 0 <= i < |meetings| ==> meetings[i].start <= latestEnd
    ensures earliestStart <= s && s + duration <= latestEnd
  {
  }

  /** A slot is returned whenever a free window lies inside
      [earliestStart, latestEnd]. */
  lemma FreeWindowIsFound(meetings: seq<Meeting>, earliestStart: int, duration: int, latestEnd: int,
                          slot: Option<int>, t: int)
    requires IsEarliestSlot(meetings, earliestStart, duration, latestEnd, slot)
    requires earliestStart <= t && t + duration <= latestEnd && Free(meetings, t, duration)
    ensures slot.Some? && slot.value <= t
  {
  }

  /** The early return does not check LatestEnd: with a busy 09:00-10:00, a
      window 09:00-10:00 and another meeting of the same participant the next
      day, a 60-minute request gets 10:00-11:00, past the window. */
  lemma SlotCanEndAfterLatestEnd()
    ensures IsEarliestSlot([Meeting(540, 600, [1]), Meeting(1980, 2040, [1])], 540, 60, 600, Some(600))
  {
    var meetings := [Meeting(540, 600, [1]), Meeting(1980, 2040, [1])];
    forall t | 540 <= t < 600 ensures !Free(meetings, t, 60) {
      assert Overlaps(t, 60, meetings[0]);
    }
    assert 600 + 60 <= meetings[1].start;
  }

  /** A busy 09:00-10:00 and a 60-minute request from 09:00 to 17:00 give
      10:00: the slot may start exactly where a meeting ends. */
  lemma TouchingMeetingDoesNotConflict(slot: Option<int>)
    requires IsEarliestSlot([Meeting(540, 600, [1])], 540, 60, 1020, slot)
    ensures slot == Some(600)
  {
    var meetings := [Meeting(540, 600, [1])];
    forall t | 540 <= t < 600 ensures !Free(meetings, t, 60) {
      assert Overlaps(t, 60, meetings[0]);
    }
    assert IsEarliestSlot(meetings, 540, 60, 1020, Some(600));
    EarliestSlotIsUnique(meetings, 540, 60, 1020, slot, Some(600));
  }

  /** A meeting covering the whole 09:00-17:00 window leaves no slot. */
  lemma WholeWindowBusy(slot: Option<int>)
    requires IsEarliestSlot([Meeting(540, 1020, [1])], 540, 60, 1020, slot)
    ensures slot == None
  {
    var meetings := [Meeting(540, 1020, [1])];
    forall t | 540 <= t && Free(meetings, t, 60)
      ensures t + 60 > 1020 && !SomeMeetingStartsAtOrAfter(meetings, t + 60)
    {
      assert !Overlaps(t, 60, meetings[0]);
    }
    assert IsEarliestSlot(meetings, 540, 60, 1020, None);
    EarliestSlotIsUnique(meetings, 540, 60, 1020, slot, None);
  }
}
