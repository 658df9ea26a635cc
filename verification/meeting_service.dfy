/** `MeetingService` (Scheduler.BLL/Services/MeetingService.cs) over an
    in-memory meetings table: the two slot searches query the table and run
    their scan, and `CreateMeeting` adds a meeting at the earliest slot. */
module MeetingServices {
  import opened Wrappers
  import opened ScheduleRequests
  import opened Meetings
  import opened EarliestSlot
  import opened SlotSuggestions
  import ScheduleRequestValidator

  class MeetingService {
    /** The `Meetings` table of the database context. */
    var meetings: seq<Meeting>

    constructor (store: seq<Meeting>)
      ensures meetings == store
    {
      meetings := store;
    }

    /** `FindEarliestMeetingSlotAsync`, lines 29-49: query, then sweep. */
    method FindEarliestMeetingSlot(request: ScheduleRequest) returns (slot: Option<int>)
      requires request.participantIds.Some?
      ensures IsEarliestSlot(Selected(meetings, request.participantIds.value), request.earliestStart,
                             request.durationMinutes, request.latestEnd, slot)
    {
      var selected := Selected(meetings, request.participantIds.value);
      slot := ScanEarliest(selected, request.earliestStart, request.durationMinutes, request.latestEnd);
    }

    /** `SuggestAvailableSlotsAsync`, lines 133-158: query, then step. */
    method SuggestAvailableSlots(request: ScheduleRequest, maxSuggestions: int := 3) returns (suggestions: seq<int>)
      requires request.participantIds.Some?
      requires request.durationMinutes > 0
      ensures IsSuggestionList(Selected(meetings, request.participantIds.value), request.earliestStart,
                               request.durationMinutes, request.latestEnd, maxSuggestions, suggestions)
    {
      var selected := Selected(meetings, request.participantIds.value);
      suggestions := ScanSuggestions(selected, request.earliestStart, request.durationMinutes,
                                     request.latestEnd, maxSuggestions);
    }

    /** `CreateMeetingAsync`, lines 51-79: when the earliest-slot search
        finds a slot, exactly one meeting is appended, at that slot, lasting
        the requested duration, with the requested participants, and it
        overlaps no stored meeting of any of them; otherwise the table is
        left as it was. A repeated id would give two participant rows with
        the same (meeting, user) key, which the store refuses. */
    method CreateMeeting(request: ScheduleRequest) returns (created: Option<Meeting>)
      requires request.participantIds.Some?
      requires !ScheduleRequestValidator.HasDuplicates(request.participantIds.value)
      modifies this
      ensures created.None? ==>
                && meetings == old(meetings)
                && IsEarliestSlot(Selected(old(meetings), request.participantIds.value), request.earliestStart,
                                  request.durationMinutes, request.latestEnd, None)
      ensures created.Some? ==>
                && created.value.end == created.value.start + request.durationMinutes
                && created.value.participants == request.participantIds.value
                && meetings == old(meetings) + [created.value]
                && IsEarliestSlot(Selected(old(meetings), request.participantIds.value), request.earliestStart,
                                  request.durationMinutes, request.latestEnd, Some(created.value.start))
      ensures created.Some? ==>
                forall m :: m in old(meetings) && Involves(m, request.participantIds.value) ==>
                  !Overlaps(created.value.start, request.durationMinutes, m)
    {
      var earliestSlot := FindEarliestMeetingSlot(request);
      if earliestSlot.None? {
        return None;
      }
      var start := earliestSlot.value;
      FreeOfSelected(meetings, request.participantIds.value, start, request.durationMinutes);
      var meeting := Meeting(start, start + request.durationMinutes, request.participantIds.value);
      meetings := meetings + [meeting];
      created := Some(meeting);
    }
  }

  /** A request the validator accepts meets what the service methods
      demand of it: a participant list without repeats and a positive
      duration. */
  lemma AcceptedRequestSuitsService(request: ScheduleRequest)
    requires ScheduleRequestValidator.Validate(request) == []
    ensures request.participantIds.Some? && request.participantIds.value != []
    ensures !ScheduleRequestValidator.HasDuplicates(request.participantIds.value)
    ensures request.durationMinutes > 0
  {
    ScheduleRequestValidator.ValidIffNoFailures(request);
  }

  /** With an empty participant list nothing is selected, so the search
      returns EarliestStart whenever the meeting fits before LatestEnd. */
  lemma EmptyParticipantListGivesEarliestStart(store: seq<Meeting>, request: ScheduleRequest, slot: Option<int>)
    requires request.participantIds == Some([])
    requires IsEarliestSlot(Selected(store, []), request.earliestStart, request.durationMinutes,
                            request.latestEnd, slot)
    ensures slot == if request.earliestStart + request.durationMinutes <= request.latestEnd
                    then Some(request.earliestStart) else None
  {
    NothingSelectedWithoutParticipants(store);
    NoMeetingsGivesEarliestStart(request.earliestStart, request.durationMinutes, request.latestEnd, slot);
  }
}
