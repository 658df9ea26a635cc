# Scheduler slot finding and request validation, in Dafny

This project models the two parts of the Scheduler service that hold real
logic, and proves what they compute.

- **Slot finding** in `MeetingService`. `FindEarliestMeetingSlotAsync` is a sweep line over the
  meetings of any requested participant, sorted by start. `SuggestAvailableSlotsAsync` steps a cursor
  through the window by one meeting duration at a time. `CreateMeetingAsync` stores a
  meeting at the earliest slot.
- **Request validation** in `ScheduleRequestValidator`. It has seven independent
  FluentValidation rules in `CascadeMode.Continue`.

Time is an integer number of minutes. Minute 0 is a midnight, so the time of
day of `t` is `t % 1440`. A meeting is `Meeting(start, end, participants)`, and its busy
interval is half-open `[start, end)`. The `Meetings` table is a `seq<Meeting>` field of the
`MeetingService` class. `CreateMeeting` appends to that field.

Modules and files:

| file | module | models |
|---|---|---|
| `wrappers.dfy` | `Wrappers` | `Option`, used for nullable results |
| `schedule_request.dfy` | `ScheduleRequests` | `ScheduleRequestDto`; `DateTime.TimeOfDay` |
| `validator.dfy` | `ScheduleRequestValidator` | the seven rules and `Validate` |
| `meetings.dfy` | `Meetings` | the meeting entity, the overlap test, and the participant query with `Where` + `OrderBy` |
| `earliest_slot.dfy` | `EarliestSlot` | the sweep of `FindEarliestMeetingSlotAsync` |
| `suggestions.dfy` | `SlotSuggestions` | the stepping loop of `SuggestAvailableSlotsAsync` |
| `meeting_service.dfy` | `MeetingServices` | the `MeetingService` class: query, then scan; and `CreateMeeting` |

Each of the two loops is a method. The method is proved against a predicate that
states its result without the loop:

- `IsEarliestSlot` says the result is the earliest free start at or after `EarliestStart`.
  The early return at line 41 never checks `LatestEnd`. So a returned window either ends
  by `LatestEnd` or ends before some later selected meeting. "Nothing" means no free start
  meets either condition. `EarliestSlotIsUnique` shows that this predicate fixes the result.
- `IsSuggestionList` says the result holds at most `maxSuggestions` free positions of the
  grid `EarliestStart + k*DurationMinutes`. The positions increase and their windows do not
  overlap each other. No free grid position is skipped.

Four behaviours of the code worth knowing:

- On a conflict the suggester still advances by one duration step
  (MeetingService.cs:154). It does not jump to the end of the conflicting meeting.
- The meeting query is not limited to the requested window (MeetingService.cs:31-34).
  The early return at line 41 does not check `LatestEnd`, so a slot found before a later
  meeting can end after `LatestEnd`. `SlotCanEndAfterLatestEnd` shows such a case.
  `SlotInsideWindow` shows that this cannot happen when no selected meeting starts after
  `LatestEnd`.
- The service does not check that the participants exist (MeetingService.cs:29-79).
- The sweep does not stop once the cursor passes `LatestEnd` minus the duration. It stops
  only at the first gap that fits (line 41) or after the last meeting (lines 46-48).

`SuggestionsFollowEarliestSlot` proves a consequence for the controller. It calls the
suggester only after the earliest-slot search has found nothing, and at that point the
suggester can only return an empty list.

## Model

| member | source | states |
|---|---|---|
| `ScheduleRequests.TimeOfDay` | Scheduler.BLL/Validators/ScheduleRequestValidator.cs:28 | the time of day is a minute in `[0, 1440)` |
| `ScheduleRequests.DayStart` | Scheduler.BLL/Validators/ScheduleRequestValidator.cs:28-37 | the midnight that starts a time's day: a multiple of 1440, no later than the time and less than a day before it |
| `ScheduleRequestValidator.Distinct` | Scheduler.BLL/Validators/ScheduleRequestValidator.cs:19 | `Distinct()` keeps exactly the ids of the list and is never longer than it |
| `ScheduleRequestValidator.DistinctHasNoDuplicates` | Scheduler.BLL/Validators/ScheduleRequestValidator.cs:19 | `Distinct()` never repeats an id |
| `ScheduleRequestValidator.DistinctCountDetectsDuplicates` | Scheduler.BLL/Validators/ScheduleRequestValidator.cs:19 | `Distinct().Count() == Count` holds iff no id occurs at two positions |
| `ScheduleRequestValidator.ValidationFailure.PropertyName` | Scheduler.BLL/Validators/ScheduleRequestValidator.cs:13-51 | each failure is reported against one of the request's four properties; the end-after-start rule against `LatestEnd` and the window rule against `DurationMinutes`, as the overrides at lines 46 and 51 say |
| `ScheduleRequestValidator.ValidationFailure.ErrorMessage` | Scheduler.BLL/Validators/ScheduleRequestValidator.cs:15-51 | the body gives each rule's message word for word; the contract states only that each ends in a period |
| `ScheduleRequestValidator.Violates` | Scheduler.BLL/Validators/ScheduleRequestValidator.cs:13-51 | the seven rule tests; the duplicates rule fails iff a non-null list repeats an id; the start rule fails iff the start is before 09:00 of its own day, the end rule iff the end is after 17:00 of its own day |
| `ScheduleRequestValidator.RunRules` | Scheduler.BLL/Validators/ScheduleRequestValidator.cs:10-11 | running rules in order reports exactly the violated ones, in rule order (no rule stops the others) |
| `ScheduleRequestValidator.Validate` | Scheduler.BLL/Validators/ScheduleRequestValidator.cs:10-51 | a failure is reported iff its rule is violated; failures come in declaration order, each at most once |
| `ScheduleRequestValidator.FailureMeaning` | Scheduler.BLL/Validators/ScheduleRequestValidator.cs:13-51 | per rule, iff: null/empty list; repeated id in a non-null list; duration <= 0; start before 09:00; end after 17:00; end <= start; window shorter than duration |
| `ScheduleRequestValidator.ValidIffNoFailures` | Scheduler.BLL/Validators/ScheduleRequestValidator.cs:13-51 | the failure list is empty iff the request meets all seven conditions |
| `ScheduleRequestValidator.ReportDeterminedByFailingRules` | Scheduler.BLL/Validators/ScheduleRequestValidator.cs:10-11 | two rule-ordered failure lists with the same members are equal, so the report is fixed by which rules fail |
| `ScheduleRequestValidator.AtMostSixFailures` | Scheduler.BLL/Validators/ScheduleRequestValidator.cs:13-20 | the empty-list and duplicates rules never fire together, so at most six failures are reported |
| `ScheduleRequestValidator.BusinessHourBoundaries` | Scheduler.BLL/Validators/ScheduleRequestValidator.cs:25-41 | 09:00 passes and 08:59 fails the start rule; 17:00 passes and 17:01 fails the end rule |
| `ScheduleRequestValidator.AllRulesAreEvaluated` | Scheduler.BLL/Validators/ScheduleRequestValidator.cs:10-51 | a request breaking six rules gets all six failures, in declaration order |
| `ScheduleRequestValidator.WindowShorterThanDuration` | Scheduler.Tests/Validation/ScheduleRequestValidatorTests.cs:76-88 | 61 minutes in a 60-minute window gives exactly the window failure |
| `Meetings.Overlaps` | Scheduler.BLL/Services/MeetingService.cs:145-147 | for a non-empty window and meeting, the overlap test holds iff they share a minute, so touching intervals do not overlap |
| `Meetings.Involves` | Scheduler.BLL/Services/MeetingService.cs:32 | a definition, with no contract of its own: line 32's test `MeetingParticipants.Any(mp => ids.Contains(mp.UserId))`; `FilterInvolving`, `Selected`, `FreeOfSelected` and `CreateMeeting` state their results through it |
| `Meetings.FilterInvolving` | Scheduler.BLL/Services/MeetingService.cs:32 | the filtered meetings are exactly the stored meetings that have a requested participant |
| `Meetings.InsertByStart` | Scheduler.BLL/Services/MeetingService.cs:33 | inserting into a start-sorted list keeps it sorted and adds exactly that meeting |
| `Meetings.SortByStart` | Scheduler.BLL/Services/MeetingService.cs:33 | the result is sorted by start and is a permutation of the input |
| `Meetings.Selected` | Scheduler.BLL/Services/MeetingService.cs:31-34 | the query result is sorted by start and holds exactly the stored meetings with a requested participant |
| `Meetings.FreeOfSelected` | Scheduler.BLL/Services/MeetingService.cs:145-147 | a window is free of the selected meetings iff it overlaps no stored meeting of any requested participant |
| `Meetings.NothingSelectedWithoutParticipants` | Scheduler.BLL/Services/MeetingService.cs:32 | an empty participant list selects no meeting |
| `EarliestSlot.ScanEarliest` | Scheduler.BLL/Services/MeetingService.cs:36-48 | on start-sorted meetings: the result is at or after EarliestStart, free, and no earlier start is free; it ends by LatestEnd or before a later meeting; "none" means no free start in the window |
| `EarliestSlot.EarliestSlotIsUnique` | Scheduler.BLL/Services/MeetingService.cs:36-48 | the sweep's specification allows only one result |
| `EarliestSlot.NoMeetingsGivesEarliestStart` | Scheduler.BLL/Services/MeetingService.cs:36-48 | with no selected meeting the result is EarliestStart iff EarliestStart + duration <= LatestEnd, otherwise none |
| `EarliestSlot.SlotInsideWindow` | Scheduler.BLL/Services/MeetingService.cs:40-48 | if no selected meeting starts after LatestEnd, a returned slot's window lies inside [EarliestStart, LatestEnd] |
| `EarliestSlot.FreeWindowIsFound` | Scheduler.BLL/Services/MeetingService.cs:46-48 | if some free window lies inside the requested window, a slot no later than it is returned |
| `EarliestSlot.SlotCanEndAfterLatestEnd` | Scheduler.BLL/Services/MeetingService.cs:40-41 | a meeting the next day lets the early return give 10:00-11:00 for a 09:00-10:00 window |
| `EarliestSlot.TouchingMeetingDoesNotConflict` | Scheduler.Tests/Integration/MeetingServiceIntegrationTests.cs:81-107 | busy 09:00-10:00, 60 minutes from 09:00 to 17:00: the slot is exactly 10:00 |
| `EarliestSlot.WholeWindowBusy` | Scheduler.BLL/Services/MeetingService.cs:36-48 | a meeting covering 09:00-17:00 leaves no slot in that window |
| `SlotSuggestions.ScanSuggestions` | Scheduler.BLL/Services/MeetingService.cs:140-157 | for duration > 0: at most maxSuggestions free grid positions inside the window, increasing, non-overlapping, and none skipped |
| `SlotSuggestions.SuggestionsIncreaseInsideWindow` | Scheduler.BLL/Services/MeetingService.cs:143-154 | suggestions strictly increase, start at or after EarliestStart and end by LatestEnd |
| `SlotSuggestions.CoveredWindowHasNoSuggestions` | Scheduler.Tests/Integration/MeetingServiceIntegrationTests.cs:110-136 | a selected meeting covering the whole window gives an empty list |
| `SlotSuggestions.SuggestionsFollowEarliestSlot` | Scheduler.WebApi/Controllers/MeetingsController.cs:48-59 | if the earliest-slot search finds nothing there are no suggestions; otherwise none precedes the earliest slot |
| `SlotSuggestions.TwoSuggestionsAfterBusyHour` | Scheduler.Tests/Integration/MeetingServiceIntegrationTests.cs:229-255 | busy 09:00-10:00, window 09:00-12:00, 60 minutes, at most two: exactly [10:00, 11:00] |
| `MeetingServices.MeetingService.FindEarliestMeetingSlot` | Scheduler.BLL/Services/MeetingService.cs:29-49 | the result meets `IsEarliestSlot` over the meetings that share a participant with the request |
| `MeetingServices.MeetingService.SuggestAvailableSlots` | Scheduler.BLL/Services/MeetingService.cs:133-158 | with at most `maxSuggestions` results, 3 by default, the result meets `IsSuggestionList` over the meetings that share a participant with the request |
| `MeetingServices.MeetingService.CreateMeeting` | Scheduler.BLL/Services/MeetingService.cs:51-79 | none and table unchanged iff the search finds nothing; otherwise one meeting is appended at the earliest slot, lasting the duration, with the requested ids, overlapping no meeting of theirs |
| `MeetingServices.AcceptedRequestSuitsService` | Scheduler.WebApi/Program.cs:22-23 | a request the validator accepts has a non-null, non-empty list without repeats and a positive duration, which is what the service methods require |
| `MeetingServices.EmptyParticipantListGivesEarliestStart` | Scheduler.Tests/Integration/MeetingServiceIntegrationTests.cs:21-34 | with an empty participant list the search returns EarliestStart whenever the meeting fits |

## Left out

- `SlotSuggestions.ScanSuggestions`: requires a positive duration. With a zero duration and a conflict, the source loop never ends, and Dafny only accepts loops that terminate. The HTTP pipeline validates requests first, and the validator rejects such durations.
- `MeetingServices.MeetingService.SuggestAvailableSlots`: requires a positive duration, for the same reason.
- `MeetingServices.MeetingService.FindEarliestMeetingSlot`, `SuggestAvailableSlots` and `CreateMeeting`: require a non-null participant list. `FindEarliestMeetingSlotAsync` uses the list at line 32, `SuggestAvailableSlotsAsync` at line 136 and `CreateMeetingAsync` at line 62, and the validator rejects null before the HTTP pipeline reaches the service.
- `MeetingServices.MeetingService.CreateMeeting`: requires a participant list without repeated ids. Lines 62-64 make one participant row per id, and SchedulerDbContext.cs:13 keys those rows by (meeting, user), so a repeated id makes `Add` fail at line 67. The validator rejects such a request before the service runs (Program.cs:22-23); `AcceptedRequestSuitsService` states this.
- DateTime range: `DateTime.AddMinutes` throws past the year 9999 (MeetingService.cs:40, 46, 61, 143, 154). Times here are unbounded integers, so the model never fails there.
- `MeetingServices.MeetingService.CreateMeeting`: returns the stored `Meeting`, not the `ScheduleResponseDto`. The database-generated `MeetingId`, the link from `BuildMeetingLink` and `SaveChangesAsync` are persistence details.
- `DateTime` precision below one minute, `DateTimeKind`, `ToUniversalTime()` (line 36) and the `double` `TotalMinutes` (validator line 48) are not modelled. All times are whole UTC minutes.
- EF Core (`SchedulerDbContext`, the repositories, `Include`, async queries) is replaced by the in-memory `meetings` sequence.
- `Meetings.SortByStart`: the model does not state that the `OrderBy` sort is stable. Neither scan depends on the order of meetings with equal starts.
- `GetAllUsersAsync`, `CreateUserAsync`, `GetAllMeetingsAsync`, `GetMeetingByIdAsync`, `GetMeetingsByUserIdAsync` and `BuildMeetingLink` are read-only projections or database lookups with nothing further to state.
- The controllers, `ExceptionFilter`, `Program.cs` wiring, `UserService` and async/await are left out.
- Concurrent requests share the `Meetings` table: every request's context uses the one in-memory database `SchedulerDb` (Program.cs:28). `CreateMeetingAsync` searches (line 53) and then stores (lines 67-68) without a lock, so two requests can take the same slot. The model runs one request at a time, and the non-overlap promise of `MeetingServices.MeetingService.CreateMeeting` holds only then.
- Participant-existence checks and `EntityNotFoundException` are not in this `MeetingService`, so they are not modelled.
