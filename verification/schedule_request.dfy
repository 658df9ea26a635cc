/** The request record `ScheduleRequestDto` (Scheduler.BLL/DTOs/ScheduleRequestDto.cs).
    Timestamps are whole minutes since the start of the calendar; the list of
    participant ids may be null, which the validator has to report. */
module ScheduleRequests {
  import opened Wrappers

  datatype ScheduleRequest = ScheduleRequest(
    participantIds: Option<seq<int>>,
    durationMinutes: int,
    earliestStart: int,
    latestEnd: int)

  const MinutesPerDay: int := 1440

  /** `DateTime.TimeOfDay`, in minutes since midnight. */
  function TimeOfDay(t: int): (m: int)
    ensures 0 <= m < MinutesPerDay
  {
    t % MinutesPerDay
  }

  /** The midnight that starts the day of `t`. */
  function DayStart(t: int): (midnight: int)
    ensures midnight % MinutesPerDay == 0
    ensures midnight <= t < midnight + MinutesPerDay
  {
    t - TimeOfDay(t)
  }
}
