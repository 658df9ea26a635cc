/** The optional value used wherever the source returns a nullable result
    (`DateTime?`, `ScheduleResponseDto?`) or accepts a nullable reference. */
module Wrappers {
  datatype Option<+T> = None | Some(value: T)
}
