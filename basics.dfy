/** Option and Result values used across the model; `Failure` names the exceptions the
    merge engine can raise on a malformed week-ending date. */
module Basics {

  datatype Option<+T> = None | Some(value: T)

  /** The two ways the engine's calls raise `ValueError`:
      - MalformedWeekDate: `week_end_date.split('/')` does not give two integer parts;
      - InvalidCalendarDate: `datetime.replace(day=..., month=...)` rejects the pair. */
  datatype Failure = MalformedWeekDate | InvalidCalendarDate

  datatype Result<+T> = Ok(value: T) | Err(error: Failure)
}
