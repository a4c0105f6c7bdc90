/** What a computation guarded by C `assert`s produces: its value, or the abort of a failed
    assertion. */
module Outcomes {

  datatype Outcome<+T> = Done(value: T) | AssertFailed

  datatype Option<+T> = None | Some(value: T)
}
