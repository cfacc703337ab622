/**
  The ways a digest run can stop early. The script reports them either by
  `sys.exit(1)` or by an uncaught `IndexError`; here each is a value.
 */
module Outcomes {

  datatype Error =
    | NoUsernames                     // the username file has no lines (exit status 1)
    | EmptyTimeline(username: string) // `user_tweets[0]` on an empty timeline
    | PaletteExhausted                // `color_values[index]` for an eleventh account

  datatype Result<T> = Ok(value: T) | Failure(error: Error)
}
