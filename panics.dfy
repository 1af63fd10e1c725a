/**
 * Why a frame of `TemplateApp::update` (src/app.rs) panics: the messages of
 * its `expect` calls, and `Vec::remove` with an index past the end.
 */
module Panics {
  import opened Decimal

  datatype Panic =
    | TimeWentBackwards
    | InvalidHours(hoursError: ParseError)
    | InvalidMinutes(minutesError: ParseError)
    | InvalidSeconds(secondsError: ParseError)
    | RemovalIndexOutOfBounds(index: nat, len: nat)
}
