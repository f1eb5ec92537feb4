/** Sequences of calls made to an object, in the order they were made. */
module Runs {

  datatype Calls<Op> = NoCalls | Then(before: Calls<Op>, op: Op)
}
