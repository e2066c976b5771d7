/**
  What a worker iteration hands back to the polling harness (which is not part of this model):
  a delay before the next iteration, or an exception that escapes the iteration.
 */
module Workers {

  /** TimeSpan.Zero, ShortDelay (3 s) and LongDelay (10 s) of both workers. */
  datatype Delay = Zero | ShortDelay | LongDelay

  datatype Outcome = Returned(delay: Delay) | Threw
}
