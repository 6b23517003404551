/** The ways a corruption run can end: the two verdicts the test framework is
    told about, and the hard failures that abort the run. */
module Outcomes {

  datatype Option<T> = None | Some(value: T)

  /** Hard failures. Each one aborts the run with an exception or a failed
      assertion; none of them is a verdict on the corruption. */
  datatype Failure =
    | NoFiles            // the candidate list is empty
    | NotARegularFile    // the chosen path is not a regular file
    | ChecksumUnreadable // the recorded checksum could not be retrieved
    | NonPositiveBound   // `nextInt` was asked for a number below a bound of 0
    | NegativePosition   // the channel was positioned before the start of the file
    | ReadPastEnd        // no byte could be read at the position
    | FooterUnreadable   // the file is too short to hold an 8-byte checksum

  datatype Result<T> = Ok(value: T) | Err(failure: Failure)

  /** `Detected`: the corrupted file no longer matches its checksum, and the
      test goes on. `Inconclusive`: both checksums read back unchanged, so the
      test is skipped. `Failed`: a hard failure. */
  datatype Outcome = Detected | Inconclusive | Failed(failure: Failure)
}
