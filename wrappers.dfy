/** Option and Result types shared by the analyzer modules, and the error
    conditions that abort a run of the analyzer. */
module Wrappers {

  /** A value that may be absent: Python's `None`, and the NaN sentinel of
      the statistics. */
  datatype Option<+T> = None | Some(value: T)

  /** The run-aborting failures of the analyzer, each with the message the
      script prints. */
  datatype Error =
    | InvalidParameter(message: string)   // a ValueError about an option value
    | Decode(message: string)             // a RuntimeError of the frame loader
    | BackendUnavailable(message: string) // no speech-to-text backend could be loaded
    | Unsupported(message: string)        // an unknown mode or speech-to-text provider

  /** The outcome of an operation that may raise one of the errors above. */
  datatype Result<+T> = Ok(value: T) | Err(error: Error)
}
