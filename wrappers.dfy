/** Shared value types: optional values, the error-or-value result every
    getter of the exporter returns, and what running a command yields. */
module Wrappers {

  datatype Option<T> = None | Some(value: T)

  /** A Go `(value, error)` pair: either a value and a nil error, or an error
      carried by its text (`err.Error()`). */
  datatype Result<T> = Ok(value: T) | Err(error: string)

  /** What running a command hands back: the captured output and, when the
      command failed to launch or exited non-zero, the error's text (for a
      non-zero exit Go writes it as `exit status N`). The getters capture
      standard output alone (`cmd.Output()`); the package-manager probes
      capture standard output and standard error together
      (`cmd.CombinedOutput()`). */
  datatype CommandRun = CommandRun(output: string, err: Option<string>)
}
