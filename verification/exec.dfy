/**
 * The command-execution collaborator (`child_process.exec` with a timeout).
 * Running a command is a parameter of the model: a total function from the
 * command string to what its callback receives.
 */
module Exec {
  /** What `exec` hands to its callback: the captured standard output, or an
      error (spawn failure, timeout or non-zero exit status) with its message. */
  datatype ExecOutcome = Completed(stdout: string) | Failed(reason: string)

  type Runner = string -> ExecOutcome
}
