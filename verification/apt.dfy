/** Apt commands as data. Running a command is left to a caller-supplied
    runner; the FIPS logic only decides which commands to issue and what to
    do when one fails. */
module Apt {
  import opened Wrappers
  import opened PyText

  /** The message a command is run with, raised if it fails.
      `EnabledFailed` carries the argument of the "could not enable" message
      template, whose text lives elsewhere. */
  datatype FailureMessage = Text(text: string) | EnabledFailed(title: string)

  /** A command line, the message raised on failure, and extra environment. */
  datatype AptCommand = AptCommand(args: seq<string>, onFailure: FailureMessage, env: map<string, string>)

  /** A command exited non-zero: its failure message and captured output. */
  datatype AptError = AptError(message: FailureMessage, output: string)

  /** Runs a command: its standard output, or its captured error output. */
  type Runner = AptCommand -> Result<string, string>

  /** Keep the package's existing configuration files on conflicts. Each
      option is a single argument, exactly as written in the source. */
  const DpkgConfOptions: seq<string> := [
    "-o Dpkg::Options::=\"--force-confdef\"",
    "-o Dpkg::Options::=\"--force-confold\""
  ]

  const NoninteractiveEnv: map<string, string> := map["DEBIAN_FRONTEND" := "noninteractive"]

  /** The usual failure message: the command line followed by " failed.". */
  function CommandFailedMessage(args: seq<string>): FailureMessage {
    Text(Join(" ", args) + " failed.")
  }

  /** Runs `cmd`, turning a non-zero exit into the error it raises. */
  function RunCommand(run: Runner, cmd: AptCommand): (r: Result<string, AptError>)
    ensures r.Success? <==> run(cmd).Success?
    ensures r.Success? ==> r.value == run(cmd).value
    ensures r.Failure? ==> r.error == AptError(cmd.onFailure, run(cmd).error)
  {
    match run(cmd)
    case Success(out) => Success(out)
    case Failure(output) => Failure(AptError(cmd.onFailure, output))
  }
}
