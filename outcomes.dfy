/** What the handlers learn from the outside world, and what they answer. */
module Outcomes {

  /** The result of one external step: a shell command or a mail send.
      A failure carries the error's message. */
  datatype Outcome = Done | Failed(message: string)

  /** A handler's JSON answer: status 200 with `{status, message}`, or
      status 500 with `{error}`. */
  datatype Reply = Ok(status: string, message: string) | ServerError(error: string)

  /** The `status` field of every successful answer. */
  const SuccessStatus: string := "success"
}
