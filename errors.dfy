/** The error values rules return. A rule error is a record of a stable code,
    a message template and the parameters bound for rendering; Each adds a
    keyed aggregate; anything else is a plain error text. */
module ErrorModel {

  /** One constraint violation: code, message template, bound parameters.
      Every parameter the rules in this model bind is an integer (a threshold). */
  datatype RuleError = RuleError(code: string, message: string, params: map<string, int>)

  /** A default error: a code and a message template, no parameters yet. */
  function NewError(code: string, message: string): RuleError {
    RuleError(code, message, map[])
  }

  /** A copy of `e` with its message replaced. */
  function SetMessage(e: RuleError, message: string): RuleError {
    e.(message := message)
  }

  /** A copy of `e` bound to the parameters `params`. */
  function SetParams(e: RuleError, params: map<string, int>): RuleError {
    e.(params := params)
  }

  /** What a rule may return in place of nil:
      - Coded: a rule error;
      - Plain: an error that only has a text (errors.New);
      - Errors: the keyed aggregate Each builds, from key to the error found there. */
  datatype ValidationError =
    | Coded(err: RuleError)
    | Plain(text: string)
    | Errors(entries: map<string, ValidationError>)

  /** The result of a validation: nil or an error. */
  datatype Outcome = Pass | Fail(error: ValidationError)
}
