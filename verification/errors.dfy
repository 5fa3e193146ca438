/** The failures the core raises, with the message text each one carries. */
module Errors {

  datatype Error =
    | UnknownType(typeName: string)
    | MalformedSpec(detail: string)
    | Validation(field: string, reason: string)
    | SignatureNotMatched(hash: string)
    | NonPayable
    | TypeError(detail: string)
  {
    /** The `message` of the thrown `Error`. */
    function Message(): string {
      match this
      case UnknownType(t) => "Type \"" + t + "\" could not be matched"
      case MalformedSpec(d) => d
      case Validation(f, r) => "Validation for field \"" + f + "\" failed: " + r
      case SignatureNotMatched(h) => "Event signature \"" + h + "\" could not be matched"
      case NonPayable => "Cannot send a value to a non-payable function"
      case TypeError(d) => d
    }
  }
}
