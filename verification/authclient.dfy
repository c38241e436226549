/** What a call to the authentication client (`signIn.email`, `signUp.email`)
    can come back with, and the error text a page shows for it. The call
    itself belongs to the authentication service and is not modelled. */
module AuthClient {
  import opened Wrappers
  import opened JsString

  /** The call resolved without error, resolved with `result.error`
      (whose `message` may be missing or empty), or threw. */
  datatype Outcome = Succeeded | Failed(message: Option<string>) | Threw

  const UnexpectedError := "An unexpected error occurred"

  /** The error a page shows for a failed call: the service's message when it
      has one, else the page's own `fallback`; a thrown call shows the generic text. */
  function ErrorText(o: Outcome, fallback: string): (msg: string)
    requires !o.Succeeded?
    ensures o.Threw? ==> msg == UnexpectedError
    ensures o.Failed? && o.message.Some? && o.message.value != "" ==> msg == o.message.value
    ensures o.Failed? && (o.message.None? || o.message.value == "") ==> msg == fallback
  {
    match o
    case Failed(m) => OrElse(m, fallback)
    case Threw => UnexpectedError
  }
}
