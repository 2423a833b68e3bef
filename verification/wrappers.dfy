/** Optional values and replies from collaborators the model cannot see (HTTP calls,
    callbacks supplied by the caller). */
module Wrappers {

  /** A value that may be missing: JavaScript's `undefined`/`null` for a field. */
  datatype Option<+T> = None | Some(value: T) {
    function GetOr(default: T): T {
      match this
      case Some(v) => v
      case None => default
    }
  }

  /** An id JavaScript treats as true: present and not 0 (`if (!id)`, `id ? ... : ...`). */
  predicate Truthy(id: Option<int>) {
    id.Some? && id.value != 0
  }

  /** Why a collaborator call failed: the server's structured `mensajeError`, when the
      response carried one, and the transport error's own text. */
  datatype Failure = Failure(status: Option<int>, serverMessage: Option<string>, message: string)

  /** The reply of one asynchronous collaborator call, decided outside the model. */
  datatype Reply<+T> = Done(value: T) | Failed(failure: Failure)

  /** The text an error alert shows: `e?.response?.data?.mensajeError || e.message`. */
  function ErrorText(f: Failure): (t: string)
    ensures f.serverMessage.Some? && f.serverMessage.value != "" ==> t == f.serverMessage.value
    ensures (f.serverMessage.None? || f.serverMessage.value == "") ==> t == f.message
  {
    match f.serverMessage
    case Some(m) => if m != "" then m else f.message
    case None => f.message
  }
}
