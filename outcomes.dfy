/** Optional values, the failures the library raises as exceptions, and a result type carrying either. */
module Outcomes {

  /** A nullable reference or value: `None` stands for C#'s null. */
  datatype Option<T> = None | Some(value: T)

  /** Each exception the core can raise, one constructor per distinct throw site or runtime fault. */
  datatype Error =
    | MissingType              // "No type in message parameter"
    | MissingValue             // "No value in message parameter"
    | UnknownType(name: string) // the parameter's type name does not resolve to a loaded type
    | MalformedPayload         // the JSON serializer rejected the text
    | NullPayload              // "Failed to deserialize object": the JSON text decoded to null
    | TypeMismatch             // a typed call's result is neither the requested type nor a string
    | AlreadyRunning           // a second StartServer/StartClient on the same instance
    | NoClient                 // a request sent while no client exists (a null dereference)
    | NoServer                 // a response broadcast while no server exists (a null dereference)
    | DuplicateId(id: string)  // Dictionary.Add of a key that is already present
    | HandlerFailed            // the handler threw, or the task it returned faulted
    | NullString               // the pointer converter read a JSON null
    | NotAString               // the pointer converter read a token that is neither a string nor null
    | BadFormat                // the text is not an optionally signed decimal integer
    | Overflow                 // the decimal integer lies outside the pointer-width range

  /** The outcome of an operation that may throw. */
  datatype Result<T> = Ok(value: T) | Err(error: Error)
}
