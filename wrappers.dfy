/** Small shared vocabulary: identifiers, an optional value and the HTTP statuses the handlers answer with. */
module Wrappers {

  /** A row's `uuid`, as the handlers receive it in the path. */
  type Id = string

  datatype Option<T> = None | Some(value: T)

  /** The statuses the handlers send. */
  datatype Status =
    | OK            // 200
    | Created       // 201
    | BadRequest    // 400
    | NotFound      // 404
    | Conflict      // 409
}
