/** The optional value used where the page either has something (a stored
    draft, a request to send, a validation message) or has nothing. */
module Wrappers {

  datatype Option<+T> = None | Some(value: T)
}
