/** The optional-value type used for the service's nullable fields (`Optional[...]`). */
module Wrappers {

  datatype Option<+T> = None | Some(value: T)
}
