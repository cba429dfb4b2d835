/** Option type for values a platform call may not produce
    (a missing storage entry, a URL the parser rejects). */
module Wrappers {

  datatype Option<+T> = None | Some(value: T)
}
