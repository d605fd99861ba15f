/** An optional value: a request field that may be absent, a header that may be
    missing, a configuration variable that may be unset. */
module Wrappers {

  datatype Option<+T> = None | Some(value: T)
}
