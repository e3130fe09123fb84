/** A value that may be absent; `None` plays the part of Python's `False`
    returned by a failed lookup. */
module Wrappers {

  datatype Option<+T> = None | Some(value: T)
}
