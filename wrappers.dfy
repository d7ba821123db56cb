/** A value that may be missing: a NULL `char *` of the shell, a file that could not be
    opened. */
module Wrappers {
  datatype Option<T> = None | Some(value: T)
}
