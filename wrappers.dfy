/** A value that may be absent: a missing field of a loaded record, a value
    that `pd.cut` puts in no bin, a selection that was not made. */
module Wrappers {
  datatype Option<+T> = None | Some(value: T)
}
