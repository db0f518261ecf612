/** A stock Option datatype: `None` stands for the C# `null` of an optional option value,
    and for a library call that threw. */
module Wrappers {
  datatype Option<+T> = None | Some(value: T)
}
