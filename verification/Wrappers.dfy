/** Values that may be absent: the source's null references and missing map entries. */
module Wrappers {
  datatype Option<+T> = None | Some(value: T)

  /** The smaller of the values present. */
  function Least(x: Option<nat>, y: Option<nat>): Option<nat> {
    if x.None? then y
    else if y.None? then x
    else if x.value <= y.value then x else y
  }
}
