/** Result types shared by the containers and the ring buffer. */
module Wrappers {

  /** The absent-on-miss result of a checked query (`get`, `read`, an iterator's `next`). */
  datatype Option<+T> = None | Some(value: T)

  /** The result of an access that aborts on a miss (`Index`, `IndexMut`): either the
      element (or slot) addressed, or a panic carrying the length and the offending index
      that the panic message reports. */
  datatype Checked<+T> = Ok(value: T) | Panic(len: nat, index: nat)
}
