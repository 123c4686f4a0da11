/** Small result types shared by the modules. */
module Wrappers {
  datatype Option<+T> = None | Some(value: T)

  /** A byte as the source's uint8_t holds it. */
  newtype byte = x: int | 0 <= x < 256
}
