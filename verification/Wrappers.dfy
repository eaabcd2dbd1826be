/** The optional value used for everything the emulator may fail to produce. */
module Wrappers {
  datatype Option<+T> = None | Some(value: T)
}
