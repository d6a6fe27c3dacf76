/** The optional value shared by the other modules: a computed digest, a
    parsed timestamp, a matched log line, the file an event names, a found
    position. */
module Wrappers {

  datatype Option<+T> = None | Some(value: T)
}
