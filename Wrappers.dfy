/** The nullable references of the Java source become Option values. */
module Wrappers {

  datatype Option<+T> = None | Some(value: T)
}
