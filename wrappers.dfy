/** The Option type used for Java's exceptional and absent results. */
module Wrappers {

  datatype Option<+T> = None | Some(value: T)
}
