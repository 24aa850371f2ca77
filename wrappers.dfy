/** Optional values: `None` stands for the Java `null` that the source uses as its not-found signal. */
module Wrappers {
  datatype Option<+T> = None | Some(value: T)
}
