/** Optional values: a configuration key that may be absent, a tally that only exists when it is present. */
module Wrappers {
  datatype Option<+T> = None | Some(value: T)
}
