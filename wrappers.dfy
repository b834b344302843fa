/** Optional values: `None` stands for the case where the source raises or has nothing to give. */
module Wrappers {

  datatype Option<+T> = None | Some(value: T)
}
