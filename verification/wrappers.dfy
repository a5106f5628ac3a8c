/** Optional values: Swift's `T?` (a nil pointer or an absent key). */
module Wrappers {

  datatype Option<+T> = None | Some(value: T)
}
