/** Optional values. `None` stands for PHP's `null` (an absent array element). */
module Wrappers {
  datatype Option<+T> = None | Some(value: T)
}
