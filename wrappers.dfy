/** Optional values, used for the results of the parsers that invert the number formatters. */
module Wrappers {

  datatype Option<+T> = None | Some(value: T)
}
