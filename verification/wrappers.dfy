/** Optional values: a present-or-absent wrapper, used for the record's
    optional timestamps and for parses that can fail. */
module Wrappers {

  datatype Option<+T> = None | Some(value: T)
}
