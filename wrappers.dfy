/** Optional values, used for the optional record id of the tag check,
    the browser-storage entry that may be absent, and parser results. */
module Wrappers {
  datatype Option<+T> = None | Some(value: T)
}
