/** Optional values: the model's stand-in for a .NET reference that may be null,
    and for a query that may throw instead of answering. */
module Wrappers {

  datatype Option<+T> = None | Some(value: T)
}
