/** Optional values: the model's stand-in for a C# `null` result or a failed `TryGetValue`. */
module Wrappers {

  datatype Option<+T> = None | Some(value: T)
}
