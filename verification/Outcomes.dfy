/** Optional values, and results of operations that can stop with `TT_FATAL` or `TT_THROW`. */
module Outcomes {

  datatype Option<+T> = None | Some(value: T)

  datatype Result<+T> = Ok(value: T) | Fatal
}
