/** Optional values, standing for JavaScript's `undefined` results (`find`, optional props). */
module Wrappers {
  datatype Option<+T> = None | Some(value: T)
}
