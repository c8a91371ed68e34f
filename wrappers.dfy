/** Optional values: `None` stands for JavaScript's `undefined` or SQL's `null`, as each use says. */
module Wrappers {
  datatype Option<+T> = None | Some(value: T)
}
