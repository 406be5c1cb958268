/** Optional values: `None` stands for JavaScript's `undefined`/`null`/`NaN`
    wherever the source tests a value for presence. */
module Wrappers {

  datatype Option<+T> = None | Some(value: T)
}
