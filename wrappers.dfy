/** Optional values: `None` stands for the `null`/`undefined` results of the component. */
module Wrappers {

  datatype Option<+T> = None | Some(value: T)
}
