/** Optional values: `None` stands for a JavaScript result that is not a
    number (`NaN`, or `undefined` turned into `NaN` by arithmetic). */
module Wrappers {

  datatype Option<+T> = None | Some(value: T)

}
