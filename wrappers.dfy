/**
 * Optional values: `None` stands for whatever is absent in the source, such as the `undefined` of
 * a lookup that finds nothing, a constructor name that is not hashed, a falsy iterable given to a
 * constructor, or a result that is not returned because an exception is thrown.
 */
module Wrappers {
  datatype Option<+T> = None | Some(value: T)
}
