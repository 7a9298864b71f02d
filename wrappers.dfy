/** The optional-value type shared by the store and the route layer. */
module Wrappers {
  /** `None` stands for JavaScript's `undefined`/`null` results. */
  datatype Option<+T> = None | Some(value: T)
}
