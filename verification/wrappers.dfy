/** Option, used for JavaScript's NaN and for absent attributes. */
module Wrappers {

  /** `None` stands for a missing value: NaN from `parseInt`, or `null` from `getAttribute`. */
  datatype Option<+T> = None | Some(value: T)
}
