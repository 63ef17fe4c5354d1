/** The optional-value datatype shared by the other modules. */
module Wrappers {

  /** `None` stands for a missing value: no regular-expression match, a model
      that was never configured, or a transform that raised. */
  datatype Option<+T> = None | Some(value: T)
}
