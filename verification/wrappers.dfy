/** The optional-value datatype shared by the modules of this model. */
module Wrappers {

  /** `undefined` in the TypeScript source becomes `None`. */
  datatype Option<+T> = None | Some(value: T)
}
