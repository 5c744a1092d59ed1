/** The optional-value datatype used throughout the model, standing for the source's
    `undefined`/`null` results and optional record fields. */
module Wrappers {

  datatype Option<+T> = None | Some(value: T)
}
