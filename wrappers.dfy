/** The optional-value type used for `Option<f64>` results and for undefined normalisations. */
module Wrappers {
  datatype Option<+T> = None | Some(value: T)
}
