/** The optional-value datatype used where the applet either yields a value
    or, in this model, cannot produce one. */
module Wrappers {

  datatype Option<+T> = None | Some(value: T)
}
