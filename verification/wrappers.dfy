/** The optional-value datatype used for "no match" and "nothing stored". */
module Wrappers {

  /** `None` stands for JavaScript's `null`: a regex that did not match, or a
      key-value store key that was never written. */
  datatype Option<+T> = None | Some(value: T)
}
