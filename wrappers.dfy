/** The optional value used throughout the model: `None` stands for JavaScript's
    `undefined` (a missing front-matter key) or for an invalid date. */
module Wrappers {

  datatype Option<+T> = None | Some(value: T)

}
