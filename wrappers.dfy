/** The optional value used where the JavaScript code yields `undefined`
    or "no match". */
module Wrappers {

  datatype Option<+T> = None | Some(value: T)
}
