/** An optional value: a missing `localStorage` entry, a rejected form submission. */
module Wrappers {

  datatype Option<+T> = None | Some(value: T)
}
