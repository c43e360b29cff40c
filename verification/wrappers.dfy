/** An optional result for the quality search. */
module Wrappers {

  /** An optional value: `None` when a search finds nothing. */
  datatype Option<+T> = None | Some(value: T)
}
