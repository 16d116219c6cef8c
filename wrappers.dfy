/** The optional value used for the columns the scraper may leave empty. */
module Wrappers {

  /** `None` stands for Python's `None` or for a key the record does not have. */
  datatype Option<+T> = None | Some(value: T)
}
