/** The optional value used for the pagination record, which is absent
    before the listing has been paginated. */
module Wrappers {
  datatype Option<+T> = None | Some(value: T)
}
