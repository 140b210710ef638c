/** The optional value used for a regex result that may be null and for
    operations that may fail. */
module Wrappers {

  datatype Option<+T> = None | Some(value: T)

}
