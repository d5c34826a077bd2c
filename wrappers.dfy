/** The optional value used for the listbox selection and for a table that
    may not exist yet. */
module Wrappers {

  datatype Option<+T> = None | Some(value: T)
}
