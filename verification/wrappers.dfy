/** A value that may be missing: pandas' NaN / NaT / None in a column. */
module Wrappers {

  datatype Option<+T> = None | Some(value: T)
}
