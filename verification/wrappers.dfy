/** Missing values. `None` is pandas' NaN / NaT: a cell that holds no value. */
module Wrappers {
  datatype Option<+T> = None | Some(value: T)
}
