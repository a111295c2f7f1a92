/** The "value or nothing" wrapper used for decoded grades (pandas' NaN). */
module Options {

  datatype Option<+T> = None | Some(value: T)
}
