/** A plain optional value, used for the result of a scan that may find nothing. */
module Options {

  datatype Option<+T> = None | Some(value: T)

}
