/** The optional value used for "found / not found" and "file opened / not opened". */
module Options {

  datatype Option<+T> = None | Some(value: T)
}
