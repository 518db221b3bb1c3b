/** Small shared datatypes. */
module Common {

  /** A value that may be absent: `null` from browser storage, a missing JSON member,
      a request that was not sent. */
  datatype Option<+T> = None | Some(value: T)
}
