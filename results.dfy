/** Go's two-valued returns: a value that may be absent, and a value paired
    with an error whose text is what the caller reports. */
module Results {

  datatype Option<+T> = None | Some(value: T)

  /** `Err(msg)` stands for a non-nil `error` made by `fmt.Errorf(msg)`; the
      value returned beside such an error is always Go's zero value, so it is
      not carried. */
  datatype Result<+T> = Ok(value: T) | Err(msg: string)
}
