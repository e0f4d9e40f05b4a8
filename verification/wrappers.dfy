/** Values that may be missing. */
module Options {
  datatype Option<+T> = None | Some(value: T)
}

/** Values, and the errors that come instead. */
module Results {
  /** A value, -EINVAL or -E2BIG. */
  datatype Result<+T> = Ok(value: T) | Invalid | TooBig
}
