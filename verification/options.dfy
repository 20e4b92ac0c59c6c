/** Values that may be missing: the error text a session may leave behind, the
    content of an attachment whose file is gone, the bytes a malformed base64
    text fails to decode to. */
module Options {
  datatype Option<+T> = None | Some(value: T)
}
