/** What several parts of the model share. */
module Common {
  datatype Option<T> = None | Some(value: T)

  /** The largest buffer the binding allocates on a module's word. */
  const MAX_OUT_BUF: nat := 64 * 1024 * 1024

  const CKR_OK: nat := 0
}
