/** Outcomes of the modelled operations: a value, or the Python exception the
    source would raise instead. */
module Wrappers {

  /** The exception kinds the modelled code can raise. */
  datatype PyError =
    | IndexError   // a list index out of range (`xs[1]`, `xs[0]`)
    | ValueError   // `int()` on a malformed string, `md5` on a path that is neither file nor directory

  datatype Result<+T> = Ok(value: T) | Err(error: PyError)

  datatype Option<+T> = None | Some(value: T)
}
