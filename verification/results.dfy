/** The two wrappers the service layer needs: a value that may be SQL NULL
    or a lookup that may find no row (`Option`), and a callback that receives
    either an error or a value (`Result`). */
module Results {

  datatype Option<+T> = None | Some(value: T)

  datatype Result<+T, +E> = Ok(value: T) | Err(error: E)
}
