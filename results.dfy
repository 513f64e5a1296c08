/** Option and Result values for the places where the dashboard script either
    has no value to show or stops with an exception. */
module Results {

  datatype Option<+T> = None | Some(value: T)

  /** Why loading a table or deriving a headline value stops the script. */
  datatype Error =
    | MissingColumn(column: string)    // a `KeyError` on `frame[column]`
    | AmbiguousColumn(column: string)  // `frame[column]` selects several columns
    | RaggedRow(line: nat)             // a data line with more fields than the frame has
    | EmptyTable                     // `.iloc[0]` on an empty selection
    | NoWords                        // `split()[-1]` on a blank name

  datatype Result<+T> = Ok(value: T) | Err(error: Error)
}
