/** Failure-carrying values shared by every stage of the pipeline. */
module Common {

  datatype Option<+T> = None | Some(value: T)

  datatype Result<+T> = Ok(value: T) | Err(error: Error)

  /** Everything that stops the pipeline. Each constructor names the Python
      exception the Python code raises at that point. */
  datatype Error =
    | StructureNotFound          // AttributeError: no matching table, or no tbody in it
    | NotMarkup                  // BeautifulSoup rejects the content it was handed
    | SchemaMismatch             // AssertionError: a row's length differs from the column count
    | FormatDrift                // AssertionError: a row has no "Date" key
    | DateParseError(text: string) // ValueError from strptime on the offending string
    | BadBoundType               // AssertionError: bound type is neither "max" nor "min"

  /** The Pass/Fail outcome of a step that changes state and returns nothing. */
  datatype Outcome = Pass | Fail(error: Error)
}
