/** Failure-carrying values shared by the browser-shell model.

    The shell never reports errors to the user: a Python exception escaping a
    Qt slot ends the handler (or the process). The model makes each such
    exception an explicit `Err` so that callers can see when an operation
    could not complete.
 */
module Results {

  /** The Python exceptions the modelled handlers can raise. */
  datatype Error =
    | HistoryFileMissing   // open('history.txt', 'r') on a file that does not exist
    | NoCurrentTab         // `currentWidget()` returned None: the tab strip is empty

  datatype Option<+T> = None | Some(value: T)

  datatype Result<+T> = Ok(value: T) | Err(error: Error)
}
