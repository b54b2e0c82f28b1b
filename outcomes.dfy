/** Exceptions raised by the segmentation service, and results that carry them. */
module Outcomes {

  /** The Java exceptions the modelled code raises or lets escape. */
  datatype Exception =
    | IOException(message: string)
    | IllegalArgumentException(message: string)
      /** `Collections.max` on an empty list. */
    | NoSuchElementException
      /** `PDDocument.getPage(index)` past the last page. */
    | IndexOutOfBoundsException(index: int)
  {
    /** Checked exceptions: the only kind the controller catches. */
    predicate IsChecked() {
      IOException?
    }
  }

  /** A return value, or the exception thrown instead. */
  datatype Result<+T> = Success(value: T) | Failure(error: Exception)

  /** A `void` method: it returns normally or throws. */
  datatype Outcome = Pass | Fail(error: Exception)

  /** A reference that may be `null`. */
  datatype Option<+T> = None | Some(value: T)
}
