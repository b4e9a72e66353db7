/** The error state of a document. */
module Errors {
  import opened Characters
  import Grammar

  type Error = Grammar.Error

  class ErrorState {
    var error: Option<Error>

    constructor ()
      ensures error == None
    {
      error := None;
    }

    /** The first error in a chain is kept. */
    method SetError(err: Error)
      modifies this
      ensures error == Grammar.FirstError(old(error), err)
    {
      if error.Some? {
        return;
      }
      error := Some(err);
    }

    method ClearError()
      modifies this
      ensures error == None
    {
      error := None;
    }
  }

  /** What is reported when there is a document to report to. */
  ghost function Reported(before: Option<Error>, error: Option<Error>): Option<Error> {
    Grammar.EarlierError(before, error)
  }

  method Report(document: ErrorState?, err: Error)
    modifies document
    ensures document != null ==> document.error == Reported(old(document.error), Some(err))
  {
    if document != null {
      document.SetError(err);
    }
  }
}
