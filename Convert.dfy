/**
 * The optional conversion step: `ebook-convert <epub> <pdf>` is an external
 * process. Only its outcome is modelled: the function reports whether the
 * converter exited with status 0 (not whether a file was written). A
 * non-zero exit and a missing executable are caught and give false; other
 * operating-system errors from starting the process are not caught by the
 * source and are not modelled.
 */
module Convert {

  /** How the external converter run ended. */
  datatype RunOutcome =
    | Exited(status: int)   // the executable ran and returned this exit status
    | NotFound              // no `ebook-convert` on the search path

  /** `convert_to_pdf`: true exactly when the converter ran and exited with status 0. */
  function ConvertToPdf(outcome: RunOutcome): (ok: bool)
    ensures ok <==> outcome.Exited? && outcome.status == 0
    ensures outcome.NotFound? ==> !ok
  {
    match outcome
    case Exited(status) => status == 0
    case NotFound => false
  }
}
