/** `showToast`: a notification is a message with a severity, appended to the
    page's toast list when the `#toast-root` container exists. The timers that
    fade and remove it are not part of this model. */
module Toasts {

  datatype Severity = Success | Error

  datatype Toast = Toast(message: string, severity: Severity)

  /** Shows one toast: the list grows by exactly that toast when the root
      exists, and is left alone when it does not. */
  function ShowToast(shown: seq<Toast>, hasRoot: bool, message: string, severity: Severity): (r: seq<Toast>)
    ensures |r| == if hasRoot then |shown| + 1 else |shown|
    ensures r[..|shown|] == shown
    ensures hasRoot ==> r[|shown|] == Toast(message, severity)
  {
    if hasRoot then shown + [Toast(message, severity)] else shown
  }
}
