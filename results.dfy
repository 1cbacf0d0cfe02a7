/** Failure-carrying values for the operations of the mailbox engine.
    Python exceptions raised by the code become `Err` values. */
module Results {

  datatype Option<+T> = None | Some(value: T) {
    function GetOr(default: T): T {
      match this
      case Some(v) => v
      case None => default
    }
  }

  /** The exceptions the modelled code can raise. */
  datatype Error =
    | IndexError          // list or sequence index out of range
    | TypeError           // body file of a multipart part, sub-part of a leaf part
    | ValueError          // list.remove of an absent element
    | AttributeError      // `None.split` when a part has no Content-type header
    | UnicodeEncodeError  // a code point the surrogateescape handler cannot encode
    | PermissionDenied    // destroying the mailbox

  datatype Result<+R> = Ok(value: R) | Err(error: Error)
}
