/** The exceptions of redhat.py, as values. */
module Outcomes {

  /** An exception that leaves an operation. */
  datatype Error =
    | BootLoaderNotFound            // this boot-loader variant is absent: try the next one
    | ConversionError(msg: string)  // fatal for the current detection or listing
    | GuestFSError(msg: string)     // raised by the guest-filesystem handle (RuntimeError)
    | PythonError(msg: string)      // a Python runtime error: NameError, AttributeError

  /** What a Python call either returns or raises. */
  datatype Result<+T> = Ok(value: T) | Fail(err: Error)

  datatype Option<+T> = None | Some(value: T)
}
