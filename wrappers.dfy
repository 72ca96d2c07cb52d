/** Failure-carrying results used by every module of the model. */
module Wrappers {

  datatype Option<+T> = None | Some(value: T)

  /** The outcome of an operation that raises a Python exception on failure. */
  datatype Result<+T, +E> = Ok(value: T) | Err(error: E)
}

/** The exceptions the modelled build helpers raise, one constructor per raise site kind. */
module Errors {

  datatype Error =
    | MalformedRequirement(requirement: string)       // RuntimeError "cannot parse requirement"
    | PackageNotFound(package: string)                // the pkg-config query failed
    | UnsatisfiedRequirement(package: string, op: string, version: string)  // AssertionError
    | DuplicateRequirement(package: string)           // RuntimeError "already been requested"
    | MissingISystemPath                              // IndexError: trailing '-isystem'
    | NoModuleName(extname: string)                   // IndexError: no '.' in the extension name
    | BadLibraryName(name: string)                    // ValueError from Library.__init__
}
