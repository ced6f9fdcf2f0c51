/** The crate's error kinds (`PfError` in src/lib.rs). */
module Errors {

  datatype PfError =
    | TranslationError
    | UnknownAddressFamily
      /** `IoctlError(io::Error)`: the OS error code is carried as it was reported. */
    | IoctlError(errno: int)
    | Other(message: string)
    | Unimplemented
}
