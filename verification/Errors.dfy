/** The error values the readers return (src/error.rs), with the tokens they carry. */
module Errors {
  datatype Error =
    | Inconsistent(token: string)
    | Io(token: string, vdev: nat, offset: nat)
    | ChecksumMismatch(vdev: nat, offset: nat, what: string)
    | Unsupported(what: string)
    | UnsupportedFeature(feature: string)
    | TooLarge(what: string)
}
