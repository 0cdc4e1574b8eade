/**
 * The crate's error enums (src/error.rs). `UnknownConversion` is not declared
 * in that file but is produced by the iconv and Web backends, so both enums
 * carry it here.
 */
module Errors {

  datatype ConvertError =
    | UnknownFromEncoding
    | UnknownToEncoding
    | InvalidInput
    | UnknownConversion

  datatype ConvertLossyError =
    | LossyUnknownFromEncoding
    | LossyUnknownToEncoding
    | LossyUnknownConversion

  /** `impl From<ConvertLossyError> for ConvertError`. */
  function FromLossy(e: ConvertLossyError): (r: ConvertError)
    ensures r != InvalidInput
  {
    match e
    case LossyUnknownFromEncoding => UnknownFromEncoding
    case LossyUnknownToEncoding => UnknownToEncoding
    case LossyUnknownConversion => UnknownConversion
  }
}
