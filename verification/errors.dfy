/** The ways hashing and validating can fail. Each one except InvalidBase64
    corresponds to an exception the JavaScript source lets propagate to its
    caller. */
module Errors {

  datatype Error =
      /** The algorithm field is missing or is not exactly `scrypt`. */
    | UnsupportedAlgorithm
      /** The string has too few `$`-separated fields. The source then throws
          a TypeError: with two fields it calls `split` on an undefined
          parameter string; with three or four, `Buffer.from` rejects the
          undefined salt or hash. */
    | MissingField
      /** The salt or hash field is not unpadded standard base64. This error
          exists only in the model: Node decodes such text leniently and
          never throws. */
    | InvalidBase64
      /** The key-derivation function rejected its inputs (for example the
          memory bound is exceeded). */
    | KdfFailure
      /** The constant-time comparison was given buffers of different lengths. */
    | LengthMismatch
}
