/** The library's error type. Its definition file is not part of this model;
    the variants are the ones the modelled code produces: the two it names
    and one per library whose errors the `?` operator converts. */
module Errors {
  import Base64Url

  datatype Error =
    | JWTInvalid                          // the token does not have three segments
    | SignatureInvalid                    // `decode` found the signature wrong
    | Base64(cause: Base64Url.DecodeError) // a segment is not unpadded base64url
    | Json(code: nat)                     // serde_json could not serialize or parse
    | OpenSsl(code: nat)                  // OpenSSL could not read a key, sign or verify
}
