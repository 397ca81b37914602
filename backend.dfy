/** The libraries the signing code calls: OpenSSL's keys, signer and verifier,
    and serde_json. They are parameters of the model, not definitions: every
    operation is an arbitrary function of its inputs, so the only thing the
    model relies on is that the same inputs give the same result. Failures
    carry an opaque code that the library's `From` conversions wrap. */
module Backend {
  import opened Wrappers
  import opened Utf8
  import opened Errors
  import Json
  import Algorithms

  /** A key object of the crypto library: an HMAC secret or an RSA key. */
  datatype PKey = PKey(handle: nat)

  datatype Libraries = Libraries(
    // PKey::hmac
    hmacKey: seq<byte> -> Result<PKey, nat>,
    // Rsa::private_key_from_pem then PKey::from_rsa
    rsaPrivateKey: seq<byte> -> Result<PKey, nat>,
    // Rsa::public_key_from_pem then PKey::from_rsa
    rsaPublicKey: seq<byte> -> Result<PKey, nat>,
    // Signer::new, update with the data, sign_to_vec
    sign: (Algorithms.Digest, PKey, seq<byte>) -> Result<seq<byte>, nat>,
    // Verifier::new, update with the data, verify against the signature
    verify: (Algorithms.Digest, PKey, seq<byte>, seq<byte>) -> Result<bool, nat>,
    // serde_json::to_string
    serialize: Json.Value -> Result<string, nat>,
    // serde_json::from_slice
    parse: seq<byte> -> Result<Json.Value, nat>)

  /** `From<ErrorStack> for Error`. */
  function FromOpenSsl<T>(r: Result<T, nat>): (e: Result<T, Error>)
    ensures r.Success? ==> e == Success(r.value)
    ensures r.Failure? ==> e == Failure(OpenSsl(r.error))
  {
    match r
    case Success(v) => Success(v)
    case Failure(c) => Failure(OpenSsl(c))
  }

  /** `From<serde_json::Error> for Error`. */
  function FromJson<T>(r: Result<T, nat>): (e: Result<T, Error>)
    ensures r.Success? ==> e == Success(r.value)
    ensures r.Failure? ==> e == Failure(Json(r.error))
  {
    match r
    case Success(v) => Success(v)
    case Failure(c) => Failure(Json(c))
  }
}
