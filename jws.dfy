/** JWS Compact Serialization (section 7.1 of RFC 7515) with the HS256..RS512
    algorithms: header stamping, the signing input (section 5.1 of RFC 7515),
    signing, token framing and signature verification. */
module Jws {
  import opened Wrappers
  import opened Utf8
  import opened Errors
  import opened Algorithms
  import opened Backend
  import Json
  import Base64Url
  import Segments
  import Compare

  /** A compact token has a header, a payload and a signature segment. */
  const SegmentsCount: nat := 3

  /** The `typ` value stamped into a header that has none. */
  const StandardHeaderType: string := "JWT"

  /** Key material, as the `ToKey` implementations accept it: text (`String`
      and `&str`) or raw bytes (`Vec<u8>`). An HMAC secret or PEM text. */
  datatype Key = Text(text: string) | Bytes(bytes: seq<byte>)

  /** `to_key`: never fails; text gives its UTF-8 bytes, bytes are copied. */
  function ToKey(k: Key): (r: Result<seq<byte>, Error>)
    ensures r.Success?
    ensures k.Text? ==> r.value == Utf8.Encode(k.text)
    ensures k.Bytes? ==> r.value == k.bytes
  {
    match k
    case Text(s) => Success(Utf8.Encode(s))
    case Bytes(b) => Success(b)
  }

  /** The key bytes of ASCII text are its character codes, one byte per
      character, so an ASCII secret or PEM text is used verbatim. */
  lemma AsciiTextKey(s: string)
    requires forall i :: 0 <= i < |s| ==> IsAscii(s[i])
    ensures |ToKey(Text(s)).value| == |s|
    ensures forall i :: 0 <= i < |s| ==> ToKey(Text(s)).value[i] as int == s[i] as int
  {
    EncodeAscii(s);
    forall i | 0 <= i < |s|
      ensures Utf8.Encode(s)[i] as int == s[i] as int
    {
      ByteOfCode(s[i] as int);
      assert Utf8.Encode(s)[i] == (s[i] as int) as byte;
    }
  }

  /** A string made only of base64url symbols. */
  predicate IsSegment(s: string) {
    forall i :: 0 <= i < |s| ==> Base64Url.IsSymbol(s[i])
  }

  /** `b64_enc(s.as_bytes(), URL_SAFE_NO_PAD)`. */
  function EncodeText(s: string): (r: string)
    ensures IsSegment(r)
    ensures Base64Url.Decode(Utf8.Encode(r)) == Success(Utf8.Encode(s))
  {
    Base64Url.DecodeEncode(Utf8.Encode(s));
    Base64Url.Encode(Utf8.Encode(s))
  }

  /** `From<DecodeError> for Error`. */
  function FromBase64<T>(r: Result<T, Base64Url.DecodeError>): (e: Result<T, Error>)
    ensures r.Success? ==> e == Success(r.value)
    ensures r.Failure? ==> e == Failure(Base64(r.error))
  {
    match r
    case Success(v) => Success(v)
    case Failure(c) => Failure(Base64(c))
  }

  /** The serde_json indexing of `encode` may only be applied to an object or to null. */
  predicate IsStampable(header: Json.Value) {
    header.Null? || header.Object?
  }

  /** The header `encode` signs: `alg` always set to the algorithm's name,
      `typ` set to "JWT" when it is missing or null and kept otherwise, every
      other member unchanged and no member added besides those two. */
  function StampHeader(header: Json.Value, alg: Algorithm): (h: Json.Value)
    requires IsStampable(header)
    ensures h.Object?
    ensures h.fields.Keys == Json.Fields(header).Keys + {"alg", "typ"}
    ensures h.fields["alg"] == Json.Str(Name(alg))
    ensures Json.Get(header, "typ").Null? ==> h.fields["typ"] == Json.Str(StandardHeaderType)
    ensures !Json.Get(header, "typ").Null? ==> h.fields["typ"] == Json.Get(header, "typ")
    ensures forall k :: k in Json.Fields(header) && k != "alg" && k != "typ" ==>
              h.fields[k] == Json.Fields(header)[k]
  {
    var withAlg := Json.Set(header, "alg", Json.Str(Name(alg)));
    if Json.Get(withAlg, "typ").Null? then Json.Set(withAlg, "typ", Json.Str(StandardHeaderType))
    else withAlg
  }

  /** `get_signing_input`: serialization failures are returned, header first;
      on success the input splits into exactly the encoded header and the
      encoded payload. */
  function GetSigningInput(lib: Libraries, payload: Json.Value, header: Json.Value): (r: Result<string, Error>)
    ensures lib.serialize(header).Failure? ==> r == Failure(Json(lib.serialize(header).error))
    ensures lib.serialize(header).Success? && lib.serialize(payload).Failure? ==>
              r == Failure(Json(lib.serialize(payload).error))
    ensures r.Success? <==> lib.serialize(header).Success? && lib.serialize(payload).Success?
    ensures r.Success? ==>
              Segments.Split(r.value) == [EncodeText(lib.serialize(header).value), EncodeText(lib.serialize(payload).value)]
  {
    var headerJson :- FromJson(lib.serialize(header));
    var encodedHeader := EncodeText(headerJson);
    var payloadJson :- FromJson(lib.serialize(payload));
    var encodedPayload := EncodeText(payloadJson);
    Base64Url.NoSeparator(Utf8.Encode(headerJson));
    Base64Url.NoSeparator(Utf8.Encode(payloadJson));
    Segments.SplitJoin([encodedHeader, encodedPayload]);
    Success(encodedHeader + "." + encodedPayload)
  }

  /** `sign_hmac2`: the raw MAC of the data's UTF-8 bytes under the secret,
      with the digest of the algorithm. */
  function SignHmac2(lib: Libraries, data: string, key: seq<byte>, alg: HmacAlgorithm): (r: Result<seq<byte>, Error>)
    ensures lib.hmacKey(key).Failure? ==> r == Failure(OpenSsl(lib.hmacKey(key).error))
    ensures lib.hmacKey(key).Success? ==>
              var mac := lib.sign(HmacDigest(alg), lib.hmacKey(key).value, Utf8.Encode(data));
              (mac.Success? ==> r == Success(mac.value)) && (mac.Failure? ==> r == Failure(OpenSsl(mac.error)))
  {
    var stp := HmacDigest(alg);
    var pkey :- FromOpenSsl(lib.hmacKey(key));
    FromOpenSsl(lib.sign(stp, pkey, Utf8.Encode(data)))
  }

  /** `sign_hmac`: the MAC as base64url text; it decodes to the MAC that
      `sign_hmac2` computes from the key's bytes, and fails exactly when that does. */
  function SignHmac(lib: Libraries, data: string, key: Key, alg: HmacAlgorithm): (r: Result<string, Error>)
    ensures r.Success? <==> SignHmac2(lib, data, ToKey(key).value, alg).Success?
    ensures r.Failure? ==> r.error == SignHmac2(lib, data, ToKey(key).value, alg).error
    ensures r.Success? ==> (IsSegment(r.value) &&
              Base64Url.Decode(Utf8.Encode(r.value)) == Success(SignHmac2(lib, data, ToKey(key).value, alg).value))
  {
    var stp := HmacDigest(alg);
    var secret := ToKey(key).value;  // `to_key` never fails
    var pkey :- FromOpenSsl(lib.hmacKey(secret));
    var hmac :- FromOpenSsl(lib.sign(stp, pkey, Utf8.Encode(data)));
    Base64Url.DecodeEncode(hmac);
    Success(Base64Url.Encode(hmac))
  }

  /** `sign`: a signature of the data's UTF-8 bytes with a parsed private
      key, as base64url text that decodes to the raw signature. */
  function Sign(lib: Libraries, data: string, privateKey: PKey, digest: Digest): (r: Result<string, Error>)
    ensures r.Success? <==> lib.sign(digest, privateKey, Utf8.Encode(data)).Success?
    ensures r.Failure? ==> r.error == OpenSsl(lib.sign(digest, privateKey, Utf8.Encode(data)).error)
    ensures r.Success? ==> (IsSegment(r.value) &&
              Base64Url.Decode(Utf8.Encode(r.value)) == Success(lib.sign(digest, privateKey, Utf8.Encode(data)).value))
  {
    var signature :- FromOpenSsl(lib.sign(digest, privateKey, Utf8.Encode(data)));
    Base64Url.DecodeEncode(signature);
    Success(Base64Url.Encode(signature))
  }

  /** `sign_rsa`: read the key's bytes as a PEM private key, then `sign`
      with the digest of the algorithm. */
  function SignRsa(lib: Libraries, data: string, privateKey: Key, alg: RsaAlgorithm): (r: Result<string, Error>)
    ensures lib.rsaPrivateKey(ToKey(privateKey).value).Failure? ==>
              r == Failure(OpenSsl(lib.rsaPrivateKey(ToKey(privateKey).value).error))
    ensures lib.rsaPrivateKey(ToKey(privateKey).value).Success? ==>
              r == Sign(lib, data, lib.rsaPrivateKey(ToKey(privateKey).value).value, GetShaAlgorithm(alg))
    ensures r.Success? ==> (IsSegment(r.value) && lib.rsaPrivateKey(ToKey(privateKey).value).Success? &&
              var signed := lib.sign(GetShaAlgorithm(alg), lib.rsaPrivateKey(ToKey(privateKey).value).value, Utf8.Encode(data));
              signed.Success? && Base64Url.Decode(Utf8.Encode(r.value)) == Success(signed.value))
  {
    var stp := GetShaAlgorithm(alg);
    var pem := ToKey(privateKey).value;  // `to_key` never fails
    var key :- FromOpenSsl(lib.rsaPrivateKey(pem));
    Sign(lib, data, key, stp)
  }

  /** The signature segment `encode` appends: HS* algorithms go to the HMAC
      signer and RS* algorithms to the RSA signer. */
  function SignatureSegment(lib: Libraries, data: string, key: Key, alg: Algorithm): (r: Result<string, Error>)
    ensures FamilyOf(alg) == Hmac ==> r == SignHmac(lib, data, key, alg)
    ensures FamilyOf(alg) == Rsa ==> r == SignRsa(lib, data, key, alg)
  {
    match alg
    case HS256 | HS384 | HS512 => SignHmac(lib, data, key, alg)
    case RS256 | RS384 | RS512 => SignRsa(lib, data, key, alg)
  }

  /** What `encode` returns: the signing input of the stamped header and the
      payload, a separator, and the signature segment. */
  function EncodeToken(lib: Libraries, header: Json.Value, key: Key, payload: Json.Value, alg: Algorithm)
    : (r: Result<string, Error>)
    requires IsStampable(header)
    ensures GetSigningInput(lib, payload, StampHeader(header, alg)).Failure? ==>
              r == Failure(GetSigningInput(lib, payload, StampHeader(header, alg)).error)
    ensures GetSigningInput(lib, payload, StampHeader(header, alg)).Success? ==>
              var signature := SignatureSegment(lib, GetSigningInput(lib, payload, StampHeader(header, alg)).value, key, alg);
              (r.Success? <==> signature.Success?) && (signature.Failure? ==> r == Failure(signature.error))
  {
    var signingInput :- GetSigningInput(lib, payload, StampHeader(header, alg));
    var signature :- SignatureSegment(lib, signingInput, key, alg);
    Success(signingInput + "." + signature)
  }

  /** The two writes `encode` makes to its header: `alg` always, `typ` only
      when it reads as null. `encode` takes the header by value (`mut header`),
      so the writes go to its own copy and the caller never sees them; the
      method writes the same way to a local copy and returns it. */
  method StampOwnedHeader(header: Json.Value, alg: Algorithm) returns (h: Json.Value)
    requires IsStampable(header)
    ensures h == StampHeader(header, alg)
  {
    h := header;
    h := Json.Set(h, "alg", Json.Str(Name(alg)));
    if Json.Get(h, "typ").Null? {
      h := Json.Set(h, "typ", Json.Str(StandardHeaderType));
    }
  }

  /** `encode`, which stamps its own copy of the header in place before
      signing. */
  method Encode(lib: Libraries, header: Json.Value, key: Key, payload: Json.Value, alg: Algorithm)
    returns (r: Result<string, Error>)
    requires IsStampable(header)
    ensures r == EncodeToken(lib, header, key, payload, alg)
  {
    var h := StampOwnedHeader(header, alg);
    var signingInput := GetSigningInput(lib, payload, h);
    if signingInput.Failure? {
      return Failure(signingInput.error);
    }
    var signature := SignatureSegment(lib, signingInput.value, key, alg);
    if signature.Failure? {
      return Failure(signature.error);
    }
    r := Success(signingInput.value + "." + signature.value);
  }

  /** A token `encode` returns has exactly three segments, the encoded
      header, the encoded payload and the signature, and its first two
      segments joined by a separator are the signing input that was signed. */
  lemma EncodeTokenFraming(lib: Libraries, header: Json.Value, key: Key, payload: Json.Value, alg: Algorithm)
    requires IsStampable(header)
    requires EncodeToken(lib, header, key, payload, alg).Success?
    ensures var token := EncodeToken(lib, header, key, payload, alg).value;
            var h := StampHeader(header, alg);
            var parts := Segments.Split(token);
            |parts| == SegmentsCount &&
            parts[0] == EncodeText(lib.serialize(h).value) &&
            parts[1] == EncodeText(lib.serialize(payload).value) &&
            parts[2] == SignatureSegment(lib, parts[0] + "." + parts[1], key, alg).value &&
            IsSegment(parts[2]) &&
            parts[0] + "." + parts[1] == GetSigningInput(lib, payload, h).value
  {
    var h := StampHeader(header, alg);
    var signingInput := GetSigningInput(lib, payload, h).value;
    var signature := SignatureSegment(lib, signingInput, key, alg).value;
    Segments.SplitAppend(signingInput, signature);
    Segments.JoinSplit(signingInput);
  }

  /** The closure `b64_to_json` of `decode_header_and_payload`: base64url-decode
      the segment's bytes, then parse them as JSON. */
  function SegmentToJson(lib: Libraries, segment: string): (r: Result<Json.Value, Error>)
    ensures Base64Url.Decode(Utf8.Encode(segment)).Failure? ==>
              r == Failure(Base64(Base64Url.Decode(Utf8.Encode(segment)).error))
    ensures Base64Url.Decode(Utf8.Encode(segment)).Success? ==>
              var parsed := lib.parse(Base64Url.Decode(Utf8.Encode(segment)).value);
              (parsed.Success? ==> r == Success(parsed.value)) &&
              (parsed.Failure? ==> r == Failure(Json(parsed.error)))
    ensures r.Success? ==> (Base64Url.Decode(Utf8.Encode(segment)).Success? &&
              lib.parse(Base64Url.Decode(Utf8.Encode(segment)).value) == Success(r.value))
  {
    var bytes :- FromBase64(Base64Url.Decode(Utf8.Encode(segment)));
    FromJson(lib.parse(bytes))
  }

  /** `decode_header_and_payload`: the header segment is decoded first and
      its error wins. */
  function DecodeHeaderAndPayload(lib: Libraries, headerSegment: string, payloadSegment: string)
    : (r: Result<(Json.Value, Json.Value), Error>)
    ensures SegmentToJson(lib, headerSegment).Failure? ==> r == Failure(SegmentToJson(lib, headerSegment).error)
    ensures SegmentToJson(lib, headerSegment).Success? && SegmentToJson(lib, payloadSegment).Failure? ==>
              r == Failure(SegmentToJson(lib, payloadSegment).error)
    ensures r.Success? <==> SegmentToJson(lib, headerSegment).Success? && SegmentToJson(lib, payloadSegment).Success?
    ensures r.Success? ==> Success(r.value.0) == SegmentToJson(lib, headerSegment) &&
                           Success(r.value.1) == SegmentToJson(lib, payloadSegment)
  {
    var headerJson :- SegmentToJson(lib, headerSegment);
    var payloadJson :- SegmentToJson(lib, payloadSegment);
    Success((headerJson, payloadJson))
  }

  /** `decode_segments`: a token whose split does not have exactly three
      segments is `JWTInvalid`; otherwise header and payload are parsed, the
      signature decoded, and the signing input is the token's own text up to
      its last separator, never a re-serialization. */
  function DecodeSegments(lib: Libraries, encodedToken: string)
    : (r: Result<(Json.Value, Json.Value, seq<byte>, string), Error>)
    ensures |Segments.Split(encodedToken)| != SegmentsCount ==> r == Failure(JWTInvalid)
    ensures |Segments.Split(encodedToken)| == SegmentsCount ==>
              var raw := Segments.Split(encodedToken);
              var decoded := DecodeHeaderAndPayload(lib, raw[0], raw[1]);
              var signature := Base64Url.Decode(Utf8.Encode(raw[2]));
              (decoded.Failure? ==> r == Failure(decoded.error)) &&
              (decoded.Success? && signature.Failure? ==> r == Failure(Base64(signature.error))) &&
              (r.Success? <==> decoded.Success? && signature.Success?)
    ensures r.Success? ==>
              var raw := Segments.Split(encodedToken);
              |raw| == SegmentsCount &&
              DecodeHeaderAndPayload(lib, raw[0], raw[1]) == Success((r.value.0, r.value.1)) &&
              Base64Url.Decode(Utf8.Encode(raw[2])) == Success(r.value.2) &&
              r.value.3 == raw[0] + "." + raw[1] &&
              encodedToken == r.value.3 + "." + raw[2]
  {
    var rawSegments := Segments.Split(encodedToken);
    if |rawSegments| != SegmentsCount then
      Failure(JWTInvalid)
    else
      var headerSegment := rawSegments[0];
      var payloadSegment := rawSegments[1];
      var cryptoSegment := rawSegments[2];
      var decoded :- DecodeHeaderAndPayload(lib, headerSegment, payloadSegment);
      var signature :- FromBase64(Base64Url.Decode(Utf8.Encode(cryptoSegment)));
      var signingInput := headerSegment + "." + payloadSegment;
      Segments.JoinSplit(encodedToken);
      Segments.JoinThree(rawSegments);
      Success((decoded.0, decoded.1, signature, signingInput))
  }

  /** `decode_signature_segments`: the same framing as `decode_segments`,
      without parsing the header and the payload. */
  function DecodeSignatureSegments(encodedToken: string): (r: Result<(seq<byte>, string), Error>)
    ensures |Segments.Split(encodedToken)| != SegmentsCount ==> r == Failure(JWTInvalid)
    ensures |Segments.Split(encodedToken)| == SegmentsCount ==>
              var signature := Base64Url.Decode(Utf8.Encode(Segments.Split(encodedToken)[2]));
              (signature.Failure? ==> r == Failure(Base64(signature.error))) &&
              (r.Success? <==> signature.Success?)
    ensures r.Success? ==>
              var raw := Segments.Split(encodedToken);
              |raw| == SegmentsCount &&
              Base64Url.Decode(Utf8.Encode(raw[2])) == Success(r.value.0) &&
              r.value.1 == raw[0] + "." + raw[1] &&
              encodedToken == r.value.1 + "." + raw[2]
  {
    var rawSegments := Segments.Split(encodedToken);
    if |rawSegments| != SegmentsCount then
      Failure(JWTInvalid)
    else
      var headerSegment := rawSegments[0];
      var payloadSegment := rawSegments[1];
      var cryptoSegment := rawSegments[2];
      var signature :- FromBase64(Base64Url.Decode(Utf8.Encode(cryptoSegment)));
      var signingInput := headerSegment + "." + payloadSegment;
      Segments.JoinSplit(encodedToken);
      Segments.JoinThree(rawSegments);
      Success((signature, signingInput))
  }

  /** `verify_signature`. HMAC: recompute the MAC with `sign_hmac2` and
      compare it with `secure_compare`, so the answer is true exactly when the
      key's MAC of the input is the signature. RSA: read the key's bytes as a
      PEM public key and ask the verifier, whose errors are returned rather
      than folded into false. Every error is a crypto library error. */
  function VerifySignature(lib: Libraries, alg: Algorithm, signingInput: string, signature: seq<byte>, publicKey: Key)
    : (r: Result<bool, Error>)
    ensures r.Failure? ==> r.error.OpenSsl?
    ensures FamilyOf(alg) == Hmac ==>
              (r == Success(true) <==> SignHmac2(lib, signingInput, ToKey(publicKey).value, alg) == Success(signature))
    ensures FamilyOf(alg) == Hmac ==>
              (r == Success(false) <==> SignHmac2(lib, signingInput, ToKey(publicKey).value, alg).Success? &&
                                        SignHmac2(lib, signingInput, ToKey(publicKey).value, alg).value != signature)
    ensures FamilyOf(alg) == Rsa ==>
              (r.Success? <==> lib.rsaPublicKey(ToKey(publicKey).value).Success? &&
                               lib.verify(GetShaAlgorithm(alg), lib.rsaPublicKey(ToKey(publicKey).value).value,
                                          Utf8.Encode(signingInput), signature).Success?)
    ensures FamilyOf(alg) == Hmac && SignHmac2(lib, signingInput, ToKey(publicKey).value, alg).Failure? ==>
              r == Failure(SignHmac2(lib, signingInput, ToKey(publicKey).value, alg).error)
    ensures FamilyOf(alg) == Rsa && lib.rsaPublicKey(ToKey(publicKey).value).Failure? ==>
              r == Failure(OpenSsl(lib.rsaPublicKey(ToKey(publicKey).value).error))
    ensures FamilyOf(alg) == Rsa && lib.rsaPublicKey(ToKey(publicKey).value).Success? ==>
              var verified := lib.verify(GetShaAlgorithm(alg), lib.rsaPublicKey(ToKey(publicKey).value).value,
                                         Utf8.Encode(signingInput), signature);
              verified.Failure? ==> r == Failure(OpenSsl(verified.error))
    ensures FamilyOf(alg) == Rsa && r.Success? ==>
              r.value == lib.verify(GetShaAlgorithm(alg), lib.rsaPublicKey(ToKey(publicKey).value).value,
                                    Utf8.Encode(signingInput), signature).value
  {
    match alg
    case HS256 | HS384 | HS512 =>
      var secret := ToKey(publicKey).value;  // `to_key` never fails
      var signature2 :- SignHmac2(lib, signingInput, secret, alg);
      Success(Compare.SecureEqual(signature, signature2))
    case RS256 | RS384 | RS512 =>
      var pem := ToKey(publicKey).value;  // `to_key` never fails
      var key :- FromOpenSsl(lib.rsaPublicKey(pem));
      var digest := GetShaAlgorithm(alg);
      FromOpenSsl(lib.verify(digest, key, Utf8.Encode(signingInput), signature))
  }

  /** `decode`: framing and parsing errors are returned unchanged; then the
      pair is returned exactly when the signature verifies, `SignatureInvalid`
      exactly when it does not, and a verification error otherwise. */
  function Decode(lib: Libraries, encodedToken: string, signingKey: Key, alg: Algorithm)
    : (r: Result<(Json.Value, Json.Value), Error>)
    ensures DecodeSegments(lib, encodedToken).Failure? ==> r == Failure(DecodeSegments(lib, encodedToken).error)
    ensures DecodeSegments(lib, encodedToken).Success? ==>
              var (header, payload, signature, signingInput) := DecodeSegments(lib, encodedToken).value;
              var verified := VerifySignature(lib, alg, signingInput, signature, signingKey);
              (r == Success((header, payload)) <==> verified == Success(true)) &&
              (r == Failure(SignatureInvalid) <==> verified == Success(false)) &&
              (verified.Failure? ==> r == Failure(verified.error))
  {
    var (header, payload, signature, signingInput) :- DecodeSegments(lib, encodedToken);
    var valid :- VerifySignature(lib, alg, signingInput, signature, signingKey);
    if !valid then Failure(SignatureInvalid) else Success((header, payload))
  }

  /** `validate_signature`: the verification of `decode` without parsing the
      header and the payload. */
  function ValidateSignature(lib: Libraries, encodedToken: string, signingKey: Key, alg: Algorithm)
    : (r: Result<bool, Error>)
    ensures DecodeSignatureSegments(encodedToken).Failure? ==>
              r == Failure(DecodeSignatureSegments(encodedToken).error)
  {
    var (signature, signingInput) :- DecodeSignatureSegments(encodedToken);
    VerifySignature(lib, alg, signingInput, signature, signingKey)
  }
}
