/** Laws relating `encode` to `decode` and `validate_signature`, and the
    rejections of malformed and wrongly signed tokens. */
module JwsLaws {
  import opened Wrappers
  import opened Utf8
  import opened Errors
  import opened Algorithms
  import opened Backend
  import opened Jws
  import Json
  import Base64Url
  import Segments

  /** serde_json reads back what it wrote for this value. */
  predicate JsonRoundTrips(lib: Libraries, v: Json.Value) {
    lib.serialize(v).Success? && lib.parse(Utf8.Encode(lib.serialize(v).value)) == Success(v)
  }

  /** The public key accepts the private key's signature over these bytes. */
  predicate AcceptsOwnSignature(lib: Libraries, alg: RsaAlgorithm, privateKey: Key, publicKey: Key, data: seq<byte>) {
    var digest := GetShaAlgorithm(alg);
    var secretKey := lib.rsaPrivateKey(ToKey(privateKey).value);
    var verifyingKey := lib.rsaPublicKey(ToKey(publicKey).value);
    secretKey.Success? && lib.sign(digest, secretKey.value, data).Success? ==>
      verifyingKey.Success? &&
      lib.verify(digest, verifyingKey.value, data, lib.sign(digest, secretKey.value, data).value) == Success(true)
  }

  /** A segment of an encoded value decodes and parses back to the value. */
  lemma SegmentRoundTrip(lib: Libraries, v: Json.Value)
    requires JsonRoundTrips(lib, v)
    ensures SegmentToJson(lib, EncodeText(lib.serialize(v).value)) == Success(v)
  {
  }

  /** The framing of an encoded token is accepted: its signature segment
      decodes to the raw signature and the signing input is the one signed. */
  lemma SignatureSegmentsOfEncode(lib: Libraries, header: Json.Value, key: Key, payload: Json.Value, alg: Algorithm)
    returns (signature: seq<byte>)
    requires IsStampable(header)
    requires EncodeToken(lib, header, key, payload, alg).Success?
    ensures var token := EncodeToken(lib, header, key, payload, alg).value;
            var signingInput := GetSigningInput(lib, payload, StampHeader(header, alg)).value;
            DecodeSignatureSegments(token) == Success((signature, signingInput)) &&
            Base64Url.Decode(Utf8.Encode(SignatureSegment(lib, signingInput, key, alg).value)) == Success(signature)
  {
    var token := EncodeToken(lib, header, key, payload, alg).value;
    EncodeTokenFraming(lib, header, key, payload, alg);
    var parts := Segments.Split(token);
    signature := Base64Url.Decode(Utf8.Encode(parts[2])).value;
  }

  /** HMAC round trip: `validate_signature` accepts what `encode` produced
      with the same key and algorithm. */
  lemma HmacValidateEncode(lib: Libraries, header: Json.Value, key: Key, payload: Json.Value, alg: HmacAlgorithm)
    requires IsStampable(header)
    requires EncodeToken(lib, header, key, payload, alg).Success?
    ensures ValidateSignature(lib, EncodeToken(lib, header, key, payload, alg).value, key, alg) == Success(true)
  {
    var signature := SignatureSegmentsOfEncode(lib, header, key, payload, alg);
  }

  /** HMAC round trip: `decode` returns the stamped header and the payload
      of what `encode` produced with the same key and algorithm, provided
      serde_json reads both back. */
  lemma HmacDecodeEncode(lib: Libraries, header: Json.Value, key: Key, payload: Json.Value, alg: HmacAlgorithm)
    requires IsStampable(header)
    requires EncodeToken(lib, header, key, payload, alg).Success?
    requires JsonRoundTrips(lib, StampHeader(header, alg)) && JsonRoundTrips(lib, payload)
    ensures Decode(lib, EncodeToken(lib, header, key, payload, alg).value, key, alg) ==
            Success((StampHeader(header, alg), payload))
  {
    var token := EncodeToken(lib, header, key, payload, alg).value;
    EncodeTokenFraming(lib, header, key, payload, alg);
    SegmentRoundTrip(lib, StampHeader(header, alg));
    SegmentRoundTrip(lib, payload);
  }

  /** RSA round trip: with a key pair whose public half accepts what its
      private half signs, `decode` and `validate_signature` accept what
      `encode` produced. */
  lemma RsaDecodeEncode(lib: Libraries, header: Json.Value, privateKey: Key, publicKey: Key, payload: Json.Value,
                        alg: RsaAlgorithm)
    requires IsStampable(header)
    requires EncodeToken(lib, header, privateKey, payload, alg).Success?
    requires GetSigningInput(lib, payload, StampHeader(header, alg)).Success?
    requires AcceptsOwnSignature(lib, alg, privateKey, publicKey,
                                 Utf8.Encode(GetSigningInput(lib, payload, StampHeader(header, alg)).value))
    ensures ValidateSignature(lib, EncodeToken(lib, header, privateKey, payload, alg).value, publicKey, alg) ==
            Success(true)
    ensures JsonRoundTrips(lib, StampHeader(header, alg)) && JsonRoundTrips(lib, payload) ==>
              Decode(lib, EncodeToken(lib, header, privateKey, payload, alg).value, publicKey, alg) ==
              Success((StampHeader(header, alg), payload))
  {
    var signature := SignatureSegmentsOfEncode(lib, header, privateKey, payload, alg);
    EncodeTokenFraming(lib, header, privateKey, payload, alg);
    if JsonRoundTrips(lib, StampHeader(header, alg)) && JsonRoundTrips(lib, payload) {
      SegmentRoundTrip(lib, StampHeader(header, alg));
      SegmentRoundTrip(lib, payload);
    }
  }

  /** A token signed with HMAC is rejected under another key or another
      HMAC algorithm whenever their MAC of the signing input differs:
      `validate_signature` says false and `decode` says `SignatureInvalid`. */
  lemma HmacOtherKeyRejected(lib: Libraries, header: Json.Value, key: Key, payload: Json.Value, alg: HmacAlgorithm,
                             otherKey: Key, otherAlg: HmacAlgorithm)
    requires IsStampable(header)
    requires EncodeToken(lib, header, key, payload, alg).Success?
    requires GetSigningInput(lib, payload, StampHeader(header, alg)).Success?
    requires var signingInput := GetSigningInput(lib, payload, StampHeader(header, alg)).value;
             var mac := SignHmac2(lib, signingInput, ToKey(key).value, alg);
             var otherMac := SignHmac2(lib, signingInput, ToKey(otherKey).value, otherAlg);
             mac.Success? && otherMac.Success? && otherMac.value != mac.value
    ensures ValidateSignature(lib, EncodeToken(lib, header, key, payload, alg).value, otherKey, otherAlg) ==
            Success(false)
    ensures JsonRoundTrips(lib, StampHeader(header, alg)) && JsonRoundTrips(lib, payload) ==>
              Decode(lib, EncodeToken(lib, header, key, payload, alg).value, otherKey, otherAlg) ==
              Failure(SignatureInvalid)
  {
    var signature := SignatureSegmentsOfEncode(lib, header, key, payload, alg);
    EncodeTokenFraming(lib, header, key, payload, alg);
    if JsonRoundTrips(lib, StampHeader(header, alg)) && JsonRoundTrips(lib, payload) {
      SegmentRoundTrip(lib, StampHeader(header, alg));
      SegmentRoundTrip(lib, payload);
    }
  }

  /** Separator-free pieces joined into anything but three segments (two,
      four, ...) are `JWTInvalid` for both `decode` and `validate_signature`. */
  lemma WrongSegmentCountRejected(lib: Libraries, parts: seq<string>, key: Key, alg: Algorithm)
    requires 1 <= |parts| && |parts| != SegmentsCount
    requires forall i :: 0 <= i < |parts| ==> Segments.Separator !in parts[i]
    ensures Decode(lib, Segments.Join(parts), key, alg) == Failure(JWTInvalid)
    ensures ValidateSignature(lib, Segments.Join(parts), key, alg) == Failure(JWTInvalid)
  {
    Segments.SplitJoin(parts);
  }

  /** The bytes of a string with an ASCII character outside the alphabet do not decode. */
  lemma ForeignSegmentRejected(segment: string, i: nat)
    requires i < |segment| && IsAscii(segment[i]) && !Base64Url.IsSymbol(segment[i])
    ensures Base64Url.Decode(Utf8.Encode(segment)).Failure?
  {
    var j := AsciiPosition(segment, i);
    var bytes := Utf8.Encode(segment);
    AsciiByte(segment[i]);
    assert !Base64Url.IsSymbol(bytes[j] as char);
    Base64Url.DecodeRejectsForeign(bytes, j);
  }

  /** An ASCII character outside the base64url alphabet (`+`, `/`,
      whitespace, and under the strict decoder also `=`) in a segment makes `decode` fail; in the header segment it
      is a base64 error, and in the signature segment `validate_signature`
      reports a base64 error too. */
  lemma ForeignSymbolRejected(lib: Libraries, token: string, key: Key, alg: Algorithm, k: nat, i: nat)
    requires |Segments.Split(token)| == SegmentsCount && k < SegmentsCount
    requires i < |Segments.Split(token)[k]|
    requires IsAscii(Segments.Split(token)[k][i]) && !Base64Url.IsSymbol(Segments.Split(token)[k][i])
    ensures Decode(lib, token, key, alg).Failure?
    ensures k == 0 ==> Decode(lib, token, key, alg).error.Base64?
    ensures k == 2 ==> ValidateSignature(lib, token, key, alg).Failure? &&
                       ValidateSignature(lib, token, key, alg).error.Base64?
  {
    var raw := Segments.Split(token);
    ForeignSegmentRejected(raw[k], i);
    if k == 0 {
      assert DecodeHeaderAndPayload(lib, raw[0], raw[1]).Failure? &&
             DecodeHeaderAndPayload(lib, raw[0], raw[1]).error.Base64?;
    } else if k == 1 {
      assert DecodeHeaderAndPayload(lib, raw[0], raw[1]).Failure?;
    } else {
      assert DecodeSignatureSegments(token).Failure? && DecodeSignatureSegments(token).error.Base64?;
    }
  }

  /** `decode` and `validate_signature` agree on every token whose segments
      parse: the pair comes back exactly when the signature is valid, and
      `SignatureInvalid` exactly when it is not. */
  lemma DecodeAgreesWithValidate(lib: Libraries, token: string, key: Key, alg: Algorithm)
    requires DecodeSegments(lib, token).Success?
    ensures Decode(lib, token, key, alg).Success? <==> ValidateSignature(lib, token, key, alg) == Success(true)
    ensures Decode(lib, token, key, alg) == Failure(SignatureInvalid) <==>
            ValidateSignature(lib, token, key, alg) == Success(false)
  {
    var (header, payload, signature, signingInput) := DecodeSegments(lib, token).value;
    assert DecodeSignatureSegments(token) == Success((signature, signingInput));
  }

  /** Stamping is idempotent: re-encoding a header that `encode` already
      stamped with the same algorithm signs the same header. */
  lemma StampHeaderIdempotent(header: Json.Value, alg: Algorithm)
    requires IsStampable(header)
    ensures StampHeader(StampHeader(header, alg), alg) == StampHeader(header, alg)
  {
    var once := StampHeader(header, alg);
    var twice := StampHeader(once, alg);
    assert twice.fields == once.fields;
  }
}
