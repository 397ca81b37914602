# rejwt: JWS compact tokens, modelled in Dafny

`rejwt` is a small JSON Web Token library (a copy of `frank_jwt`). It signs
a JSON header and payload with one of six algorithms: HS256, HS384 or HS512
(HMAC), or RS256, RS384 or RS512 (RSASSA-PKCS1-v1_5). The result is a JWS
compact token, `base64url(header) "." base64url(payload) "." base64url(signature)`,
as in section 7.1 of RFC 7515. It also decodes and verifies such tokens.

This project models the library's main file, `rejwt/src/lib.rs`. The crate's other file, `rejwt/src/error.rs` (declared at lib.rs:31), is not part of this model. What is modelled:

- the `Algorithm` enum and its wire names;
- the `ToKey` conversions;
- header stamping and signing input in `encode`;
- the HMAC and RSA signers;
- the framing of `decode_segments` and `decode_signature_segments`;
- `decode_header_and_payload`;
- `verify_signature`, `decode` and `validate_signature`;
- the constant-time loop of `secure_compare`.

Modules:

| module | file | what it holds |
|---|---|---|
| `Wrappers` | `wrappers.dfy` | `Option` and `Result` with `:-` support |
| `Utf8` | `utf8.dfy` | `str::as_bytes`, the UTF-8 encoding of text |
| `Base64Url` | `base64url.dfy` | unpadded base64url (`URL_SAFE_NO_PAD`) encoder and strict decoder |
| `Algorithms` | `algorithms.dfy` | the algorithm enum, its names, families and digests |
| `Json` | `json.dfy` | serde_json `Value` and the `v[key]` read and write of header stamping |
| `Segments` | `segments.dfy` | `str::split(".")` and `format!("{}.{}", ..)` |
| `Errors` | `errors.dfy` | the crate's error cases |
| `Backend` | `backend.dfy` | OpenSSL and serde_json as parameters |
| `Compare` | `compare.dfy` | `secure_compare` as a loop, proved against equality |
| `Jws` | `jws.dfy` | the crate's functions |
| `JwsLaws` | `laws.dfy` | round trips and rejections relating `encode`, `decode` and `validate_signature` |

OpenSSL and serde_json are not modelled; they are parameters. A value of
`Backend.Libraries` carries one function per library entry point the crate
calls:

- HMAC key creation, RSA private and public PEM parsing;
- signing and verifying;
- `serde_json::to_string` and `serde_json::from_slice`.

Each returns a `Result` with a numeric error code. These functions are
deterministic and otherwise unconstrained. Every law that needs a library
property takes it as a hypothesis about the particular inputs involved. For
example, the RSA round trip assumes that the public key accepts the private
key's signature over this signing input.

Two steps are imperative in the source and are methods here:

- `Jws.Encode` writes `alg` and `typ` into its own copy of the header through
  `Jws.StampOwnedHeader`, and is proved equal to the function `Jws.EncodeToken`.
  `encode` takes the header by value (`mut header`), so its writes go to its
  own copy; the method likewise writes a local copy and returns it.
- `Compare.SecureCompare` is the accumulating loop, proved equal to
  `Compare.SecureEqual`.

In `encode`, `typ` is tested with `is_null()`. The code therefore replaces a
`typ` member that is present but JSON `null`, not only a missing one. The
model follows the code.

The HMAC and RSA helpers panic on an algorithm of the other family. Their
algorithm parameter has type `HmacAlgorithm` or `RsaAlgorithm`, so the panic
arms cannot be reached, and the dispatch in `encode` and `verify_signature`
type-checks only because it routes each family to its own helper.

## Model

| member | source | states |
|---|---|---|
| Algorithms.Name | rejwt/src/lib.rs:57-69 | every wire name is five characters; the six names themselves are pinned by the contracts beside it: `Algorithms.FamilyOf` (the `HS`/`RS` prefix), `Algorithms.DigestOf` (the digest width) and `Algorithms.NameInjective` (no two algorithms share a name) |
| Algorithms.FamilyOf | rejwt/src/lib.rs:104-109 | the family `encode` and `verify_signature` dispatch to is the one named by the first two letters of the wire name (`HS` for HMAC, `RS` for RSA) |
| Algorithms.HmacDigest | rejwt/src/lib.rs:149-154 | the digest of the HMAC signers (also lib.rs:237-242) has the width the name states: HS256 is `HS` followed by the width of its digest, and so on |
| Algorithms.GetShaAlgorithm | rejwt/src/lib.rs:274-281 | the digest of the RSA signer and verifier (also lib.rs:168-173) has the width the name states |
| Algorithms.DigestOf | rejwt/src/lib.rs:104-109 | through either family's helper, the last three characters of every name are the decimal width of the digest it signs with |
| Algorithms.NameInjective | rejwt/src/lib.rs:57-69 | `to_string` is injective: two algorithms with the same name are the same algorithm |
| Jws.AsciiTextKey | rejwt/src/lib.rs:75-85 | `to_key` of ASCII text (a secret or PEM text) gives one byte per character, the character's code; `Jws.ToKey` itself never fails and returns byte keys unchanged |
| Utf8.EncodeAscii | rejwt/src/lib.rs:75-85 | `as_bytes` of ASCII text has one byte per character, the character's code |
| Base64Url.Encode | rejwt/src/lib.rs:138-140 | the unpadded encoding of n bytes has (4n+2)/3 characters, all from the base64url alphabet (ASCII) |
| Base64Url.Decode | rejwt/src/lib.rs:203 | a successful decode of k symbols yields 3k/4 bytes |
| Base64Url.DecodeEncode | rejwt/src/lib.rs:138-140 | decoding the bytes of an encoding gives back the encoded bytes |
| Base64Url.DecodeRejectsForeign | rejwt/src/lib.rs:203 | one byte outside the alphabet anywhere in the input makes decoding fail |
| Json.GetSet | rejwt/src/lib.rs:99-101 | after writing a member, that member reads back as written and every other member reads as before (absent members read as `Null`) |
| Json.Set | rejwt/src/lib.rs:99-101 | writing a member turns `Null` into an object, sets that member, adds only that key and leaves all other members unchanged |
| Jws.StampHeader | rejwt/src/lib.rs:99-102 | the signed header is an object whose keys are the caller's plus `alg` and `typ`; `alg` is the algorithm's name; `typ` is "JWT" when it was absent or null and unchanged otherwise; every other member is unchanged |
| Jws.StampOwnedHeader | rejwt/src/lib.rs:99-102 | the two writes `encode` makes to its own header leave exactly the header `StampHeader` describes |
| JwsLaws.StampHeaderIdempotent | rejwt/src/lib.rs:99-102 | stamping an already stamped header with the same algorithm changes nothing |
| Jws.EncodeText | rejwt/src/lib.rs:138-140 | an encoded text is a string of alphabet symbols that decodes to the text's bytes |
| Jws.GetSigningInput | rejwt/src/lib.rs:136-142 | a header serialization error is returned first, then a payload one; on success the input splits on `.` into exactly the encoded header and the encoded payload |
| Jws.SignHmac | rejwt/src/lib.rs:144-161 | the HMAC segment fails exactly when the raw MAC of `sign_hmac2` over the key's bytes fails, with the same error; otherwise it is alphabet text decoding to that MAC |
| Jws.SignHmac2 | rejwt/src/lib.rs:236-248 | an HMAC key error is returned as an OpenSSL error; with a key, the signer's MAC over the data's UTF-8 bytes with the algorithm's digest is returned, and a signer error comes back as an OpenSSL error |
| Jws.Sign | rejwt/src/lib.rs:180-189 | the RSA signature segment succeeds exactly when the signer does and decodes to the raw signature; a signer error comes back as an OpenSSL error |
| Jws.SignRsa | rejwt/src/lib.rs:163-178 | a PEM parse error of the private key is returned; a key that parses signs through `sign` with the algorithm's digest, so the segment succeeds exactly when the signer answers and decodes to that signature |
| Jws.SignatureSegment | rejwt/src/lib.rs:104-109 | HS algorithms are signed by the HMAC signer and RS algorithms by the RSA signer |
| Jws.EncodeToken | rejwt/src/lib.rs:93-112 | a signing-input error is returned first, then a signer error; the token exists exactly when both steps succeed (its framing is `Jws.EncodeTokenFraming`) |
| Jws.Encode | rejwt/src/lib.rs:93-112 | the method, with its header writes and early error returns, returns exactly the token `EncodeToken` describes, errors included |
| Jws.EncodeTokenFraming | rejwt/src/lib.rs:103-111 | an encoded token has exactly three segments: the encoded stamped header, the encoded payload and a signature segment of alphabet symbols signed over the first two joined by `.`, which is the signing input |
| Segments.Split | rejwt/src/lib.rs:194 | a split has one more part than the text has separators, and no part contains a separator |
| Segments.JoinSplit | rejwt/src/lib.rs:194 | joining the parts of a split with `.` gives back the text |
| Segments.SplitJoin | rejwt/src/lib.rs:141 | splitting a join of separator-free parts gives back the parts |
| Segments.SplitAppend | rejwt/src/lib.rs:111 | appending `.` and a separator-free segment adds that segment as one more part |
| Jws.SegmentToJson | rejwt/src/lib.rs:226-229 | a base64 error of the segment is returned as such; once the segment decodes, a value the parser accepts is returned and a parse error comes back as a `Json` error; on success the segment decoded and the parser accepted those bytes with this value |
| Jws.DecodeHeaderAndPayload | rejwt/src/lib.rs:222-234 | the header's error comes first, then the payload's; it succeeds exactly when both segments decode and parse, with the values of their segments |
| Jws.DecodeSegments | rejwt/src/lib.rs:191-206 | a token without exactly three segments is `JWTInvalid`; a three-segment token fails with the header and payload error first, then with the signature's base64 error, and is accepted exactly when both steps succeed; on success header and payload come from the first two segments, the signature from the third, the signing input is the first two joined by `.`, and the token is that input, `.` and the third segment |
| Jws.DecodeSignatureSegments | rejwt/src/lib.rs:208-220 | the same framing as `decode_segments`, without parsing header and payload: a three-segment token is accepted exactly when its signature segment decodes, and otherwise fails with that base64 error |
| JwsLaws.WrongSegmentCountRejected | rejwt/src/lib.rs:194-197 | separator-free parts joined into anything but three segments are `JWTInvalid` for both `decode` and `validate_signature` |
| Jws.VerifySignature | rejwt/src/lib.rs:250-272 | every error is a crypto library error, and it is the error of the step that failed: the HMAC recomputation, the public key parse or the verifier; HMAC answers true exactly when the recomputed MAC equals the signature and false exactly when it is computed and differs; RSA succeeds exactly when the public key parses and the verifier answers, and returns the verifier's answer |
| Compare.XorAccumulateZero | rejwt/src/lib.rs:288-293 | the OR of the byte-wise XORs is zero exactly when the two buffers are equal |
| Compare.SecureEqual | rejwt/src/lib.rs:283-294 | `secure_compare` is true exactly when the two buffers are equal |
| Compare.SecureCompare | rejwt/src/lib.rs:283-294 | the loop returns true exactly when the buffers are equal, and reads every byte pair when the lengths agree and none when they differ |
| Jws.Decode | rejwt/src/lib.rs:114-125 | framing and parsing errors are returned unchanged; then the pair is returned exactly when verification says true, `SignatureInvalid` exactly when it says false, and a verification error unchanged |
| Jws.ValidateSignature | rejwt/src/lib.rs:127-134 | framing errors are returned unchanged |
| JwsLaws.DecodeAgreesWithValidate | rejwt/src/lib.rs:114-134 | on a token whose segments parse, `decode` succeeds exactly when `validate_signature` says true, and says `SignatureInvalid` exactly when it says false |
| JwsLaws.SegmentRoundTrip | rejwt/src/lib.rs:136-140 | a segment produced from a value that serde_json reads back decodes and parses to that value |
| JwsLaws.SignatureSegmentsOfEncode | rejwt/src/lib.rs:208-220 | `decode_signature_segments` accepts an encoded token and gives back the raw signature and the signing input that was signed |
| JwsLaws.HmacValidateEncode | rejwt/src/lib.rs:127-134 | `validate_signature` is `Ok(true)` on a token `encode` produced with the same HMAC key and algorithm |
| JwsLaws.HmacDecodeEncode | rejwt/src/lib.rs:114-125 | `decode` returns the stamped header and the payload of an HMAC token `encode` produced with the same key and algorithm, when serde_json reads both back |
| JwsLaws.RsaDecodeEncode | rejwt/src/lib.rs:262-270 | with a key pair whose public half accepts the private half's signature, `validate_signature` is `Ok(true)` and `decode` returns the stamped header and the payload |
| JwsLaws.HmacOtherKeyRejected | rejwt/src/lib.rs:257-261 | under another key or HMAC algorithm whose MAC of the signing input differs, `validate_signature` is `Ok(false)` and `decode` is `SignatureInvalid` |
| JwsLaws.ForeignSymbolRejected | rejwt/src/lib.rs:202-203 | an ASCII character outside the base64url alphabet in any segment makes `decode` fail under the strict decoder (with a base64 error in the header segment), and in the signature segment `validate_signature` fails with a base64 error |

## Left out

- OpenSSL (`PKey::hmac`, `Rsa::private_key_from_pem`, `Rsa::public_key_from_pem`, `PKey::from_rsa`, `Signer`, `Verifier`) and serde_json (`to_string`, `from_slice`) are parameters, unconstrained functions of `Backend.Libraries`. No cryptographic property is assumed. `PKey::from_rsa`, `Signer::new` and `update` are folded into parsing and signing, because the crate only propagates their errors.
- `rejwt/src/error.rs` is not part of this model. `Errors.Error` has one case per error the crate raises or converts: `JWTInvalid`, `SignatureInvalid`, a base64 cause, and numeric serde_json and OpenSSL codes. Their wording and `Display` are not modelled.
- Base64Url.Decode: the decoder is strict unpadded base64url. It rejects `=` padding, a length of 1 mod 4 and non-zero trailing bits. The base64 crate version the library builds against is unknown, so any leniency it has (such as accepting padding) and its exact error variants are not reproduced.
- Jws.ToKey: `Key` is closed to the crate's three `ToKey` impls (`String`, `&str`, `Vec<u8>`, lib.rs:75-91), whose `to_key` never fails. `encode`, `decode` and `validate_signature` are generic over the public trait `ToKey` (lib.rs:71-73), so a caller's own impl could fail, and the `?` at lib.rs:156, 175, 259 and 263 would return its error. Such impls and that error path are not modelled.
- Compare.SecureCompare: whether the loop runs in constant time cannot be stated. The model shows only that it reads every byte pair when the lengths agree, through a ghost counter.
- Jws.StampHeader: a header that is neither an object nor `null` makes serde_json's `IndexMut` panic. This is a precondition (`IsStampable`), not an error result.
- Jws.ValidateSignature: its own contract states only error propagation. What it returns on a parsed token is covered by `JwsLaws.DecodeAgreesWithValidate`, `JwsLaws.HmacValidateEncode` and `JwsLaws.RsaDecodeEncode`.
- JwsLaws.HmacOtherKeyRejected: tampering is rejected only when the other key or algorithm gives a different MAC. That the MAC differs is a hypothesis, because the MAC is a parameter.
- JSON numbers are kept as their text; floating point and serde_json's object key order are not modelled.
- The `panic!` arms of `sign_hmac`, `sign_rsa`, `sign_hmac2` and `get_sha_algorithm` are unreachable by typing (`HmacAlgorithm`, `RsaAlgorithm`), so they have no model.
- Text is a sequence of Unicode scalar values. Rust's guarantee that `&str` is valid UTF-8 holds by construction, and lengths are unbounded integers rather than `usize`.
