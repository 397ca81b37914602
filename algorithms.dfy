/** The closed set of signature algorithms (section 3.1 of RFC 7518) and the
    dispatch from an algorithm to its family and its message digest. */
module Algorithms {

  datatype Algorithm = HS256 | HS384 | HS512 | RS256 | RS384 | RS512

  /** HS* algorithms sign with HMAC, RS* with RSASSA-PKCS1-v1_5. */
  datatype Family = Hmac | Rsa

  datatype Digest = Sha256 | Sha384 | Sha512

  /** The family `encode` and `verify_signature` dispatch an algorithm to:
      the one its wire name starts with. */
  function FamilyOf(a: Algorithm): (f: Family)
    ensures Name(a)[..2] == FamilyPrefix(f)
  {
    match a
    case HS256 | HS384 | HS512 => Hmac
    case RS256 | RS384 | RS512 => Rsa
  }

  /** The algorithms the HMAC helpers accept; any other tag is a panic there. */
  type HmacAlgorithm = a: Algorithm | FamilyOf(a) == Hmac witness HS256

  /** The algorithms the RSA helpers accept; any other tag is a panic there. */
  type RsaAlgorithm = a: Algorithm | FamilyOf(a) == Rsa witness RS256

  /** Output width of a digest, in bits. */
  function Bits(d: Digest): nat {
    match d
    case Sha256 => 256
    case Sha384 => 384
    case Sha512 => 512
  }

  /** Decimal digits of a natural number. */
  function Decimal(n: nat): string
    decreases n
  {
    if n < 10 then [('0' as int + n) as char] else Decimal(n / 10) + [('0' as int + n % 10) as char]
  }

  /** The three digest widths in decimal. */
  lemma DecimalWidths()
    ensures Decimal(256) == "256" && Decimal(384) == "384" && Decimal(512) == "512"
  {
    assert Decimal(2) == "2" && Decimal(25) == "25";
    assert Decimal(3) == "3" && Decimal(38) == "38";
    assert Decimal(5) == "5" && Decimal(51) == "51";
  }

  /** The two-letter family prefix of a wire name. */
  function FamilyPrefix(f: Family): string {
    match f
    case Hmac => "HS"
    case Rsa => "RS"
  }

  /** The digest of an HMAC algorithm (the `MessageDigest` match of the HMAC signers). */
  function HmacDigest(a: HmacAlgorithm): (d: Digest)
    ensures Name(a) == "HS" + Decimal(Bits(d))
  {
    DecimalWidths();
    match a
    case HS256 => Sha256
    case HS384 => Sha384
    case HS512 => Sha512
  }

  /** The digest of an RSA algorithm (`get_sha_algorithm`). */
  function GetShaAlgorithm(a: RsaAlgorithm): (d: Digest)
    ensures Name(a) == "RS" + Decimal(Bits(d))
  {
    DecimalWidths();
    match a
    case RS256 => Sha256
    case RS384 => Sha384
    case RS512 => Sha512
  }

  /** The digest each algorithm signs with, through the family-specific
      helper its family dispatches to. */
  function DigestOf(a: Algorithm): (d: Digest)
    ensures Name(a)[2..] == Decimal(Bits(d))
  {
    match a
    case HS256 | HS384 | HS512 => HmacDigest(a)
    case RS256 | RS384 | RS512 => GetShaAlgorithm(a)
  }

  /** The `alg` header value (`to_string`). The dispatch functions above
      state how the name agrees with the family and the digest. */
  function Name(a: Algorithm): (s: string)
    ensures |s| == 5
  {
    match a
    case HS256 => "HS256"
    case HS384 => "HS384"
    case HS512 => "HS512"
    case RS256 => "RS256"
    case RS384 => "RS384"
    case RS512 => "RS512"
  }

  /** A wire name identifies its algorithm: no two algorithms share a name. */
  lemma NameInjective(a: Algorithm, b: Algorithm)
    requires Name(a) == Name(b)
    ensures a == b
  {
    assert Name(a)[..2] == Name(b)[..2];
    assert FamilyOf(a) == FamilyOf(b);
    assert Decimal(Bits(DigestOf(a))) == Decimal(Bits(DigestOf(b)));
    assert DigestOf(a) == DigestOf(b);
  }
}
