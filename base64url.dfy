/** Base64url without padding (section 5 of RFC 4648), the `URL_SAFE_NO_PAD`
    configuration that the token format uses for all three segments. Encoding
    produces text; decoding reads the UTF-8 bytes of a segment, as the base64
    crate does with `seg.as_bytes()`. */
module Base64Url {
  import opened Wrappers
  import opened Utf8

  /** Why a byte string is not the unpadded base64url form of any bytes. */
  datatype DecodeError =
    | InvalidSymbol        // a byte outside the alphabet, padding `=` included
    | InvalidLength        // one symbol left over after the last full group
    | NonZeroTrailingBits  // the last symbol carries bits that encode nothing

  /** The alphabet: `A`-`Z`, `a`-`z`, `0`-`9`, `-` and `_`. */
  predicate IsSymbol(c: char) {
    ('A' <= c <= 'Z') || ('a' <= c <= 'z') || ('0' <= c <= '9') || c == '-' || c == '_'
  }

  /** The ASCII code of the symbol for a 6-bit value. */
  function SymbolByte(v: byte): (b: byte)
    requires v < 64
    ensures b < 0x80 && IsSymbol(b as char)
  {
    if v < 26 then v + 65          // 'A'..'Z'
    else if v < 52 then v + 71     // 'a'..'z'
    else if v < 62 then v - 4      // '0'..'9'
    else if v == 62 then 45        // '-'
    else 95                        // '_'
  }

  /** The symbol for a 6-bit value. */
  function Symbol(v: byte): (c: char)
    requires v < 64
    ensures IsSymbol(c) && IsAscii(c)
  {
    SymbolByte(v) as char
  }

  /** The 6-bit value a byte stands for, if it is a symbol of the alphabet. */
  function SextetOf(b: byte): (r: Option<byte>)
    ensures r.Some? <==> IsSymbol(b as char)
    ensures r.Some? ==> r.value < 64 && SymbolByte(r.value) == b
  {
    if 65 <= b <= 90 then Some(b - 65)
    else if 97 <= b <= 122 then Some(b - 71)
    else if 48 <= b <= 57 then Some(b + 4)
    else if b == 45 then Some(62)
    else if b == 95 then Some(63)
    else None
  }

  /** Reading back the symbol of a value gives the value. */
  lemma SymbolRoundTrip(v: byte)
    requires v < 64
    ensures SextetOf(SymbolByte(v)) == Some(v)
  {
  }

  /** Three bytes become four symbols. */
  function EncodeQuantum(x: byte, y: byte, z: byte): (s: string)
    ensures |s| == 4 && forall i :: 0 <= i < 4 ==> IsSymbol(s[i]) && IsAscii(s[i])
  {
    [Symbol(x >> 2), Symbol(((x & 3) << 4) | (y >> 4)), Symbol(((y & 15) << 2) | (z >> 6)), Symbol(z & 63)]
  }

  /** One final byte becomes two symbols. */
  function EncodeLast1(x: byte): (s: string)
    ensures |s| == 2 && forall i :: 0 <= i < 2 ==> IsSymbol(s[i]) && IsAscii(s[i])
  {
    [Symbol(x >> 2), Symbol((x & 3) << 4)]
  }

  /** Two final bytes become three symbols. */
  function EncodeLast2(x: byte, y: byte): (s: string)
    ensures |s| == 3 && forall i :: 0 <= i < 3 ==> IsSymbol(s[i]) && IsAscii(s[i])
  {
    [Symbol(x >> 2), Symbol(((x & 3) << 4) | (y >> 4)), Symbol((y & 15) << 2)]
  }

  /** Unpadded base64url encoding: four symbols per three bytes, then two
      symbols for one trailing byte or three for two, and no `=`. */
  function Encode(data: seq<byte>): (s: string)
    ensures |s| == (4 * |data| + 2) / 3
    ensures forall i :: 0 <= i < |s| ==> IsSymbol(s[i]) && IsAscii(s[i])
    decreases |data|
  {
    if |data| == 0 then
      ""
    else if |data| == 1 then
      EncodeLast1(data[0])
    else if |data| == 2 then
      EncodeLast2(data[0], data[1])
    else
      EncodeQuantum(data[0], data[1], data[2]) + Encode(data[3..])
  }

  function Sextet(b: byte): (r: Result<byte, DecodeError>)
    ensures r.Success? ==> r.value < 64
  {
    match SextetOf(b)
    case Some(v) => Success(v)
    case None => Failure(InvalidSymbol)
  }

  /** Four symbols become three bytes. */
  function DecodeQuantum(a: byte, b: byte, c: byte, d: byte): (r: Result<seq<byte>, DecodeError>)
    ensures r.Success? ==> |r.value| == 3
  {
    var p :- Sextet(a);
    var q :- Sextet(b);
    var r :- Sextet(c);
    var s :- Sextet(d);
    Success([(p << 2) | (q >> 4), (q << 4) | (r >> 2), (r << 6) | s])
  }

  /** Two final symbols become one byte; the low four bits of the second must be zero. */
  function DecodeLast2(a: byte, b: byte): (r: Result<seq<byte>, DecodeError>)
    ensures r.Success? ==> |r.value| == 1
  {
    var p :- Sextet(a);
    var q :- Sextet(b);
    if q & 15 != 0 then Failure(NonZeroTrailingBits)
    else Success([(p << 2) | (q >> 4)])
  }

  /** Three final symbols become two bytes; the low two bits of the third must be zero. */
  function DecodeLast3(a: byte, b: byte, c: byte): (r: Result<seq<byte>, DecodeError>)
    ensures r.Success? ==> |r.value| == 2
  {
    var p :- Sextet(a);
    var q :- Sextet(b);
    var r :- Sextet(c);
    if r & 3 != 0 then Failure(NonZeroTrailingBits)
    else Success([(p << 2) | (q >> 4), (q << 4) | (r >> 2)])
  }

  /** Decoding of the unpadded form: every byte must be a symbol, a lone
      trailing symbol is an invalid length, and the bits of the last symbol
      that fall past the last byte must be zero. */
  function Decode(input: seq<byte>): (r: Result<seq<byte>, DecodeError>)
    ensures r.Success? ==> |r.value| == 3 * |input| / 4
    decreases |input|
  {
    if |input| == 0 then
      Success([])
    else if |input| == 1 then
      Failure(InvalidLength)
    else if |input| == 2 then
      DecodeLast2(input[0], input[1])
    else if |input| == 3 then
      DecodeLast3(input[0], input[1], input[2])
    else
      var head :- DecodeQuantum(input[0], input[1], input[2], input[3]);
      var tail :- Decode(input[4..]);
      Success(head + tail)
  }

  /** The alphabet has no `.`, so an encoded segment never contains the
      separator of the token format. */
  lemma NoSeparator(data: seq<byte>)
    ensures '.' !in Encode(data)
  {
  }

  /** A byte outside the alphabet anywhere in the input (`+`, `/`,
      whitespace, `.`, and under this strict decoder also `=`) makes decoding
      fail. */
  lemma {:induction false} DecodeRejectsForeign(input: seq<byte>, i: nat)
    requires i < |input| && !IsSymbol(input[i] as char)
    ensures Decode(input).Failure?
    decreases |input|
  {
    if |input| >= 4 && i >= 4 && DecodeQuantum(input[0], input[1], input[2], input[3]).Success? {
      DecodeRejectsForeign(input[4..], i - 4);
    }
  }

  /** The bytes of the symbols of three bytes decode to those three bytes. */
  lemma QuantumRoundTrip(x: byte, y: byte, z: byte)
    ensures Utf8.Encode(EncodeQuantum(x, y, z)) ==
            [SymbolByte(x >> 2), SymbolByte(((x & 3) << 4) | (y >> 4)),
             SymbolByte(((y & 15) << 2) | (z >> 6)), SymbolByte(z & 63)]
    ensures DecodeQuantum(SymbolByte(x >> 2), SymbolByte(((x & 3) << 4) | (y >> 4)),
                          SymbolByte(((y & 15) << 2) | (z >> 6)), SymbolByte(z & 63)) == Success([x, y, z])
  {
    var s := EncodeQuantum(x, y, z);
    EncodeAscii(s);
    SymbolRoundTrip(x >> 2);
    SymbolRoundTrip(((x & 3) << 4) | (y >> 4));
    SymbolRoundTrip(((y & 15) << 2) | (z >> 6));
    SymbolRoundTrip(z & 63);
  }

  /** The UTF-8 bytes of symbols are their ASCII codes. */
  lemma SymbolBytes2(p: byte, q: byte)
    requires p < 64 && q < 64
    ensures Utf8.Encode([Symbol(p), Symbol(q)]) == [SymbolByte(p), SymbolByte(q)]
  {
    EncodeAscii([Symbol(p), Symbol(q)]);
  }

  lemma SymbolBytes3(p: byte, q: byte, r: byte)
    requires p < 64 && q < 64 && r < 64
    ensures Utf8.Encode([Symbol(p), Symbol(q), Symbol(r)]) == [SymbolByte(p), SymbolByte(q), SymbolByte(r)]
  {
    EncodeAscii([Symbol(p), Symbol(q), Symbol(r)]);
  }

  /** One trailing byte: two symbols, the second with four zero bits. */
  lemma OneByteDecode(x: byte)
    ensures DecodeLast2(SymbolByte(x >> 2), SymbolByte((x & 3) << 4)) == Success([x])
  {
    SymbolRoundTrip(x >> 2);
    SymbolRoundTrip((x & 3) << 4);
  }

  /** Two trailing bytes: three symbols, the third with two zero bits. */
  lemma TwoBytesDecode(x: byte, y: byte)
    ensures DecodeLast3(SymbolByte(x >> 2), SymbolByte(((x & 3) << 4) | (y >> 4)), SymbolByte((y & 15) << 2))
            == Success([x, y])
  {
    SymbolRoundTrip(x >> 2);
    SymbolRoundTrip(((x & 3) << 4) | (y >> 4));
    SymbolRoundTrip((y & 15) << 2);
  }

  lemma OneByteRoundTrip(x: byte)
    ensures Decode(Utf8.Encode(EncodeLast1(x))) == Success([x])
  {
    SymbolBytes2(x >> 2, (x & 3) << 4);
    OneByteDecode(x);
  }

  lemma TwoBytesRoundTrip(x: byte, y: byte)
    ensures Decode(Utf8.Encode(EncodeLast2(x, y))) == Success([x, y])
  {
    SymbolBytes3(x >> 2, ((x & 3) << 4) | (y >> 4), (y & 15) << 2);
    TwoBytesDecode(x, y);
  }

  /** Decoding a full group followed by more input. */
  lemma DecodeGroup(group: seq<byte>, tail: seq<byte>, head: seq<byte>, rest: seq<byte>)
    requires |group| == 4 && DecodeQuantum(group[0], group[1], group[2], group[3]) == Success(head)
    requires Decode(tail) == Success(rest)
    ensures Decode(group + tail) == Success(head + rest)
  {
    var input := group + tail;
    assert input[..4] == group && input[4..] == tail;
  }

  /** The bytes of the encoding of a full group followed by more data. */
  lemma EncodeGroup(data: seq<byte>)
    requires |data| >= 3
    ensures Utf8.Encode(Encode(data)) == Utf8.Encode(EncodeQuantum(data[0], data[1], data[2])) + Utf8.Encode(Encode(data[3..]))
  {
    EncodeAppend(EncodeQuantum(data[0], data[1], data[2]), Encode(data[3..]));
  }

  /** Decoding the bytes of an encoding gives back the encoded bytes. */
  lemma {:induction false} DecodeEncode(data: seq<byte>)
    ensures Decode(Utf8.Encode(Encode(data))) == Success(data)
    decreases |data|
  {
    if |data| == 1 {
      assert data == [data[0]];
      OneByteRoundTrip(data[0]);
    } else if |data| == 2 {
      assert data == [data[0], data[1]];
      TwoBytesRoundTrip(data[0], data[1]);
    } else if |data| >= 3 {
      var x, y, z := data[0], data[1], data[2];
      EncodeGroup(data);
      QuantumRoundTrip(x, y, z);
      DecodeEncode(data[3..]);
      DecodeGroup(Utf8.Encode(EncodeQuantum(x, y, z)), Utf8.Encode(Encode(data[3..])), [x, y, z], data[3..]);
      assert data == [x, y, z] + data[3..];
    }
  }
}
