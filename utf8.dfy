/** The UTF-8 encoding of Rust's `str::as_bytes` (RFC 3629), used for key text,
    for the signing input handed to the signer and for the segments handed to
    the base64 decoder. */
module Utf8 {

  type byte = bv8

  /** A character below U+0080 is encoded as the single byte of the same value. */
  predicate IsAscii(c: char) {
    c as int < 0x80
  }

  /** The one to four bytes that encode one Unicode scalar value. */
  function EncodeChar(c: char): (r: seq<byte>)
    ensures 1 <= |r| <= 4
    ensures |r| == 1 <==> IsAscii(c)
    ensures IsAscii(c) ==> r == [c as byte]
  {
    var n := c as int;
    if n < 0x80 then
      [c as byte]
    else if n < 0x800 then
      [(0xC0 + n / 0x40) as byte, (0x80 + n % 0x40) as byte]
    else if n < 0x10000 then
      [(0xE0 + n / 0x1000) as byte, (0x80 + n / 0x40 % 0x40) as byte, (0x80 + n % 0x40) as byte]
    else
      [(0xF0 + n / 0x40000) as byte, (0x80 + n / 0x1000 % 0x40) as byte,
       (0x80 + n / 0x40 % 0x40) as byte, (0x80 + n % 0x40) as byte]
  }

  /** `s.as_bytes()`: the concatenation of the encodings of its characters. */
  function Encode(s: string): (r: seq<byte>)
    ensures |r| >= |s|
    decreases |s|
  {
    if s == [] then [] else EncodeChar(s[0]) + Encode(s[1..])
  }

  /** Encoding distributes over concatenation. */
  lemma {:induction false} EncodeAppend(s: string, t: string)
    ensures Encode(s + t) == Encode(s) + Encode(t)
    decreases |s|
  {
    if s == [] {
      assert s + t == t;
    } else {
      assert (s + t)[0] == s[0];
      assert (s + t)[1..] == s[1..] + t;
      EncodeAppend(s[1..], t);
    }
  }

  /** An ASCII string is encoded byte for byte, with its length unchanged. */
  lemma {:induction false} EncodeAscii(s: string)
    requires forall i :: 0 <= i < |s| ==> IsAscii(s[i])
    ensures |Encode(s)| == |s|
    ensures forall i :: 0 <= i < |s| ==> Encode(s)[i] == EncodeChar(s[i])[0]
    decreases |s|
  {
    if s != [] {
      EncodeAscii(s[1..]);
      assert forall i :: 1 <= i < |s| ==> Encode(s)[i] == Encode(s[1..])[i - 1];
    }
  }

  /** The byte of an ASCII character stands for that character. */
  lemma AsciiByte(c: char)
    requires IsAscii(c)
    ensures (c as byte) as char == c
  {
    ByteOfCode(c as int);
    assert c as byte == (c as int) as byte;
  }

  /** A code below 0x80 survives the conversion to a byte. */
  lemma ByteOfCode(n: int)
    requires 0 <= n < 0x80
    ensures (n as byte) as int == n
  {
    if n < 0x40 {
      if n < 0x20 {
        if n < 0x10 { } else { }
      } else {
        if n < 0x30 { } else { }
      }
    } else {
      if n < 0x60 {
        if n < 0x50 { } else { }
      } else {
        if n < 0x70 { } else { }
      }
    }
  }

  /** An ASCII character of a string appears as its own code among the string's bytes. */
  lemma {:induction false} AsciiPosition(s: string, i: nat) returns (j: nat)
    requires i < |s| && IsAscii(s[i])
    ensures j < |Encode(s)| && Encode(s)[j] == s[i] as byte
    decreases |s|
  {
    if i == 0 {
      j := 0;
    } else {
      var k := AsciiPosition(s[1..], i - 1);
      j := |EncodeChar(s[0])| + k;
    }
  }
}
