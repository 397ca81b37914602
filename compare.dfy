/** `secure_compare`: equality of two byte strings that, once their lengths
    agree, reads every byte pair instead of stopping at the first mismatch. */
module Compare {
  import opened Utf8

  /** The bitwise OR of the XORs of corresponding bytes, folded from the left. */
  function XorAccumulate(a: seq<byte>, b: seq<byte>): byte
    requires |a| == |b|
    decreases |a|
  {
    if a == [] then 0 else XorAccumulate(a[..|a| - 1], b[..|b| - 1]) | (a[|a| - 1] ^ b[|b| - 1])
  }

  /** The accumulator is zero exactly when the two strings are equal. */
  lemma {:induction false} XorAccumulateZero(a: seq<byte>, b: seq<byte>)
    requires |a| == |b|
    ensures XorAccumulate(a, b) == 0 <==> a == b
    decreases |a|
  {
    if a != [] {
      var n := |a| - 1;
      XorAccumulateZero(a[..n], b[..n]);
      var acc, x, y := XorAccumulate(a[..n], b[..n]), a[n], b[n];
      assert (acc | (x ^ y) == 0) <==> acc == 0 && x == y;
      assert a == a[..n] + [x] && b == b[..n] + [y];
      if a == b {
        assert a[..n] == b[..n];
      }
    }
  }

  /** What `secure_compare` computes: unequal lengths are unequal, otherwise
      the accumulated difference must be zero. */
  function SecureEqual(a: seq<byte>, b: seq<byte>): (r: bool)
    ensures r <==> a == b
  {
    if |a| != |b| then false
    else
      XorAccumulateZero(a, b);
      XorAccumulate(a, b) == 0
  }

  /** The loop of `secure_compare`. `inspected` counts the byte pairs the
      loop reads: all of them when the lengths agree, none otherwise. */
  method SecureCompare(a: seq<byte>, b: seq<byte>) returns (equal: bool, ghost inspected: nat)
    ensures equal == SecureEqual(a, b)
    ensures equal <==> a == b
    ensures inspected == if |a| == |b| then |a| else 0
  {
    inspected := 0;
    if |a| != |b| {
      return false, inspected;
    }
    var res: byte := 0;
    var i := 0;
    while i < |a|
      invariant 0 <= i <= |a|
      invariant res == XorAccumulate(a[..i], b[..i])
      invariant inspected == i
    {
      assert a[..i + 1][..i] == a[..i] && b[..i + 1][..i] == b[..i];
      res := res | (a[i] ^ b[i]);
      i := i + 1;
      inspected := inspected + 1;
    }
    assert a[..i] == a && b[..i] == b;
    equal := res == 0;
  }
}
