// Conversion of an uncompressed Ed25519 point to its RFC 8032 encoding.
module Compression {
  import opened Wrappers
  import opened Bytes

  datatype CompressionError = InvalidPointHeader(header: byte) | FieldOverflow

  function Pow2(n: nat): (p: nat)
    ensures p >= 1
  {
    if n == 0 then 1 else 2 * Pow2(n - 1)
  }

  /** The field prime of Ed25519, 2^255 - 19. */
  function FieldPrime(): int {
    Pow2(255) - 19
  }

  /** The coordinates of a `04 || X || Y` point, both big-endian. */
  function PointX(raw: seq<byte>): nat
    requires |raw| == 65
  {
    BeValue(raw[1..33])
  }

  function PointY(raw: seq<byte>): nat
    requires |raw| == 65
  {
    BeValue(raw[33..65])
  }

  // ----- Decoding as in section 5.1.3 of RFC 8032: the sign bit, then y -----

  function SignBit(encoded: Bytes32): int {
    LeValue(encoded) / Pow2(255)
  }

  function DecodedY(encoded: Bytes32): int {
    LeValue(encoded) % Pow2(255)
  }

  // ----- Powers -----

  lemma {:induction false} Pow256IsPow2(n: nat)
    ensures Pow256(n) == Pow2(8 * n)
  {
    if n > 0 {
      Pow256IsPow2(n - 1);
      Pow2Adds(8 * (n - 1));
    }
  }

  lemma {:induction false} Pow2Adds(n: nat)
    ensures Pow2(n + 8) == 256 * Pow2(n)
  {
    assert Pow2(n + 4) == 16 * Pow2(n) by {
      assert Pow2(n + 2) == 4 * Pow2(n);
      assert Pow2(n + 4) == 4 * Pow2(n + 2);
    }
    assert Pow2(n + 6) == 4 * Pow2(n + 4);
    assert Pow2(n + 8) == 4 * Pow2(n + 6);
  }

  lemma TopBit()
    ensures Pow2(255) == 128 * Pow256(31)
  {
    Pow256IsPow2(31);
    assert Pow2(250) == 4 * Pow2(248);
    assert Pow2(252) == 4 * Pow2(250);
    assert Pow2(254) == 4 * Pow2(252);
  }

  // ----- The bytewise comparison with the field prime -----

  lemma {:induction false} LeValueSplits(s: seq<byte>, k: nat)
    requires k <= |s|
    ensures LeValue(s) == LeValue(s[..k]) + Pow256(k) * LeValue(s[k..])
  {
    if k == 0 {
      assert s[0..] == s && s[..0] == [];
    } else {
      hide LeValue, Pow256;
      LeValueSplits(s[1..], k - 1);
      LeValueSteps(s);
      LeValueSteps(s[..k]);
      Pow256Steps(k - 1);
      assert s[1..][..k - 1] == s[..k][1..] && s[1..][k - 1..] == s[k..];
      Distributes(LeValue(s[1..][..k - 1]), Pow256(k - 1), LeValue(s[k..]));
    }
  }

  lemma Distributes(a: nat, p: nat, b: nat)
    ensures 256 * (a + p * b) == 256 * a + 256 * p * b
  {
  }

  predicate AllOnes(s: seq<byte>) {
    forall i :: 0 <= i < |s| ==> s[i] == 0xFF
  }

  /** A string of 0xFF bytes has the largest value of its length, and only it has. */
  lemma {:induction false} OnesAreLargest(s: seq<byte>)
    ensures AllOnes(s) <==> LeValue(s) == Pow256(|s|) - 1
  {
    if s != [] {
      OnesAreLargest(s[1..]);
      LeValueBound(s[1..]);
      assert AllOnes(s) <==> s[0] == 0xFF && AllOnes(s[1..]) by {
        assert forall i :: 0 < i < |s| ==> s[i] == s[1..][i - 1];
      }
    }
  }

  /** Little-endian value of 32 bytes in terms of the three parts that the code looks at. */
  lemma {:induction false} ThreeParts(c: seq<byte>)
    requires |c| == 32
    ensures LeValue(c) == c[0] + 256 * LeValue(c[1..31]) + Pow256(31) * c[31]
    ensures LeValue(c[1..31]) < Pow256(30) && Pow256(31) == 256 * Pow256(30)
  {
    hide Pow256, LeValue;
    LeValueSplits(c, 31);
    LeValueSteps(c[..31]);
    LeValueSteps(c[31..]);
    Pow256Steps(30);
    assert c[..31][1..] == c[1..31];
    LeValueBound(c[1..31]);
  }

  lemma {:induction false} LeValueSteps(s: seq<byte>)
    requires s != []
    ensures LeValue(s) == s[0] + 256 * LeValue(s[1..])
    ensures |s| == 1 ==> LeValue(s) == s[0]
  {
  }

  lemma {:induction false} Pow256Steps(n: nat)
    ensures Pow256(n + 1) == 256 * Pow256(n)
  {
  }

  /** The byte tests that lead to FieldOverflow, as one condition. */
  predicate Overflows(c: seq<byte>)
    requires |c| == 32
  {
    c[31] >= 0x80 || (c[31] == 0x7F && AllOnes(c[1..31]) && c[0] >= 0xED)
  }

  /** They hold exactly when the value is not a canonical field element. */
  lemma {:induction false} OverflowsExactly(c: seq<byte>)
    requires |c| == 32
    ensures Overflows(c) <==> LeValue(c) >= FieldPrime()
  {
    hide Pow2, LeValue;
    ThreeParts(c);
    TopBit();
    OnesAreLargest(c[1..31]);
    var p30, mid := Pow256(30), LeValue(c[1..31]);
    OverflowArithmetic(c[0], mid, c[31], p30);
  }

  lemma OverflowArithmetic(low: byte, mid: nat, top: byte, p30: nat)
    requires mid < p30
    ensures (top >= 0x80 || (top == 0x7F && mid == p30 - 1 && low >= 0xED))
            <==> low + 256 * mid + 256 * p30 * top >= 128 * (256 * p30) - 19
  {
    var p31 := 256 * p30;
    if top >= 0x80 {
      Scales(0x80, top, p31);
    } else if top < 0x7F {
      Scales(top, 0x7E, p31);
    }
  }

  /** Compresses a point, with the loops and byte tests of the source. It succeeds exactly on a
      header of 4 and a Y below the field prime, and then reading the result back gives Y and
      the parity of X. */
  method CompressEd25519Point(raw: seq<byte>) returns (r: Result<Bytes32, CompressionError>)
    requires |raw| == 65
    ensures r.Ok? <==> raw[0] == 4 && PointY(raw) < FieldPrime()
    ensures raw[0] != 4 <==> r == Err(InvalidPointHeader(raw[0]))
    ensures r == Err(FieldOverflow) <==> raw[0] == 4 && PointY(raw) >= FieldPrime()
    ensures r.Ok? ==> LeValue(r.value) == PointY(raw) + Pow2(255) * (PointX(raw) % 2)
    ensures r.Ok? ==> DecodedY(r.value) == PointY(raw) && SignBit(r.value) == PointX(raw) % 2
  {
    hide Pow2, LeValue, Pow256;
    if raw[0] != 0x04 {
      return Err(InvalidPointHeader(raw[0]));
    }
    var xBytes, yBytes := raw[1..33], raw[33..65];
    var compressed := new byte[32](_ => 0);
    for i := 0 to 32
      invariant forall k :: 0 <= k < i ==> compressed[k] == yBytes[31 - k]
    {
      compressed[i] := yBytes[31 - i];
    }
    ghost var c := compressed[..];
    assert LeValue(c) == PointY(raw) && PointX(raw) % 2 == xBytes[31] % 2 by {
      BeValueIsReversedLeValue(yBytes, c);
    }
    OverflowsExactly(c);
    hide BeValue, PointX, PointY, FieldPrime, DecodedY, SignBit;
    if compressed[31] >= 0x80 {
      return Err(FieldOverflow);
    }
    if compressed[31] == 0x7F {
      var overflow := OnesBelowTop(compressed);
      if overflow && compressed[0] >= 0xED {
        return Err(FieldOverflow);
      }
    }
    var xIsOdd := xBytes[31] % 2 != 0;
    if xIsOdd {
      compressed[31] := compressed[31] + 0x80;
    }
    SignBitPacks(c, compressed[..], xIsOdd);
    return Ok(compressed[..]);
  }

  /** The downward scan over bytes 30 to 1. */
  method OnesBelowTop(compressed: array<byte>) returns (overflow: bool)
    requires compressed.Length == 32
    ensures overflow == AllOnes(compressed[1..31])
  {
    overflow := true;
    var b := 30;
    while b >= 1
      invariant 1 <= b <= 30
      invariant overflow && forall k :: b < k <= 30 ==> compressed[k] == 0xFF
    {
      if compressed[b] != 0xFF {
        assert compressed[1..31][b - 1] != 0xFF;
        return false;
      }
      if b == 1 { break; }
      b := b - 1;
    }
  }

  lemma {:induction false} SignBitPacks(c: seq<byte>, packed: seq<byte>, odd: bool)
    requires |c| == |packed| == 32
    requires c[31] < 0x80 && packed == c[31 := c[31] + (if odd then 0x80 else 0)]
    requires LeValue(c) < FieldPrime()
    ensures LeValue(packed) == LeValue(c) + Pow2(255) * (if odd then 1 else 0)
    ensures DecodedY(packed) == LeValue(c)
    ensures SignBit(packed) == if odd then 1 else 0
  {
    hide Pow2, LeValue, Pow256;
    ThreeParts(c);
    ThreeParts(packed);
    TopBit();
    assert packed[1..31] == c[1..31];
    QuotientAndRemainder(LeValue(packed), Pow2(255), if odd then 1 else 0, LeValue(c));
  }
}
