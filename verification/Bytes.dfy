// Bytes, fixed-width integers, and their little-endian and big-endian encodings.
module Bytes {

  type byte = x: int | 0 <= x < 0x100
  type u16 = x: int | 0 <= x < 0x1_0000
  type u32 = x: int | 0 <= x < 0x1_0000_0000
  type u64 = x: int | 0 <= x < 0x1_0000_0000_0000_0000

  const ZERO_8: seq<byte> := [0, 0, 0, 0, 0, 0, 0, 0]
  const ZERO_32: seq<byte> := ZERO_8 + ZERO_8 + ZERO_8 + ZERO_8
  const ZERO_64: seq<byte> := ZERO_32 + ZERO_32

  type Bytes32 = s: seq<byte> | |s| == 32 witness ZERO_32
  type Bytes64 = s: seq<byte> | |s| == 64 witness ZERO_64

  function Pow256(n: nat): (p: nat)
    ensures p >= 1
  {
    if n == 0 then 1 else 256 * Pow256(n - 1)
  }

  lemma Pow256Values()
    ensures Pow256(2) == 0x1_0000
    ensures Pow256(4) == 0x1_0000_0000
    ensures Pow256(8) == 0x1_0000_0000_0000_0000
  {
    assert Pow256(4) == 0x1_0000 * Pow256(2);
    assert Pow256(6) == 0x1_0000 * Pow256(4);
    assert Pow256(8) == 0x1_0000 * Pow256(6);
  }

  /** The value of a byte string whose first byte is least significant. */
  function LeValue(s: seq<byte>): (v: nat)
  {
    if s == [] then 0 else s[0] + 256 * LeValue(s[1..])
  }

  /** The low `n` bytes of `v`, least significant first. */
  function LeBytes(v: nat, n: nat): (s: seq<byte>)
    ensures |s| == n
    decreases n
  {
    if n == 0 then [] else [v % 256] + LeBytes(v / 256, n - 1)
  }

  /** The value of a byte string whose first byte is most significant. */
  function BeValue(s: seq<byte>): (v: nat)
  {
    if s == [] then 0 else 256 * BeValue(s[..|s| - 1]) + s[|s| - 1]
  }

  /** The low `n` bytes of `v`, most significant first. */
  function BeBytes(v: nat, n: nat): (s: seq<byte>)
    ensures |s| == n
    decreases n
  {
    if n == 0 then [] else BeBytes(v / 256, n - 1) + [v % 256]
  }

  lemma {:induction false} LeValueBound(s: seq<byte>)
    ensures LeValue(s) < Pow256(|s|)
  {
    if s != [] {
      LeValueBound(s[1..]);
    }
  }

  lemma {:induction false} LeValueOfBytes(v: nat, n: nat)
    requires v < Pow256(n)
    ensures LeValue(LeBytes(v, n)) == v
    decreases n
  {
    if n != 0 {
      LeValueOfBytes(v / 256, n - 1);
      assert LeBytes(v, n)[1..] == LeBytes(v / 256, n - 1);
    }
  }

  lemma AppendsDigit(v: nat, digit: byte)
    ensures (256 * v + digit) / 256 == v && (256 * v + digit) % 256 == digit
  {
  }

  lemma {:induction false} LeBytesOfValue(s: seq<byte>)
    ensures LeBytes(LeValue(s), |s|) == s
  {
    if s != [] {
      var rest, v := s[1..], LeValue(s);
      assert LeBytes(v, |s|) == [v % 256] + LeBytes(v / 256, |s| - 1);
      assert v == s[0] + 256 * LeValue(rest);
      hide LeBytes, LeValue;
      LeBytesOfValue(rest);
      AppendsDigit(LeValue(rest), s[0]);
    }
  }

  lemma {:induction false} BeValueBound(s: seq<byte>)
    ensures BeValue(s) < Pow256(|s|)
  {
    if s != [] {
      BeValueBound(s[..|s| - 1]);
    }
  }

  lemma {:induction false} BeValueOfBytes(v: nat, n: nat)
    requires v < Pow256(n)
    ensures BeValue(BeBytes(v, n)) == v
    decreases n
  {
    if n != 0 {
      BeValueOfBytes(v / 256, n - 1);
      assert BeBytes(v, n)[..n - 1] == BeBytes(v / 256, n - 1);
    }
  }

  lemma {:induction false} BeBytesOfValue(s: seq<byte>)
    ensures BeBytes(BeValue(s), |s|) == s
  {
    if s != [] {
      var init, v := s[..|s| - 1], BeValue(s);
      assert BeBytes(v, |s|) == BeBytes(v / 256, |s| - 1) + [v % 256];
      assert v == 256 * BeValue(init) + s[|s| - 1];
      hide BeBytes, BeValue;
      BeBytesOfValue(init);
      AppendsDigit(BeValue(init), s[|s| - 1]);
    }
  }

  /** Reading a byte string backwards swaps the two byte orders. */
  lemma {:induction false} BeValueIsReversedLeValue(s: seq<byte>, r: seq<byte>)
    requires |r| == |s|
    requires forall k :: 0 <= k < |s| ==> r[k] == s[|s| - 1 - k]
    ensures LeValue(r) == BeValue(s)
  {
    if s != [] {
      BeValueIsReversedLeValue(s[..|s| - 1], r[1..]);
    }
  }

  // ----- Byte by byte -----

  lemma Scales(a: nat, b: nat, p: nat)
    requires a <= b
    ensures p * a <= p * b
  {
  }

  lemma QuotientAndRemainder(n: nat, q: nat, k: nat, r: nat)
    requires n == q * k + r && r < q
    ensures n / q == k && n % q == r
  {
    var k', r' := n / q, n % q;
    assert n == q * k' + r' && r' < q;
    if k < k' {
      Scales(k + 1, k', q);
    } else if k' < k {
      Scales(k' + 1, k, q);
    }
  }

  lemma DividesTwice(v: nat, p: nat)
    requires p > 0
    ensures v / 256 / p == v / (256 * p)
  {
    var q := v / 256;
    var b := q % p;
    assert q == p * (q / p) + b;
    assert v == 256 * p * (q / p) + (256 * b + v % 256);
    QuotientAndRemainder(v, 256 * p, q / p, 256 * b + v % 256);
  }

  /** Byte `i` of an encoded number, counted from the least significant. */
  lemma {:induction false} LeByteAt(v: nat, n: nat, i: nat)
    requires i < n
    ensures LeBytes(v, n)[i] == v / Pow256(i) % 256
    decreases n
  {
    if i > 0 {
      LeByteAt(v / 256, n - 1, i - 1);
      DividesTwice(v, Pow256(i - 1));
    }
  }

  lemma {:induction false} BeByteAt(v: nat, n: nat, i: nat)
    requires i < n
    ensures BeBytes(v, n)[n - 1 - i] == v / Pow256(i) % 256
    decreases n
  {
    if i > 0 {
      BeByteAt(v / 256, n - 1, i - 1);
      DividesTwice(v, Pow256(i - 1));
    }
  }
}
