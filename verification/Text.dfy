// The two standard-library text checks that decoding performs: UTF-8 validity, as in the
// Unicode Standard's table of well-formed byte sequences, and "trims to nothing".
module Text {
  import opened Bytes

  predicate IsAscii(s: seq<byte>) {
    forall i :: 0 <= i < |s| ==> s[i] < 0x80
  }

  predicate IsContinuation(b: byte) {
    0x80 <= b <= 0xBF
  }

  /** The length of the well-formed UTF-8 character that `s` starts with, or 0. */
  function LeadingCharLength(s: seq<byte>): (n: nat)
    ensures n <= |s|
  {
    if s == [] then 0
    else if s[0] < 0x80 then 1
    else if 0xC2 <= s[0] <= 0xDF then
      if |s| >= 2 && IsContinuation(s[1]) then 2 else 0
    else if 0xE0 <= s[0] <= 0xEF then
      if |s| >= 3 && IsContinuation(s[1]) && IsContinuation(s[2])
         && (s[0] == 0xE0 ==> s[1] >= 0xA0)
         && (s[0] == 0xED ==> s[1] <= 0x9F)
      then 3 else 0
    else if 0xF0 <= s[0] <= 0xF4 then
      if |s| >= 4 && IsContinuation(s[1]) && IsContinuation(s[2]) && IsContinuation(s[3])
         && (s[0] == 0xF0 ==> s[1] >= 0x90)
         && (s[0] == 0xF4 ==> s[1] <= 0x8F)
      then 4 else 0
    else 0
  }

  predicate IsUtf8(s: seq<byte>) {
    s == [] || (LeadingCharLength(s) > 0 && IsUtf8(s[LeadingCharLength(s)..]))
  }

  /** The length of the White_Space character that `s` starts with, or 0. */
  function LeadingSpaceLength(s: seq<byte>): (n: nat)
    ensures n <= |s|
  {
    if s == [] then 0
    else if 0x09 <= s[0] <= 0x0D || s[0] == 0x20 then 1
    else if |s| >= 2 && s[0] == 0xC2 && (s[1] == 0x85 || s[1] == 0xA0) then 2
    else if |s| < 3 then 0
    else if s[0] == 0xE1 && s[1] == 0x9A && s[2] == 0x80 then 3
    else if s[0] == 0xE2 && s[1] == 0x80
            && (0x80 <= s[2] <= 0x8A || s[2] == 0xA8 || s[2] == 0xA9 || s[2] == 0xAF) then 3
    else if s[0] == 0xE2 && s[1] == 0x81 && s[2] == 0x9F then 3
    else if s[0] == 0xE3 && s[1] == 0x80 && s[2] == 0x80 then 3
    else 0
  }

  /** A UTF-8 string is blank when every character in it is White_Space. */
  predicate IsBlank(s: seq<byte>) {
    s == [] || (LeadingSpaceLength(s) > 0 && IsBlank(s[LeadingSpaceLength(s)..]))
  }

  // ----- Both checks, in terms of characters -----

  /** The Unicode scalar values: code points other than surrogates. */
  type Scalar = c: int | 0 <= c < 0xD800 || 0xE000 <= c < 0x11_0000

  /** The UTF-8 form of a character: 1 to 4 bytes, by the size of its value. */
  function Utf8Of(c: Scalar): (s: seq<byte>)
    ensures 1 <= |s| <= 4
  {
    if c < 0x80 then [c]
    else if c < 0x800 then [0xC0 + c / 64, 0x80 + c % 64]
    else if c < 0x1_0000 then [0xE0 + c / 4096, 0x80 + c / 64 % 64, 0x80 + c % 64]
    else [0xF0 + c / 262144, 0x80 + c / 4096 % 64, 0x80 + c / 64 % 64, 0x80 + c % 64]
  }

  function EncodeText(cs: seq<Scalar>): seq<byte> {
    if cs == [] then [] else Utf8Of(cs[0]) + EncodeText(cs[1..])
  }

  /** The characters with the Unicode property White_Space. */
  predicate IsWhiteSpace(c: Scalar) {
    || 0x09 <= c <= 0x0D || c == 0x20 || c == 0x85 || c == 0xA0 || c == 0x1680
    || 0x2000 <= c <= 0x200A || c == 0x2028 || c == 0x2029 || c == 0x202F || c == 0x205F || c == 0x3000
  }

  predicate AllWhiteSpace(cs: seq<Scalar>) {
    forall i :: 0 <= i < |cs| ==> IsWhiteSpace(cs[i])
  }

  lemma CharIsLeading(c: Scalar, rest: seq<byte>)
    ensures LeadingCharLength(Utf8Of(c) + rest) == |Utf8Of(c)|
  {
    var u, s := Utf8Of(c), Utf8Of(c) + rest;
    assert s[0] == u[0] && (|u| > 1 ==> s[1] == u[1]) && (|u| > 2 ==> s[2] == u[2])
           && (|u| > 3 ==> s[3] == u[3]);
  }

  lemma SpaceIsLeading(c: Scalar, rest: seq<byte>)
    requires IsWhiteSpace(c)
    ensures LeadingSpaceLength(Utf8Of(c) + rest) == |Utf8Of(c)|
  {
    var u, s := Utf8Of(c), Utf8Of(c) + rest;
    assert s[0] == u[0] && (|u| > 1 ==> s[1] == u[1]) && (|u| > 2 ==> s[2] == u[2]);
  }

  /** A value made of four six-bit groups, and its groups. */
  lemma Sextets(w: nat, x: nat, y: nat, z: nat)
    requires x < 64 && y < 64 && z < 64
    ensures var c := w * 262144 + x * 4096 + y * 64 + z;
            && c / 262144 == w && c / 4096 == w * 64 + x && c / 64 == w * 4096 + x * 64 + y
            && c / 4096 % 64 == x && c / 64 % 64 == y && c % 64 == z
  {
  }

  lemma LeadingIsChar(s: seq<byte>) returns (c: Scalar)
    requires LeadingCharLength(s) > 0
    ensures s[..LeadingCharLength(s)] == Utf8Of(c)
  {
    var n := LeadingCharLength(s);
    if n == 1 {
      c := s[0];
    } else if n == 2 {
      c := (s[0] as int - 0xC0) * 64 + (s[1] as int - 0x80);
    } else if n == 3 {
      c := ThreeByteChar(s);
    } else {
      c := FourByteChar(s);
    }
  }

  lemma ThreeByteChar(s: seq<byte>) returns (c: Scalar)
    requires LeadingCharLength(s) == 3
    ensures s[..3] == Utf8Of(c)
  {
    var x, y, z := s[0] as int - 0xE0, s[1] as int - 0x80, s[2] as int - 0x80;
    Sextets(0, x, y, z);
    c := x * 4096 + y * 64 + z;
  }

  lemma FourByteChar(s: seq<byte>) returns (c: Scalar)
    requires LeadingCharLength(s) == 4
    ensures s[..4] == Utf8Of(c)
  {
    var w, x, y, z := s[0] as int - 0xF0, s[1] as int - 0x80, s[2] as int - 0x80, s[3] as int - 0x80;
    Sextets(w, x, y, z);
    c := w * 262144 + x * 4096 + y * 64 + z;
  }

  lemma LeadingIsSpace(s: seq<byte>) returns (c: Scalar)
    requires LeadingSpaceLength(s) > 0
    ensures IsWhiteSpace(c) && s[..LeadingSpaceLength(s)] == Utf8Of(c)
  {
    var n := LeadingSpaceLength(s);
    c := if n == 1 then s[0]
         else if n == 2 then (s[0] as int - 0xC0) * 64 + (s[1] as int - 0x80)
         else (s[0] as int - 0xE0) * 4096 + (s[1] as int - 0x80) * 64 + (s[2] as int - 0x80);
  }

  /** The UTF-8 check accepts exactly the encodings of sequences of scalar values. */
  lemma {:induction false} Utf8Exactly(s: seq<byte>)
    ensures IsUtf8(s) <==> exists cs :: s == EncodeText(cs)
  {
    if IsUtf8(s) {
      var cs := DecodeText(s);
    }
    forall cs | s == EncodeText(cs)
      ensures IsUtf8(s)
    {
      EncodedIsUtf8(cs);
    }
  }

  lemma {:induction false} DecodeText(s: seq<byte>) returns (cs: seq<Scalar>)
    requires IsUtf8(s)
    ensures s == EncodeText(cs)
  {
    hide LeadingCharLength, Utf8Of;
    cs := [];
    if s != [] {
      var c := LeadingIsChar(s);
      var n := LeadingCharLength(s);
      var rest := DecodeText(s[n..]);
      cs := [c] + rest;
      assert cs[1..] == rest && s == s[..n] + s[n..];
    }
  }

  lemma {:induction false} EncodedIsUtf8(cs: seq<Scalar>)
    ensures IsUtf8(EncodeText(cs))
  {
    hide LeadingCharLength, Utf8Of;
    if cs != [] {
      var c, rest := cs[0], EncodeText(cs[1..]);
      EncodedIsUtf8(cs[1..]);
      CharIsLeading(c, rest);
      assert (Utf8Of(c) + rest)[|Utf8Of(c)|..] == rest;
    }
  }

  /** Text is blank exactly when it encodes white space only. */
  lemma {:induction false} BlankExactly(s: seq<byte>)
    ensures IsBlank(s) <==> exists cs :: AllWhiteSpace(cs) && s == EncodeText(cs)
  {
    if IsBlank(s) {
      var cs := DecodeBlank(s);
    }
    forall cs | AllWhiteSpace(cs) && s == EncodeText(cs)
      ensures IsBlank(s)
    {
      EncodedIsBlank(cs);
    }
  }

  lemma {:induction false} DecodeBlank(s: seq<byte>) returns (cs: seq<Scalar>)
    requires IsBlank(s)
    ensures AllWhiteSpace(cs) && s == EncodeText(cs)
  {
    hide LeadingSpaceLength, IsWhiteSpace, Utf8Of;
    cs := [];
    if s != [] {
      var c := LeadingIsSpace(s);
      var n := LeadingSpaceLength(s);
      var rest := DecodeBlank(s[n..]);
      cs := [c] + rest;
      assert cs[1..] == rest && s == s[..n] + s[n..];
    }
  }

  lemma {:induction false} EncodedIsBlank(cs: seq<Scalar>)
    requires AllWhiteSpace(cs)
    ensures IsBlank(EncodeText(cs))
  {
    hide LeadingSpaceLength, Utf8Of;
    if cs != [] {
      var c, rest := cs[0], EncodeText(cs[1..]);
      EncodedIsBlank(cs[1..]);
      SpaceIsLeading(c, rest);
      assert (Utf8Of(c) + rest)[|Utf8Of(c)|..] == rest;
    }
  }

  lemma {:induction false} AsciiIsUtf8(s: seq<byte>)
    requires IsAscii(s)
    ensures IsUtf8(s)
  {
    if s != [] {
      AsciiIsUtf8(s[1..]);
    }
  }

  /** The bytes of a string constant written in the source as ASCII text. */
  function AsBytes(s: string): (b: seq<byte>)
    ensures |b| == |s|
    ensures forall i :: 0 <= i < |s| ==> b[i] == (if s[i] as int < 0x80 then s[i] as int else 0x3F)
    ensures IsAscii(b)
  {
    seq(|s|, i requires 0 <= i < |s| => if s[i] as int < 0x80 then s[i] as int else 0x3F)
  }
}
