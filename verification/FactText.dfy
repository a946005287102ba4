// The three exact text forms that the display uses, and how each is read back.
module FactText {
  import opened Bytes
  import opened Text
  import opened Types

  // ----- Decimal numbers -----

  function Decimal(v: nat): (s: seq<byte>)
    ensures s != [] && IsAscii(s)
  {
    if v < 10 then [0x30 + v] else Decimal(v / 10) + [0x30 + v % 10]
  }

  function ReadDecimal(s: seq<byte>): int {
    if s == [] then 0 else 10 * ReadDecimal(s[..|s| - 1]) + s[|s| - 1] - 0x30
  }

  function Pow10(n: nat): nat {
    if n == 0 then 1 else 10 * Pow10(n - 1)
  }

  /** Decimal text is exact: it reads back as the number, has digits only, and no leading zero
      unless the number is zero. */
  lemma {:induction false} DecimalReadsBack(v: nat)
    ensures ReadDecimal(Decimal(v)) == v
    ensures forall i :: 0 <= i < |Decimal(v)| ==> 0x30 <= Decimal(v)[i] <= 0x39
    ensures Decimal(v)[0] == 0x30 ==> v == 0 && Decimal(v) == [0x30]
  {
    if v >= 10 {
      DecimalReadsBack(v / 10);
      assert Decimal(v)[..|Decimal(v)| - 1] == Decimal(v / 10);
    }
  }

  lemma {:induction false} DecimalLength(v: nat, n: nat)
    requires v < Pow10(n) && n > 0
    ensures |Decimal(v)| <= n
  {
    if v >= 10 {
      DecimalLength(v / 10, n - 1);
    }
  }

  lemma {:induction false} U64HasAtMost20Digits(v: u64)
    ensures v < Pow10(20)
    ensures |Decimal(v)| <= 20
  {
    hide Pow10;
    Pow10Steps(0);
    Pow10Steps(5);
    Pow10Steps(10);
    Pow10Steps(15);
    DecimalLength(v, 20);
  }

  lemma {:induction false} Pow10Steps(n: nat)
    ensures Pow10(n + 5) == 100_000 * Pow10(n)
    ensures Pow10(0) == 1
  {
    assert Pow10(n + 2) == 100 * Pow10(n);
    assert Pow10(n + 4) == 100 * Pow10(n + 2);
  }

  /** One turn of the digit loop: the last digit comes off the end of the text. */
  lemma {:induction false} LastDigit(text: seq<byte>, num: nat)
    requires num > 0 && text == Decimal(num)
    ensures text[|text| - 1] == 0x30 + num % 10
    ensures text[..|text| - 1] == if num / 10 > 0 then Decimal(num / 10) else []
  {
  }

  // ----- Hexadecimal -----

  function HexChar(n: nat): byte
    requires n < 16
  {
    if n < 10 then 0x30 + n else 0x57 + n
  }

  function HexValue(c: byte): int {
    if c < 0x57 then c - 0x30 else c - 0x57
  }

  function HexText(bytes: seq<byte>): (s: seq<byte>)
    ensures |s| == 2 * |bytes| && IsAscii(s)
  {
    if bytes == [] then []
    else
      var b := bytes[|bytes| - 1];
      HexText(bytes[..|bytes| - 1]) + [HexChar(b / 16), HexChar(b % 16)]
  }

  function ClampByte(n: int): byte {
    if 0 <= n < 0x100 then n else 0
  }

  function ReadHex(s: seq<byte>): seq<byte> {
    if |s| < 2 then []
    else ReadHex(s[..|s| - 2]) + [ClampByte(16 * HexValue(s[|s| - 2]) + HexValue(s[|s| - 1]))]
  }

  lemma HexPairReadsBack(b: byte)
    ensures ClampByte(16 * HexValue(HexChar(b / 16)) + HexValue(HexChar(b % 16))) == b
  {
  }

  lemma {:induction false} HexReadsBack(bytes: seq<byte>)
    ensures ReadHex(HexText(bytes)) == bytes
  {
    hide HexValue, HexChar, ClampByte;
    if bytes != [] {
      var init, s, b := bytes[..|bytes| - 1], HexText(bytes), bytes[|bytes| - 1];
      HexReadsBack(init);
      assert s == HexText(init) + [HexChar(b / 16), HexChar(b % 16)];
      assert s[..|s| - 2] == HexText(init);
      HexPairReadsBack(b);
      assert bytes == init + [b];
    }
  }

  /** Byte by byte: two lower-case digits, high half first. */
  lemma {:induction false} HexTextAt(bytes: seq<byte>, i: nat)
    requires i < |bytes|
    ensures var digits := AsBytes("0123456789abcdef");
            HexText(bytes)[2 * i] == digits[bytes[i] / 16] && HexText(bytes)[2 * i + 1] == digits[bytes[i] % 16]
  {
    hide HexChar;
    if i < |bytes| - 1 {
      HexTextAt(bytes[..|bytes| - 1], i);
    } else {
      HexCharIsDigit(bytes[i] / 16);
      HexCharIsDigit(bytes[i] % 16);
    }
  }

  lemma HexCharIsDigit(n: nat)
    requires n < 16
    ensures HexChar(n) == AsBytes("0123456789abcdef")[n]
  {
  }

  // ----- Digests: the algorithm's label, a colon, then hexadecimal -----

  const COLON: byte := 0x3A

  function DigestText(d: Digest32): (s: seq<byte>)
    ensures |s| == |d.algorithm.Label()| + 65 <= 75 && IsAscii(s)
  {
    d.algorithm.Label() + [COLON] + HexText(d.bytes)
  }

  function As32(s: seq<byte>): Bytes32 {
    if |s| == 32 then s else ZERO_32
  }

  predicate Begins(s: seq<byte>, prefix: seq<byte>) {
    |prefix| <= |s| && s[..|prefix|] == prefix
  }

  function ReadAlgorithm(s: seq<byte>): HashAlgorithmId {
    if Begins(s, AsBytes("sha2-256:")) then Sha2_256
    else if Begins(s, AsBytes("sha3-256:")) then Sha3_256
    else Blake3_256
  }

  function ReadDigest(s: seq<byte>): Digest32 {
    Digest32(ReadAlgorithm(s), As32(ReadHex(After(s, if ReadAlgorithm(s) == Blake3_256 then 11 else 9))))
  }

  function After(s: seq<byte>, start: nat): seq<byte> {
    if start <= |s| then s[start..] else []
  }

  /** The labels of the hash algorithms, before the colon, in full. */
  lemma AlgorithmLabels()
    ensures Sha2_256.Label() + [COLON] == [0x73, 0x68, 0x61, 0x32, 0x2D, 0x32, 0x35, 0x36, 0x3A]
    ensures Sha2_256.Label() + [COLON] == AsBytes("sha2-256:")
    ensures Sha3_256.Label() + [COLON] == [0x73, 0x68, 0x61, 0x33, 0x2D, 0x32, 0x35, 0x36, 0x3A]
    ensures Sha3_256.Label() + [COLON] == AsBytes("sha3-256:")
    ensures Blake3_256.Label() + [COLON]
            == [0x62, 0x6C, 0x61, 0x6B, 0x65, 0x33, 0x2D, 0x32, 0x35, 0x36, 0x3A]
  {
  }

  lemma AlgorithmReadsBack(a: HashAlgorithmId, rest: seq<byte>)
    ensures ReadAlgorithm(a.Label() + [COLON] + rest) == a
    ensures |a.Label()| == if a == Blake3_256 then 10 else 8
  {
    hide HashAlgorithmId.Label;
    AlgorithmLabels();
    var s, two, three := a.Label() + [COLON] + rest, AsBytes("sha2-256:"), AsBytes("sha3-256:");
    assert s[..|a.Label()| + 1] == a.Label() + [COLON];
    assert s[0] == (a.Label() + [COLON])[0] && s[3] == (a.Label() + [COLON])[3];
    assert Begins(s, two) ==> s[0] == two[0] && s[3] == two[3];
    assert Begins(s, three) ==> s[0] == three[0] && s[3] == three[3];
  }

  lemma DigestReadsBack(d: Digest32)
    ensures ReadDigest(DigestText(d)) == d
  {
    hide ReadHex, HexText, ReadAlgorithm, HashAlgorithmId.Label;
    var prefix := d.algorithm.Label() + [COLON];
    AlgorithmReadsBack(d.algorithm, HexText(d.bytes));
    assert (prefix + HexText(d.bytes))[|prefix|..] == HexText(d.bytes);
    HexReadsBack(d.bytes);
  }

  // ----- Labels -----

  function ReadScheme(s: seq<byte>): SignatureSchemeId {
    if s == AsBytes("ed25519") then Ed25519 else Secp256k1
  }

  function ReadMode(s: seq<byte>): AccessMode {
    if s == AsBytes("read") then Read else if s == AsBytes("write") then Write else Consume
  }

  /** The labels of the schemes and modes, in full. */
  lemma LabelTexts()
    ensures Ed25519.Label() == [0x65, 0x64, 0x32, 0x35, 0x35, 0x31, 0x39]
    ensures Secp256k1.Label() == [0x73, 0x65, 0x63, 0x70, 0x32, 0x35, 0x36, 0x6B, 0x31]
    ensures Read.Label() == [0x72, 0x65, 0x61, 0x64]
    ensures Write.Label() == [0x77, 0x72, 0x69, 0x74, 0x65]
    ensures Consume.Label() == [0x63, 0x6F, 0x6E, 0x73, 0x75, 0x6D, 0x65]
  {
  }

  lemma LabelsReadBack(scheme: SignatureSchemeId, mode: AccessMode)
    ensures ReadScheme(scheme.Label()) == scheme
    ensures ReadMode(mode.Label()) == mode
  {
    LabelTexts();
    hide SignatureSchemeId.Label, AccessMode.Label;
    assert AsBytes("ed25519") == Ed25519.Label();
    assert AsBytes("read") == Read.Label() && AsBytes("write") == Write.Label();
  }
}
