// The canonical field-framed wire format: the strict decoder, the encoder it inverts, and
// the typed accessors over a decoded frame.
module Canonical {
  import opened Wrappers
  import opened Bytes

  const PROTOCOL_MAGIC: seq<byte> := [0x53, 0x4E, 0x52, 0x45]
  const HEADER_LENGTH: nat := 10

  datatype CanonicalError =
    | Truncated
    | InvalidMagic
    | NonCanonicalFieldOrder
    | TrailingBytes
    | MissingField(fieldId: u16)
    | UnexpectedField(fieldId: u16)
    | InvalidFieldLength(fieldId: u16, expected: nat, actual: nat)
    | UnexpectedTypeId(expectedId: u16, actualId: u16)
    | UnexpectedVersion(expectedId: u16, actualId: u16)

  datatype Field = Field(id: u16, bytes: seq<byte>)

  /** What a frame says: its header and its fields, in wire order. */
  datatype Frame = Frame(typeId: u16, version: u16, fields: seq<Field>)

  // ----- Decoding -----

  function Take(input: seq<byte>, offset: nat, length: nat): Result<seq<byte>, CanonicalError> {
    if offset + length <= |input| then Ok(input[offset..offset + length]) else Err(Truncated)
  }

  function ReadU16(input: seq<byte>, offset: nat): Result<u16, CanonicalError> {
    var bytes :- Take(input, offset, 2);
    LeValueBound(bytes);
    Pow256Values();
    Ok(LeValue(bytes))
  }

  function ReadU32(input: seq<byte>, offset: nat): Result<u32, CanonicalError> {
    var bytes :- Take(input, offset, 4);
    LeValueBound(bytes);
    Pow256Values();
    Ok(LeValue(bytes))
  }

  /** Reads `count` fields from `offset` on; returns them and the offset after the last one. */
  function ScanFields(input: seq<byte>, offset: nat, count: nat, previous: Option<u16>)
    : Result<(seq<Field>, nat), CanonicalError>
    decreases count
  {
    if count == 0 then Ok(([], offset))
    else
      var id :- ReadU16(input, offset);
      if previous.Some? && id <= previous.value then Err(NonCanonicalFieldOrder)
      else
        var length :- ReadU32(input, offset + 2);
        var bytes :- Take(input, offset + 6, length);
        var (rest, end) :- ScanFields(input, offset + 6 + length, count - 1, Some(id));
        Ok(([Field(id, bytes)] + rest, end))
  }

  function DecodeFrame(input: seq<byte>): Result<Frame, CanonicalError> {
    var magic :- Take(input, 0, 4);
    if magic != PROTOCOL_MAGIC then Err(InvalidMagic)
    else
      var typeId :- ReadU16(input, 4);
      var version :- ReadU16(input, 6);
      var count :- ReadU16(input, 8);
      var (fields, end) :- ScanFields(input, HEADER_LENGTH, count, None);
      if end != |input| then Err(TrailingBytes) else Ok(Frame(typeId, version, fields))
  }

  // ----- Encoding -----

  function EncodeField(f: Field): (s: seq<byte>)
    ensures |s| == 6 + |f.bytes|
  {
    LeBytes(f.id, 2) + LeBytes(|f.bytes|, 4) + f.bytes
  }

  function EncodeFields(fields: seq<Field>): seq<byte> {
    if fields == [] then [] else EncodeField(fields[0]) + EncodeFields(fields[1..])
  }

  function EncodeHeader(typeId: u16, version: u16, count: nat): (s: seq<byte>)
    ensures |s| == HEADER_LENGTH
  {
    PROTOCOL_MAGIC + LeBytes(typeId, 2) + LeBytes(version, 2) + LeBytes(count, 2)
  }

  function EncodeFrame(f: Frame): seq<byte> {
    EncodeHeader(f.typeId, f.version, |f.fields|) + EncodeFields(f.fields)
  }

  predicate StrictlyIncreasing(fields: seq<Field>) {
    forall i, j :: 0 <= i < j < |fields| ==> fields[i].id < fields[j].id
  }

  predicate FitsLengthPrefix(fields: seq<Field>) {
    forall i :: 0 <= i < |fields| ==> |fields[i].bytes| < 0x1_0000_0000
  }

  predicate IsCanonical(f: Frame) {
    |f.fields| < 0x1_0000 && StrictlyIncreasing(f.fields) && FitsLengthPrefix(f.fields)
  }

  function EncodedLength(fields: seq<Field>): nat {
    if fields == [] then 0 else 6 + |fields[0].bytes| + EncodedLength(fields[1..])
  }

  // ----- The decoder accepts exactly the image of the encoder -----

  predicate Follows(fields: seq<Field>, previous: Option<u16>) {
    StrictlyIncreasing(fields)
    && (previous.Some? && fields != [] ==> previous.value < fields[0].id)
  }

  lemma {:induction false} EncodeFieldsLength(fields: seq<Field>)
    ensures |EncodeFields(fields)| == EncodedLength(fields)
  {
    if fields != [] {
      EncodeFieldsLength(fields[1..]);
    }
  }

  /** A field that lies at `offset` is read back as it was written. */
  lemma FieldReadsBack(input: seq<byte>, offset: nat, f: Field)
    requires |f.bytes| < 0x1_0000_0000
    requires offset + 6 + |f.bytes| <= |input|
    ensures input[offset..offset + 6 + |f.bytes|] == EncodeField(f)
            <==> (ReadU16(input, offset) == Ok(f.id)
                  && ReadU32(input, offset + 2) == Ok(|f.bytes|)
                  && Take(input, offset + 6, |f.bytes|) == Ok(f.bytes))
  {
    var idBytes, lengthBytes := input[offset..offset + 2], input[offset + 2..offset + 6];
    var body := input[offset + 6..offset + 6 + |f.bytes|];
    assert input[offset..offset + 6 + |f.bytes|] == idBytes + lengthBytes + body;
    var e := EncodeField(f);
    assert e[..2] == LeBytes(f.id, 2) && e[2..6] == LeBytes(|f.bytes|, 4) && e[6..] == f.bytes;
    Pow256Values();
    LeValueOfBytes(f.id, 2);
    LeValueOfBytes(|f.bytes|, 4);
    LeBytesOfValue(idBytes);
    LeBytesOfValue(lengthBytes);
    if input[offset..offset + 6 + |f.bytes|] == e {
      assert idBytes == e[..2] && lengthBytes == e[2..6] && body == e[6..];
    }
  }

  lemma {:induction false} ScanAcceptsOnlyEncodings(
    input: seq<byte>, offset: nat, count: nat, previous: Option<u16>)
    requires offset <= |input|
    requires ScanFields(input, offset, count, previous).Ok?
    ensures var (fields, end) := ScanFields(input, offset, count, previous).value;
            && |fields| == count
            && offset <= end <= |input|
            && Follows(fields, previous) && FitsLengthPrefix(fields)
            && input[offset..end] == EncodeFields(fields)
    decreases count
  {
    hide ScanFields, EncodeField, StrictlyIncreasing;
    if count == 0 {
      ScansNothing(input, offset, previous);
    } else {
      var f, rest, end := ScanUnfolds(input, offset, count, previous);
      var next := offset + 6 + |f.bytes|;
      ScanAcceptsOnlyEncodings(input, next, count - 1, Some(f.id));
      FrontedIncreases(f, rest, previous);
      FrontedEncodes(f, rest);
      JoinsAt(input, offset, next, end);
    }
  }

  lemma {:induction false} ScansNothing(input: seq<byte>, offset: nat, previous: Option<u16>)
    ensures ScanFields(input, offset, 0, previous) == Ok(([], offset))
    ensures Follows([], previous) && EncodeFields([]) == []
  {
  }

  lemma JoinsAt(input: seq<byte>, i: nat, j: nat, k: nat)
    requires i <= j <= k <= |input|
    ensures input[i..k] == input[i..j] + input[j..k]
  {
  }

  /** A successful scan of at least one field is that field followed by a successful scan. */
  lemma ScanUnfolds(input: seq<byte>, offset: nat, count: nat, previous: Option<u16>)
    returns (f: Field, rest: seq<Field>, end: nat)
    requires count > 0 && offset <= |input|
    requires ScanFields(input, offset, count, previous).Ok?
    ensures |f.bytes| < 0x1_0000_0000
    ensures offset + 6 + |f.bytes| <= |input|
    ensures input[offset..offset + 6 + |f.bytes|] == EncodeField(f)
    ensures previous.Some? ==> previous.value < f.id
    ensures ScanFields(input, offset + 6 + |f.bytes|, count - 1, Some(f.id)) == Ok((rest, end))
    ensures ScanFields(input, offset, count, previous) == Ok(([f] + rest, end))
  {
    hide EncodeField, LeValue, Pow256;
    var id := ReadU16(input, offset).value;
    var length := ReadU32(input, offset + 2).value;
    f := Field(id, Take(input, offset + 6, length).value);
    var tail := ScanFields(input, offset + 6 + length, count - 1, Some(id)).value;
    rest, end := tail.0, tail.1;
    FieldReadsBack(input, offset, f);
  }

  lemma {:induction false} FrontedEncodes(f: Field, rest: seq<Field>)
    ensures EncodeFields([f] + rest) == EncodeField(f) + EncodeFields(rest)
  {
    assert ([f] + rest)[1..] == rest;
  }

  lemma FrontedIncreases(f: Field, rest: seq<Field>, previous: Option<u16>)
    requires Follows(rest, Some(f.id))
    requires previous.Some? ==> previous.value < f.id
    requires |f.bytes| < 0x1_0000_0000 && FitsLengthPrefix(rest)
    ensures Follows([f] + rest, previous) && FitsLengthPrefix([f] + rest)
  {
    var all := [f] + rest;
    forall i, j | 0 <= i < j < |all|
      ensures all[i].id < all[j].id
    {
      if i == 0 {
        assert rest[0].id <= rest[j - 1].id;
      } else {
        assert all[i] == rest[i - 1] && all[j] == rest[j - 1];
      }
    }
  }

  lemma SplitsAt(input: seq<byte>, i: nat, k: nat, a: seq<byte>, b: seq<byte>)
    requires i <= k <= |input|
    requires input[i..k] == a + b
    ensures i + |a| <= k
    ensures input[i..i + |a|] == a
    ensures input[i + |a|..k] == b
  {
    var whole := input[i..k];
    assert |whole| == |a| + |b|;
    assert whole[..|a|] == a && whole[|a|..] == b;
    assert input[i..i + |a|] == whole[..|a|];
    assert input[i + |a|..k] == whole[|a|..];
  }

  lemma {:induction false} ScanStep(
    input: seq<byte>, offset: nat, f: Field, rest: seq<Field>, end: nat, previous: Option<u16>)
    requires |f.bytes| < 0x1_0000_0000
    requires offset + 6 + |f.bytes| <= |input|
    requires input[offset..offset + 6 + |f.bytes|] == EncodeField(f)
    requires previous.Some? ==> previous.value < f.id
    requires ScanFields(input, offset + 6 + |f.bytes|, |rest|, Some(f.id)) == Ok((rest, end))
    ensures ScanFields(input, offset, |rest| + 1, previous) == Ok(([f] + rest, end))
  {
    hide EncodeField, LeValue, Pow256;
    FieldReadsBack(input, offset, f);
  }

  lemma {:induction false} ScanAcceptsEveryEncoding(
    input: seq<byte>, offset: nat, fields: seq<Field>, end: nat, previous: Option<u16>)
    requires offset <= end <= |input|
    requires input[offset..end] == EncodeFields(fields)
    requires Follows(fields, previous) && FitsLengthPrefix(fields)
    ensures ScanFields(input, offset, |fields|, previous) == Ok((fields, end))
    decreases |fields|
  {
    hide ScanFields, EncodeField;
    if fields == [] {
      ScansNothing(input, offset, previous);
    } else {
      var f, rest := fields[0], fields[1..];
      var next := offset + 6 + |f.bytes|;
      assert fields == [f] + rest;
      assert |EncodeFields(fields)| == |EncodeField(f)| + |EncodeFields(rest)|;
      SplitsAt(input, offset, end, EncodeField(f), EncodeFields(rest));
      ScanAcceptsEveryEncoding(input, next, rest, end, Some(f.id));
      ScanStep(input, offset, f, rest, end, previous);
    }
  }

  lemma HeaderReadsBack(input: seq<byte>, typeId: u16, version: u16, count: u16)
    requires HEADER_LENGTH <= |input|
    ensures input[..HEADER_LENGTH] == EncodeHeader(typeId, version, count)
            <==> (Take(input, 0, 4) == Ok(PROTOCOL_MAGIC)
                  && ReadU16(input, 4) == Ok(typeId)
                  && ReadU16(input, 6) == Ok(version)
                  && ReadU16(input, 8) == Ok(count))
  {
    var h := EncodeHeader(typeId, version, count);
    assert input[..10] == input[0..4] + input[4..6] + input[6..8] + input[8..10];
    assert h[..4] == PROTOCOL_MAGIC && h[4..6] == LeBytes(typeId, 2)
           && h[6..8] == LeBytes(version, 2) && h[8..10] == LeBytes(count, 2);
    if input[..10] == h {
      assert input[0..4] == h[..4] && input[4..6] == h[4..6]
             && input[6..8] == h[6..8] && input[8..10] == h[8..10];
    }
    Pow256Values();
    LeValueOfBytes(typeId, 2);
    LeValueOfBytes(version, 2);
    LeValueOfBytes(count, 2);
    LeBytesOfValue(input[4..6]);
    LeBytesOfValue(input[6..8]);
    LeBytesOfValue(input[8..10]);
  }

  /** The strict decode is itself the canonicality check: it accepts an input exactly when that
      input is the encoding of a canonical frame, and then returns that frame. */
  lemma DecodeFrameExactly(input: seq<byte>, f: Frame)
    ensures DecodeFrame(input) == Ok(f) <==> IsCanonical(f) && input == EncodeFrame(f)
  {
    if DecodeFrame(input) == Ok(f) {
      var count := ReadU16(input, 8).value;
      ScanAcceptsOnlyEncodings(input, HEADER_LENGTH, count, None);
      HeaderReadsBack(input, f.typeId, f.version, count);
      assert input == input[..HEADER_LENGTH] + input[HEADER_LENGTH..];
    }
    if IsCanonical(f) && input == EncodeFrame(f) {
      assert input[..HEADER_LENGTH] == EncodeHeader(f.typeId, f.version, |f.fields|);
      assert input[HEADER_LENGTH..] == EncodeFields(f.fields);
      HeaderReadsBack(input, f.typeId, f.version, |f.fields|);
      ScanAcceptsEveryEncoding(input, HEADER_LENGTH, f.fields, |input|, None);
    }
  }

  /** An encoding stands for one field list only, and no byte is lost or invented. */
  lemma EncodingIsUniqueAndConservesBytes(f: Frame, g: Frame)
    requires IsCanonical(f) && IsCanonical(g)
    ensures EncodeFrame(f) == EncodeFrame(g) ==> f == g
    ensures |EncodeFrame(f)| == HEADER_LENGTH + EncodedLength(f.fields)
  {
    DecodeFrameExactly(EncodeFrame(f), f);
    DecodeFrameExactly(EncodeFrame(f), g);
    EncodeFieldsLength(f.fields);
  }

  // ----- What is refused, and why -----

  lemma {:induction false} ScanRunsOut(input: seq<byte>, offset: nat, fields: seq<Field>, previous: Option<u16>)
    requires offset <= |input| < offset + |EncodeFields(fields)|
    requires input[offset..] == EncodeFields(fields)[..|input| - offset]
    requires Follows(fields, previous) && FitsLengthPrefix(fields)
    ensures ScanFields(input, offset, |fields|, previous) == Err(Truncated)
    decreases |fields|
  {
    hide EncodeField, StrictlyIncreasing, FitsLengthPrefix;
    var f, rest := fields[0], fields[1..];
    var next := offset + 6 + |f.bytes|;
    FirstFollows(fields, previous);
    if |input| < next {
      FieldRunsOut(input, offset, f, EncodeFields(rest));
    } else {
      assert EncodeFields(fields) == EncodeField(f) + EncodeFields(rest);
      assert input[offset..next] == input[offset..][..6 + |f.bytes|] == EncodeField(f);
      assert input[next..] == input[offset..][6 + |f.bytes|..];
      FieldReadsBack(input, offset, f);
      ScanRunsOut(input, next, rest, Some(f.id));
    }
  }

  lemma FirstFollows(fields: seq<Field>, previous: Option<u16>)
    requires fields != [] && Follows(fields, previous) && FitsLengthPrefix(fields)
    ensures previous.Some? ==> previous.value < fields[0].id
    ensures Follows(fields[1..], Some(fields[0].id)) && FitsLengthPrefix(fields[1..])
    ensures |fields[0].bytes| < 0x1_0000_0000
  {
  }

  /** An input that ends within a field reads as truncated, not as anything else. */
  lemma FieldRunsOut(input: seq<byte>, offset: nat, f: Field, rest: seq<byte>)
    requires |f.bytes| < 0x1_0000_0000
    requires offset <= |input| < offset + 6 + |f.bytes|
    requires input[offset..] == (EncodeField(f) + rest)[..|input| - offset]
    ensures ReadU16(input, offset) == Err(Truncated)
            || (ReadU16(input, offset) == Ok(f.id)
                && (ReadU32(input, offset + 2) == Err(Truncated)
                    || (ReadU32(input, offset + 2) == Ok(|f.bytes|)
                        && Take(input, offset + 6, |f.bytes|) == Err(Truncated))))
  {
    var n, e := |input| - offset, EncodeField(f);
    var idBytes, lengthBytes := LeBytes(f.id, 2), LeBytes(|f.bytes|, 4);
    Pow256Values();
    LeValueOfBytes(f.id, 2);
    LeValueOfBytes(|f.bytes|, 4);
    hide LeBytes, LeValue, Pow256;
    assert e == idBytes + lengthBytes + f.bytes;
    if n >= 2 {
      assert input[offset..offset + 2] == input[offset..][..2] == idBytes;
    }
    if n >= 6 {
      assert input[offset + 2..offset + 6] == input[offset..][2..6] == lengthBytes;
    }
  }

  /** Every input cut short anywhere is refused as truncated: no encoding is the beginning of another. */
  lemma PrefixIsTruncated(f: Frame, n: nat)
    requires IsCanonical(f) && n < |EncodeFrame(f)|
    ensures DecodeFrame(EncodeFrame(f)[..n]) == Err(Truncated)
  {
    var whole, input := EncodeFrame(f), EncodeFrame(f)[..n];
    HeaderReadsBack(whole, f.typeId, f.version, |f.fields|);
    assert whole[..HEADER_LENGTH] == EncodeHeader(f.typeId, f.version, |f.fields|);
    ReadsAgree(whole, n);
    if n >= HEADER_LENGTH {
      assert input[HEADER_LENGTH..] == EncodeFields(f.fields)[..n - HEADER_LENGTH];
      ScanRunsOut(input, HEADER_LENGTH, f.fields, None);
    }
  }

  lemma ReadsAgree(whole: seq<byte>, n: nat)
    requires HEADER_LENGTH <= |whole| && n <= |whole|
    ensures var input := whole[..n];
            && Take(input, 0, 4) == (if n >= 4 then Take(whole, 0, 4) else Err(Truncated))
            && ReadU16(input, 4) == (if n >= 6 then ReadU16(whole, 4) else Err(Truncated))
            && ReadU16(input, 6) == (if n >= 8 then ReadU16(whole, 6) else Err(Truncated))
            && ReadU16(input, 8) == (if n >= 10 then ReadU16(whole, 8) else Err(Truncated))
  {
    var input := whole[..n];
    assert n >= 4 ==> input[0..4] == whole[0..4];
    assert n >= 6 ==> input[4..6] == whole[4..6];
    assert n >= 8 ==> input[6..8] == whole[6..8];
    assert n >= 10 ==> input[8..10] == whole[8..10];
  }

  /** An encoding with anything after it is refused for the trailing bytes. */
  lemma ExtensionIsTrailing(f: Frame, extra: seq<byte>)
    requires IsCanonical(f) && extra != []
    ensures DecodeFrame(EncodeFrame(f) + extra) == Err(TrailingBytes)
  {
    var input, end := EncodeFrame(f) + extra, |EncodeFrame(f)|;
    assert input[..HEADER_LENGTH] == EncodeHeader(f.typeId, f.version, |f.fields|);
    assert input[HEADER_LENGTH..end] == EncodeFields(f.fields);
    HeaderReadsBack(input, f.typeId, f.version, |f.fields|);
    ScanAcceptsEveryEncoding(input, HEADER_LENGTH, f.fields, end, None);
  }

  lemma {:induction false} ScanRefusesDisorder(
    input: seq<byte>, offset: nat, fields: seq<Field>, end: nat, previous: Option<u16>)
    requires offset <= end <= |input|
    requires input[offset..end] == EncodeFields(fields)
    requires !Follows(fields, previous) && FitsLengthPrefix(fields)
    ensures ScanFields(input, offset, |fields|, previous) == Err(NonCanonicalFieldOrder)
    decreases |fields|
  {
    hide EncodeField, StrictlyIncreasing;
    if fields == [] {
      ScansNothing(input, offset, previous);
    } else {
      var f, rest := fields[0], fields[1..];
      var next := offset + 6 + |f.bytes|;
      assert fields == [f] + rest;
      SplitsAt(input, offset, end, EncodeField(f), EncodeFields(rest));
      FieldReadsBack(input, offset, f);
      if previous.None? || previous.value < f.id {
        if Follows(rest, Some(f.id)) {
          FrontedIncreases(f, rest, previous);
        }
        ScanRefusesDisorder(input, next, rest, end, Some(f.id));
      }
    }
  }

  /** Fields that are repeated or out of order are refused as such, however well they are encoded. */
  lemma DisorderIsRefused(f: Frame)
    requires |f.fields| < 0x1_0000 && FitsLengthPrefix(f.fields) && !StrictlyIncreasing(f.fields)
    ensures DecodeFrame(EncodeFrame(f)) == Err(NonCanonicalFieldOrder)
  {
    var input := EncodeFrame(f);
    assert input[..HEADER_LENGTH] == EncodeHeader(f.typeId, f.version, |f.fields|);
    assert input[HEADER_LENGTH..] == EncodeFields(f.fields);
    HeaderReadsBack(input, f.typeId, f.version, |f.fields|);
    ScanRefusesDisorder(input, HEADER_LENGTH, f.fields, |input|, None);
  }

  /** Anything that does not begin with the four magic bytes is refused as such. */
  lemma WrongMagicIsRefused(input: seq<byte>)
    ensures DecodeFrame(input) == Err(InvalidMagic)
            <==> |input| >= 4 && input[..4] != [0x53, 0x4E, 0x52, 0x45]
  {
    hide ScanFields;
    if |input| >= 10 && DecodeFrame(input).Err? {
      ScanNeverBlamesMagic(input, HEADER_LENGTH, ReadU16(input, 8).value, None);
    }
  }

  lemma {:induction false} ScanNeverBlamesMagic(input: seq<byte>, offset: nat, count: nat, previous: Option<u16>)
    ensures ScanFields(input, offset, count, previous) != Err(InvalidMagic)
    decreases count
  {
    if count > 0 && ReadU16(input, offset).Ok? && ReadU32(input, offset + 2).Ok? {
      ScanNeverBlamesMagic(input, offset + 6 + ReadU32(input, offset + 2).value, count - 1,
                           Some(ReadU16(input, offset).value));
    }
  }

  // ----- Accessors -----

  function Lookup(fields: seq<Field>, id: u16): Option<seq<byte>> {
    if fields == [] then None
    else if fields[0].id == id then Some(fields[0].bytes)
    else Lookup(fields[1..], id)
  }

  /** `()` if every field id is allowed, otherwise the first one that is not. */
  function RequireOnly(fields: seq<Field>, allowed: seq<u16>): Result<(), CanonicalError> {
    if fields == [] then Ok(())
    else if fields[0].id !in allowed then Err(UnexpectedField(fields[0].id))
    else RequireOnly(fields[1..], allowed)
  }

  function RequireType(f: Frame, expected: u16): Result<(), CanonicalError> {
    if f.typeId != expected then Err(UnexpectedTypeId(expected, f.typeId)) else Ok(())
  }

  function RequireVersion(f: Frame, expected: u16): Result<(), CanonicalError> {
    if f.version != expected then Err(UnexpectedVersion(expected, f.version)) else Ok(())
  }

  function RequiredField(f: Frame, id: u16): Result<seq<byte>, CanonicalError> {
    match Lookup(f.fields, id)
    case Some(bytes) => Ok(bytes)
    case None => Err(MissingField(id))
  }

  function RequiredBytes(f: Frame, id: u16, length: nat): (r: Result<seq<byte>, CanonicalError>)
    ensures r.Ok? ==> |r.value| == length
  {
    var bytes :- RequiredField(f, id);
    if |bytes| != length then Err(InvalidFieldLength(id, length, |bytes|)) else Ok(bytes)
  }

  function RequiredU16(f: Frame, id: u16): Result<u16, CanonicalError> {
    var bytes :- RequiredBytes(f, id, 2);
    LeValueBound(bytes);
    Pow256Values();
    Ok(LeValue(bytes))
  }

  function RequiredU32(f: Frame, id: u16): Result<u32, CanonicalError> {
    var bytes :- RequiredBytes(f, id, 4);
    LeValueBound(bytes);
    Pow256Values();
    Ok(LeValue(bytes))
  }

  function RequiredU64(f: Frame, id: u16): Result<u64, CanonicalError> {
    var bytes :- RequiredBytes(f, id, 8);
    LeValueBound(bytes);
    Pow256Values();
    Ok(LeValue(bytes))
  }

  /** The frame opening of every schema decoder: one complete frame of the expected type. */
  function DecodeTyped(input: seq<byte>, typeId: u16, version: u16): Result<Frame, CanonicalError> {
    var frame :- DecodeFrame(input);
    var _ :- RequireType(frame, typeId);
    var _ :- RequireVersion(frame, version);
    Ok(frame)
  }

  // ----- What the accessors say about the field list -----

  lemma {:induction false} LookupFindsIndex(fields: seq<Field>, i: nat)
    requires StrictlyIncreasing(fields)
    requires i < |fields|
    ensures Lookup(fields, fields[i].id) == Some(fields[i].bytes)
  {
    if i != 0 {
      LookupFindsIndex(fields[1..], i - 1);
    }
  }

  lemma {:induction false} LookupOutcome(fields: seq<Field>, id: u16)
    ensures match Lookup(fields, id)
            case None => forall i :: 0 <= i < |fields| ==> fields[i].id != id
            case Some(bytes) => exists i :: 0 <= i < |fields| && fields[i] == Field(id, bytes)
  {
    if fields != [] && fields[0].id != id {
      LookupOutcome(fields[1..], id);
      if Lookup(fields, id).Some? {
        var i :| 0 <= i < |fields| - 1 && fields[1..][i] == Field(id, Lookup(fields, id).value);
        assert fields[i + 1] == Field(id, Lookup(fields, id).value);
      } else {
        forall i | 0 <= i < |fields|
          ensures fields[i].id != id
        {
          assert i > 0 ==> fields[i] == fields[1..][i - 1];
        }
      }
    }
  }

  lemma {:induction false} RequireOnlyOutcome(fields: seq<Field>, allowed: seq<u16>)
    ensures RequireOnly(fields, allowed).Ok?
            <==> forall i :: 0 <= i < |fields| ==> fields[i].id in allowed
  {
    if fields != [] {
      RequireOnlyOutcome(fields[1..], allowed);
      assert forall i :: 0 < i < |fields| ==> fields[i] == fields[1..][i - 1];
    }
  }

  predicate HasIds(fields: seq<Field>, k: nat)
  {
    forall id: u16 :: 1 <= id <= k ==> Lookup(fields, id).Some?
  }

  /** The field list is exactly ids 1 to k, in order. */
  predicate ExactlyIds(fields: seq<Field>, k: nat) {
    |fields| == k
    && forall i :: 0 <= i < k ==> fields[i].id == i + 1
                                  && Lookup(fields, fields[i].id) == Some(fields[i].bytes)
  }

  /** Counting: k fields in strict order that include ids 1 to k are those k and no others. */
  lemma {:induction false} CountedIds(fields: seq<Field>, k: nat)
    requires StrictlyIncreasing(fields)
    requires |fields| == k < 0x1_0000
    requires HasIds(fields, k)
    ensures ExactlyIds(fields, k)
  {
    forall i | 0 <= i < k
      ensures fields[i].id == i + 1
    {
      CountedAt(fields, k, i);
    }
    forall i | 0 <= i < k
      ensures Lookup(fields, fields[i].id) == Some(fields[i].bytes)
    {
      LookupFindsIndex(fields, i);
    }
  }

  lemma {:induction false} CountedAt(fields: seq<Field>, k: nat, i: nat)
    requires StrictlyIncreasing(fields)
    requires i < k == |fields| < 0x1_0000
    requires HasIds(fields, k)
    ensures fields[i].id == i + 1
  {
    // id i + 1 stands no earlier than index i, and no later
    var low := IndexAtLeast(fields, k, i + 1);
    var high := IndexAtMost(fields, k, i + 1);
  }

  /** The index of id `id` is at least `id - 1`, as ids 1 to id - 1 all come before it. */
  lemma {:induction false} IndexAtLeast(fields: seq<Field>, k: nat, id: nat) returns (i: nat)
    requires StrictlyIncreasing(fields)
    requires 1 <= id <= k < 0x1_0000
    requires HasIds(fields, k)
    ensures id - 1 <= i < |fields| && fields[i].id == id
  {
    LookupOutcome(fields, id);
    i :| 0 <= i < |fields| && fields[i].id == id;
    if id > 1 {
      var before := IndexAtLeast(fields, k, id - 1);
      assert before < i;
    }
  }

  /** Likewise at most `|fields| - 1 - (k - id)`, as ids id + 1 to k all come after it. */
  lemma {:induction false} IndexAtMost(fields: seq<Field>, k: nat, id: nat) returns (i: nat)
    requires StrictlyIncreasing(fields)
    requires 1 <= id <= k < 0x1_0000
    requires HasIds(fields, k)
    ensures 0 <= i < |fields| - (k - id) && fields[i].id == id
    decreases k - id
  {
    LookupOutcome(fields, id);
    i :| 0 <= i < |fields| && fields[i].id == id;
    if id < k {
      var after := IndexAtMost(fields, k, id + 1);
      assert i < after;
    }
  }

  /** A strictly increasing list within ids 1 to k that includes them all is exactly them. */
  lemma AllowedIds(fields: seq<Field>, k: nat)
    requires StrictlyIncreasing(fields)
    requires k < 0x1_0000
    requires forall i :: 0 <= i < |fields| ==> 1 <= fields[i].id <= k
    requires HasIds(fields, k)
    ensures ExactlyIds(fields, k)
  {
    if fields != [] {
      IdsGrow(fields, |fields| - 1);
      assert fields[|fields| - 1].id <= k;
    }
    if k > 0 {
      var i := IndexAtLeast(fields, k, k);
    }
    CountedIds(fields, k);
  }

  lemma {:induction false} IdsGrow(fields: seq<Field>, i: nat)
    requires StrictlyIncreasing(fields)
    requires i < |fields|
    ensures fields[0].id + i <= fields[i].id
  {
    if i > 0 {
      IdsGrow(fields, i - 1);
    }
  }
}
