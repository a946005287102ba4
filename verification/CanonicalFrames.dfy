// The decoder as the source runs it: one cursor over the input, no field table, and every
// accessor scanning the field section again. Each loop is proved against the functions of
// module Canonical, which name the whole field list at once.
module CanonicalFrames {
  import opened Wrappers
  import opened Bytes
  import opened Canonical

  /** A validated view over one frame: a header and a borrowed input, but no fields. */
  datatype CanonicalFrame = CanonicalFrame(
    typeId: u16, version: u16, fieldCount: u16, fieldsStart: nat, input: seq<byte>)
  {
    /** The view is one that DecodeCanonicalFrame returned. */
    predicate Valid() {
      var decoded := DecodeFrame(input);
      && decoded.Ok?
      && decoded.value.typeId == typeId
      && decoded.value.version == version
      && |decoded.value.fields| == fieldCount
      && fieldsStart == HEADER_LENGTH
    }

    /** The frame this view stands for. */
    function Content(): (f: Frame)
      requires Valid()
      ensures ScanFields(input, fieldsStart, fieldCount, None) == Ok((f.fields, |input|))
    {
      ScannedFieldCount(input, HEADER_LENGTH, ReadU16(input, 8).value, None);
      DecodeFrame(input).value
    }

    /** The re-scan finds the field that the field list has, and returns nothing only when the
        field is absent: on a validated view no read fails. */
    method FindField(fieldId: u16) returns (r: Option<seq<byte>>)
      requires Valid()
      ensures r == Lookup(Content().fields, fieldId)
    {
      hide ScanFields, DecodeFrame, LeValue;
      ghost var fields := Content().fields;
      ghost var rest, previous := fields, None;
      var offset := fieldsStart;
      for i := 0 to fieldCount
        invariant |rest| == fieldCount - i
        invariant ScanFields(input, offset, |rest|, previous) == Ok((rest, |input|))
        invariant Lookup(fields, fieldId) == Lookup(rest, fieldId)
      {
        NextField(input, offset, rest, previous);
        var id, length, bytes;
        id, offset := ReadU16At(input, offset);
        length, offset := ReadU32At(input, offset);
        bytes, offset := TakeAt(input, offset, length.value);
        if id.value == fieldId {
          return Some(bytes.value);
        }
        rest, previous := rest[1..], Some(id.value);
      }
      return None;
    }

    method RequireOnlyFields(allowed: seq<u16>) returns (r: Result<(), CanonicalError>)
      requires Valid()
      ensures r == RequireOnly(Content().fields, allowed)
    {
      hide ScanFields, DecodeFrame, LeValue;
      ghost var fields := Content().fields;
      ghost var rest, previous := fields, None;
      var offset := fieldsStart;
      for i := 0 to fieldCount
        invariant |rest| == fieldCount - i
        invariant ScanFields(input, offset, |rest|, previous) == Ok((rest, |input|))
        invariant RequireOnly(fields, allowed) == RequireOnly(rest, allowed)
      {
        NextField(input, offset, rest, previous);
        var id, length, bytes;
        id, offset := ReadU16At(input, offset);
        length, offset := ReadU32At(input, offset);
        bytes, offset := TakeAt(input, offset, length.value);
        if id.value !in allowed {
          return Err(UnexpectedField(id.value));
        }
        rest, previous := rest[1..], Some(id.value);
      }
      return Ok(());
    }
  }

  /** Where a scan is going to find `rest`, the next reads succeed and find its first field. */
  lemma {:induction false} NextField(input: seq<byte>, offset: nat, rest: seq<Field>, previous: Option<u16>)
    requires rest != []
    requires ScanFields(input, offset, |rest|, previous) == Ok((rest, |input|))
    ensures var f := rest[0];
            && ReadU16(input, offset) == Ok(f.id)
            && ReadU32(input, offset + 2) == Ok(|f.bytes|)
            && Take(input, offset + 6, |f.bytes|) == Ok(f.bytes)
            && ScanFields(input, offset + 6 + |f.bytes|, |rest| - 1, Some(f.id))
               == Ok((rest[1..], |input|))
  {
    var id := ReadU16(input, offset).value;
    var length := ReadU32(input, offset + 2).value;
    var f := Field(id, Take(input, offset + 6, length).value);
    var tail := ScanFields(input, offset + 6 + length, |rest| - 1, Some(id)).value;
    assert rest == [f] + tail.0;
  }

  lemma {:induction false} ScannedFieldCount(
    input: seq<byte>, offset: nat, count: nat, previous: Option<u16>)
    ensures var r := ScanFields(input, offset, count, previous);
            r.Ok? ==> |r.value.0| == count
    decreases count
  {
    if count != 0 && ScanFields(input, offset, count, previous).Ok? {
      var id := ReadU16(input, offset).value;
      var length := ReadU32(input, offset + 2).value;
      ScannedFieldCount(input, offset + 6 + length, count - 1, Some(id));
    }
  }

  method TakeAt(input: seq<byte>, offset: nat, length: nat)
    returns (r: Result<seq<byte>, CanonicalError>, next: nat)
    ensures r == Take(input, offset, length)
    ensures next == if r.Ok? then offset + length else offset
  {
    var end := offset + length;
    if end > |input| {
      return Err(Truncated), offset;
    }
    return Ok(input[offset..end]), end;
  }

  method ReadU16At(input: seq<byte>, offset: nat)
    returns (r: Result<u16, CanonicalError>, next: nat)
    ensures r == ReadU16(input, offset)
    ensures next == if r.Ok? then offset + 2 else offset
  {
    var bytes;
    bytes, next := TakeAt(input, offset, 2);
    if bytes.Err? { return Err(bytes.error), next; }
    LeValueBound(bytes.value);
    Pow256Values();
    return Ok(LeValue(bytes.value)), next;
  }

  method ReadU32At(input: seq<byte>, offset: nat)
    returns (r: Result<u32, CanonicalError>, next: nat)
    ensures r == ReadU32(input, offset)
    ensures next == if r.Ok? then offset + 4 else offset
  {
    var bytes;
    bytes, next := TakeAt(input, offset, 4);
    if bytes.Err? { return Err(bytes.error), next; }
    LeValueBound(bytes.value);
    Pow256Values();
    return Ok(LeValue(bytes.value)), next;
  }

  /** The offset after the fields that a scan returns. */
  function EndOf(r: Result<(seq<Field>, nat), CanonicalError>): Result<nat, CanonicalError> {
    match r
    case Err(e) => Err(e)
    case Ok((_, end)) => Ok(end)
  }

  /** The one-pass loop accepts and rejects what DecodeFrame does, with the same errors. */
  method DecodeCanonicalFrame(input: seq<byte>) returns (r: Result<CanonicalFrame, CanonicalError>)
    ensures match DecodeFrame(input)
            case Err(e) => r == Err(e)
            case Ok(frame) => r.Ok? && r.value.input == input && r.value.Valid()
                              && r.value.Content() == frame
  {
    var offset := 0;
    var magic, typeId, version, count;
    magic, offset := TakeAt(input, offset, |PROTOCOL_MAGIC|);
    if magic.Err? { return Err(magic.error); }
    if magic.value != PROTOCOL_MAGIC { return Err(InvalidMagic); }
    typeId, offset := ReadU16At(input, offset);
    if typeId.Err? { return Err(typeId.error); }
    version, offset := ReadU16At(input, offset);
    if version.Err? { return Err(version.error); }
    count, offset := ReadU16At(input, offset);
    if count.Err? { return Err(count.error); }
    var fieldsStart := offset;

    var end := CheckFields(input, fieldsStart, count.value);
    if end.Err? { return Err(end.error); }
    if end.value != |input| { return Err(TrailingBytes); }
    ScannedFieldCount(input, fieldsStart, count.value, None);
    return Ok(CanonicalFrame(typeId.value, version.value, count.value, fieldsStart, input));
  }

  /** The loop over the declared fields: their order and extent, and the offset after them. */
  method CheckFields(input: seq<byte>, fieldsStart: nat, count: u16)
    returns (r: Result<nat, CanonicalError>)
    ensures r == EndOf(ScanFields(input, fieldsStart, count, None))
  {
    var offset := fieldsStart;
    var previous: Option<u16> := None;
    for i := 0 to count
      invariant EndOf(ScanFields(input, fieldsStart, count, None))
                == EndOf(ScanFields(input, offset, count - i, previous))
    {
      var fieldId, fieldLength, bytes;
      fieldId, offset := ReadU16At(input, offset);
      if fieldId.Err? { return Err(fieldId.error); }
      if previous.Some? && fieldId.value <= previous.value {
        return Err(NonCanonicalFieldOrder);
      }
      fieldLength, offset := ReadU32At(input, offset);
      if fieldLength.Err? { return Err(fieldLength.error); }
      bytes, offset := TakeAt(input, offset, fieldLength.value);
      if bytes.Err? { return Err(bytes.error); }
      previous := Some(fieldId.value);
    }
    return Ok(offset);
  }
}
