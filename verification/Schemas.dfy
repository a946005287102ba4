// What the schema decoders share: opening a frame of a known type whose fields are numbered
// from 1, and the one argument that makes each of them invertible.
module Schemas {
  import opened Wrappers
  import opened Bytes
  import opened Canonical

  const NUMBER_LIMIT: nat := 0xFFFF

  /** One complete frame of the given type and version, with allowed fields only. */
  function OpenSchema(input: seq<byte>, typeId: u16, version: u16, allowed: seq<u16>)
    : Result<Frame, CanonicalError>
  {
    var frame :- DecodeTyped(input, typeId, version);
    var _ :- RequireOnly(frame.fields, allowed);
    Ok(frame)
  }

  /** Fields numbered from 1 with the given contents. */
  function Numbered(bodies: seq<seq<byte>>): (fields: seq<Field>)
    requires |bodies| < NUMBER_LIMIT
    ensures |fields| == |bodies|
    ensures forall i :: 0 <= i < |bodies| ==> fields[i] == Field(i + 1, bodies[i])
  {
    seq(|bodies|, i requires 0 <= i < |bodies| => Field(i + 1, bodies[i]))
  }

  function EncodeSchema(typeId: u16, version: u16, bodies: seq<seq<byte>>): seq<byte>
    requires |bodies| < NUMBER_LIMIT
  {
    EncodeFrame(Frame(typeId, version, Numbered(bodies)))
  }

  predicate Fits(bodies: seq<seq<byte>>) {
    forall i :: 0 <= i < |bodies| ==> |bodies[i]| < 0x1_0000_0000
  }

  /** The fields hold these contents under the ids 1, 2, 3, and so on. */
  predicate Holds(fields: seq<Field>, bodies: seq<seq<byte>>)
    requires |bodies| < NUMBER_LIMIT
  {
    forall i :: 0 <= i < |bodies| ==> Lookup(fields, i + 1) == Some(bodies[i])
  }

  function TotalLength(bodies: seq<seq<byte>>): nat {
    if bodies == [] then 0 else |bodies[0]| + TotalLength(bodies[1..])
  }

  lemma TotalLengthFrom(bodies: seq<seq<byte>>, i: nat)
    requires i < |bodies|
    ensures TotalLength(bodies[i..]) == |bodies[i]| + TotalLength(bodies[i + 1..])
  {
    assert bodies[i..][1..] == bodies[i + 1..];
  }

  lemma NumberedIsCanonical(typeId: u16, version: u16, bodies: seq<seq<byte>>)
    requires |bodies| < NUMBER_LIMIT && Fits(bodies)
    ensures IsCanonical(Frame(typeId, version, Numbered(bodies)))
    ensures Holds(Numbered(bodies), bodies)
  {
    var fields := Numbered(bodies);
    forall i | 0 <= i < |bodies|
      ensures Lookup(fields, i + 1) == Some(bodies[i])
    {
      LookupFindsIndex(fields, i);
    }
  }

  /** An encoded schema opens again, as the frame it encodes. */
  lemma SchemaOpens(typeId: u16, version: u16, allowed: seq<u16>, bodies: seq<seq<byte>>)
    requires |bodies| < NUMBER_LIMIT && Fits(bodies)
    requires forall id: u16 :: 1 <= id <= |bodies| ==> id in allowed
    ensures OpenSchema(EncodeSchema(typeId, version, bodies), typeId, version, allowed)
            == Ok(Frame(typeId, version, Numbered(bodies)))
    ensures Holds(Numbered(bodies), bodies)
  {
    var frame := Frame(typeId, version, Numbered(bodies));
    NumberedIsCanonical(typeId, version, bodies);
    DecodeFrameExactly(EncodeFrame(frame), frame);
    RequireOnlyOutcome(frame.fields, allowed);
  }

  /** A decoded frame with exactly the ids 1 to k is the encoding of their contents. */
  lemma ExactIdsForce(input: seq<byte>, frame: Frame, bodies: seq<seq<byte>>)
    requires |bodies| < NUMBER_LIMIT
    requires DecodeFrame(input) == Ok(frame)
    requires ExactlyIds(frame.fields, |bodies|) && Holds(frame.fields, bodies)
    ensures input == EncodeSchema(frame.typeId, frame.version, bodies)
    ensures Fits(bodies)
  {
    DecodeFrameExactly(input, frame);
    forall i | 0 <= i < |bodies|
      ensures frame.fields[i] == Field(i + 1, bodies[i])
    {
      assert Lookup(frame.fields, frame.fields[i].id) == Some(frame.fields[i].bytes);
    }
    assert frame.fields == Numbered(bodies);
    forall i | 0 <= i < |bodies|
      ensures |bodies[i]| < 0x1_0000_0000
    {
      assert frame.fields[i].bytes == bodies[i];
    }
  }

  /** An input that opens as a schema and holds `bodies`, while no other allowed field is
      present, is the encoding of `bodies`. */
  lemma SchemaForces(input: seq<byte>, typeId: u16, version: u16, allowed: seq<u16>,
                     bodies: seq<seq<byte>>)
    requires |bodies| < NUMBER_LIMIT
    requires OpenSchema(input, typeId, version, allowed).Ok?
    requires var fields := OpenSchema(input, typeId, version, allowed).value.fields;
             Holds(fields, bodies)
             && forall id :: id in allowed ==> 1 <= id <= |bodies| || Lookup(fields, id) == None
    ensures input == EncodeSchema(typeId, version, bodies)
    ensures Fits(bodies)
  {
    var frame := OpenSchema(input, typeId, version, allowed).value;
    DecodeFrameExactly(input, frame);
    RequireOnlyOutcome(frame.fields, allowed);
    forall i | 0 <= i < |frame.fields|
      ensures 1 <= frame.fields[i].id <= |bodies|
    {
      LookupFindsIndex(frame.fields, i);
    }
    HoldsHasIds(frame.fields, bodies);
    AllowedIds(frame.fields, |bodies|);
    ExactIdsForce(input, frame, bodies);
  }

  lemma HoldsHasIds(fields: seq<Field>, bodies: seq<seq<byte>>)
    requires |bodies| < NUMBER_LIMIT
    requires Holds(fields, bodies)
    ensures HasIds(fields, |bodies|)
  {
    forall id: u16 | 1 <= id <= |bodies|
      ensures Lookup(fields, id).Some?
    {
      var i := id - 1;
      assert Lookup(fields, i + 1) == Some(bodies[i]);
    }
  }

  lemma {:induction false} RequiredU16Exactly(f: Frame, id: u16, v: u16)
    ensures RequiredU16(f, id) == Ok(v) <==> Lookup(f.fields, id) == Some(LeBytes(v, 2))
  {
    Pow256Values();
    LeValueOfBytes(v, 2);
    if RequiredU16(f, id).Ok? {
      LeBytesOfValue(Lookup(f.fields, id).value);
    }
  }

  lemma {:induction false} RequiredU32Exactly(f: Frame, id: u16, v: u32)
    ensures RequiredU32(f, id) == Ok(v) <==> Lookup(f.fields, id) == Some(LeBytes(v, 4))
  {
    Pow256Values();
    LeValueOfBytes(v, 4);
    if RequiredU32(f, id).Ok? {
      LeBytesOfValue(Lookup(f.fields, id).value);
    }
  }

  lemma {:induction false} RequiredU64Exactly(f: Frame, id: u16, v: u64)
    ensures RequiredU64(f, id) == Ok(v) <==> Lookup(f.fields, id) == Some(LeBytes(v, 8))
  {
    Pow256Values();
    LeValueOfBytes(v, 8);
    if RequiredU64(f, id).Ok? {
      LeBytesOfValue(Lookup(f.fields, id).value);
    }
  }

  lemma {:induction false} NumberedLength(fields: seq<Field>, bodies: seq<seq<byte>>)
    requires |fields| == |bodies|
    requires forall i :: 0 <= i < |bodies| ==> fields[i].bytes == bodies[i]
    ensures EncodedLength(fields) == 6 * |bodies| + TotalLength(bodies)
  {
    if fields != [] {
      NumberedLength(fields[1..], bodies[1..]);
    }
  }

  lemma {:induction false} SchemaLength(typeId: u16, version: u16, bodies: seq<seq<byte>>)
    requires |bodies| < NUMBER_LIMIT
    ensures |EncodeSchema(typeId, version, bodies)|
            == HEADER_LENGTH + 6 * |bodies| + TotalLength(bodies)
  {
    EncodeFieldsLength(Numbered(bodies));
    NumberedLength(Numbered(bodies), bodies);
  }

  /** Both directions at once: an input opens as a schema holding `bodies` and no other allowed
      field exactly when it is the encoding of `bodies`. */
  lemma SchemaExactly(input: seq<byte>, typeId: u16, version: u16, allowed: seq<u16>,
                      bodies: seq<seq<byte>>)
    requires |bodies| < NUMBER_LIMIT && Fits(bodies)
    requires forall id: u16 :: 1 <= id <= |bodies| ==> id in allowed
    requires 0 !in allowed
    ensures var outer := OpenSchema(input, typeId, version, allowed);
            (outer.Ok? && Holds(outer.value.fields, bodies)
             && NothingBeyond(outer.value.fields, allowed, |bodies|))
            <==> input == EncodeSchema(typeId, version, bodies)
  {
    hide EncodeSchema, OpenSchema;
    SchemaOpens(typeId, version, allowed, bodies);
    var outer := OpenSchema(input, typeId, version, allowed);
    if outer.Ok? && Holds(outer.value.fields, bodies)
       && NothingBeyond(outer.value.fields, allowed, |bodies|) {
      SchemaForces(input, typeId, version, allowed, bodies);
    }
    if input == EncodeSchema(typeId, version, bodies) {
      forall id | id in allowed && id > |bodies|
        ensures Lookup(outer.value.fields, id) == None
      {
        LookupOutcome(outer.value.fields, id);
      }
    }
  }

  predicate NothingBeyond(fields: seq<Field>, allowed: seq<u16>, k: nat) {
    forall id :: id in allowed && id > k ==> Lookup(fields, id) == None
  }

  // The same for the small schemas, whose allowed fields are all required.

  lemma Schema1Exactly(input: seq<byte>, typeId: u16, a: seq<byte>)
    requires |a| < 0x1_0000_0000
    ensures var outer := OpenSchema(input, typeId, 1, [1]);
            (outer.Ok? && Lookup(outer.value.fields, 1) == Some(a))
            <==> input == EncodeSchema(typeId, 1, [a])
    ensures |EncodeSchema(typeId, 1, [a])| == 16 + |a|
  {
    hide EncodeSchema, OpenSchema, Lookup;
    SchemaExactly(input, typeId, 1, [1], [a]);
    SchemaLength(typeId, 1, [a]);
    assert [a][1..] == [];
    var outer := OpenSchema(input, typeId, 1, [1]);
    if outer.Ok? {
      assert Holds(outer.value.fields, [a]) ==> Lookup(outer.value.fields, 0 + 1) == Some([a][0]);
    }
  }

  lemma Schema2Exactly(input: seq<byte>, typeId: u16, a: seq<byte>, b: seq<byte>)
    requires |a| < 0x1_0000_0000 && |b| < 0x1_0000_0000
    ensures var outer := OpenSchema(input, typeId, 1, [1, 2]);
            (outer.Ok? && Lookup(outer.value.fields, 1) == Some(a)
             && Lookup(outer.value.fields, 2) == Some(b))
            <==> input == EncodeSchema(typeId, 1, [a, b])
    ensures |EncodeSchema(typeId, 1, [a, b])| == 22 + |a| + |b|
  {
    hide EncodeSchema, OpenSchema, Lookup;
    var bodies := [a, b];
    SchemaExactly(input, typeId, 1, [1, 2], bodies);
    SchemaLength(typeId, 1, bodies);
    assert bodies[1..] == [b] && TotalLength([b]) == |b|;
    var outer := OpenSchema(input, typeId, 1, [1, 2]);
    if outer.Ok? && Holds(outer.value.fields, bodies) {
      assert Lookup(outer.value.fields, 0 + 1) == Some(bodies[0]);
      assert Lookup(outer.value.fields, 1 + 1) == Some(bodies[1]);
    }
  }

  lemma Schema3Exactly(input: seq<byte>, typeId: u16, a: seq<byte>, b: seq<byte>, c: seq<byte>)
    requires |a| < 0x1_0000_0000 && |b| < 0x1_0000_0000 && |c| < 0x1_0000_0000
    ensures var outer := OpenSchema(input, typeId, 1, [1, 2, 3]);
            (outer.Ok? && Lookup(outer.value.fields, 1) == Some(a)
             && Lookup(outer.value.fields, 2) == Some(b)
             && Lookup(outer.value.fields, 3) == Some(c))
            <==> input == EncodeSchema(typeId, 1, [a, b, c])
    ensures |EncodeSchema(typeId, 1, [a, b, c])| == 28 + |a| + |b| + |c|
  {
    hide EncodeSchema, OpenSchema, Lookup;
    var bodies := [a, b, c];
    SchemaExactly(input, typeId, 1, [1, 2, 3], bodies);
    SchemaLength(typeId, 1, bodies);
    assert bodies[1..] == [b, c] && [b, c][1..] == [c] && TotalLength([c]) == |c|;
    var outer := OpenSchema(input, typeId, 1, [1, 2, 3]);
    if outer.Ok? && Holds(outer.value.fields, bodies) {
      assert Lookup(outer.value.fields, 0 + 1) == Some(bodies[0]);
      assert Lookup(outer.value.fields, 1 + 1) == Some(bodies[1]);
      assert Lookup(outer.value.fields, 2 + 1) == Some(bodies[2]);
    }
  }
}
