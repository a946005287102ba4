// The printer that the transaction decoder inverts, and the proof that the two are inverse at
// every nesting level.
module TransactionCodec {
  import opened Wrappers
  import opened Bytes
  import opened Text
  import opened Canonical
  import opened Schemas
  import opened Types
  import opened Transaction

  // ----- The printer -----

  function EncodeDigest32(d: Digest32): seq<byte> {
    EncodeSchema(DIGEST_TYPE_ID, 1, [LeBytes(d.algorithm.AsU16(), 2), d.bytes])
  }

  function EncodeId(id: Bytes32, typeId: u16): seq<byte> {
    EncodeSchema(typeId, 1, [id])
  }

  function EncodeObjectRef(r: ObjectRef): seq<byte> {
    EncodeSchema(OBJECT_REF_TYPE_ID, 1,
                 [EncodeId(r.id, OBJECT_ID_TYPE_ID), LeBytes(r.version, 8), EncodeDigest32(r.digest)])
  }

  function EncodeAccessMode(mode: AccessMode): seq<byte> {
    EncodeSchema(ACCESS_MODE_TYPE_ID, 1, [[mode.AsU8()]])
  }

  function EncodeAccessEntry(e: AccessEntry): seq<byte> {
    EncodeSchema(ACCESS_ENTRY_TYPE_ID, 1, [EncodeObjectRef(e.objectRef), EncodeAccessMode(e.mode)])
  }

  function EncodeEach(entries: seq<AccessEntry>): (bodies: seq<seq<byte>>)
    ensures |bodies| == |entries|
    ensures forall i :: 0 <= i < |entries| ==> bodies[i] == EncodeAccessEntry(entries[i])
  {
    seq(|entries|, i requires 0 <= i < |entries| => EncodeAccessEntry(entries[i]))
  }

  function ManifestBodies(entries: seq<AccessEntry>): seq<seq<byte>> {
    [LeBytes(|entries|, 4)] + EncodeEach(entries)
  }

  function EncodeAccessManifest(entries: seq<AccessEntry>): seq<byte>
    requires |entries| <= MAX_ACCESS_ENTRIES
  {
    EncodeSchema(ACCESS_MANIFEST_TYPE_ID, 1, ManifestBodies(entries))
  }

  function EncodeFeePayment(f: FeePayment): seq<byte> {
    EncodeSchema(FEE_PAYMENT_TYPE_ID, 1,
                 [EncodeId(f.assetId, ASSET_ID_TYPE_ID), LeBytes(f.maxFee, 8), EncodeObjectRef(f.feeObject)])
  }

  function TransactionBodies(t: TransactionSignable): (bodies: seq<seq<byte>>)
    requires |t.accessManifest| <= MAX_ACCESS_ENTRIES
    ensures |bodies| == if t.feePayment.Some? then 11 else 10
  {
    [t.chainId, LeBytes(t.protocolVersion, 4), LeBytes(t.epoch, 8), t.sender, LeBytes(t.nonce, 8),
     EncodeAccessManifest(t.accessManifest), EncodeObjectRef(t.moduleRef), t.entrypoint, t.args,
     LeBytes(t.gasLimit, 8)]
    + (if t.feePayment.Some? then [EncodeFeePayment(t.feePayment.value)] else [])
  }

  function EncodeTransaction(t: TransactionSignable): seq<byte>
    requires |t.accessManifest| <= MAX_ACCESS_ENTRIES
  {
    EncodeSchema(TRANSACTION_TYPE_ID, ENCODING_VERSION, TransactionBodies(t))
  }

  // ----- Well-formed values -----

  predicate DistinctObjects(entries: seq<AccessEntry>) {
    forall i, j :: 0 <= i < j < |entries| ==> entries[i].objectRef.id != entries[j].objectRef.id
  }

  predicate WellFormedManifest(entries: seq<AccessEntry>) {
    |entries| <= MAX_ACCESS_ENTRIES && DistinctObjects(entries)
  }

  predicate WellFormed(t: TransactionSignable) {
    && |t.chainId| <= MAX_CHAIN_ID_BYTES && IsUtf8(t.chainId)
    && WellFormedManifest(t.accessManifest)
    && 0 < |t.entrypoint| <= MAX_ENTRYPOINT_BYTES && IsUtf8(t.entrypoint)
    && |t.args| <= MAX_ARGS_BYTES
  }

  // ----- Each decoder accepts exactly its printer's image, which has a known length -----

  lemma DigestExactly(input: seq<byte>, d: Digest32)
    ensures DecodeDigest32(input) == Ok(d) <==> input == EncodeDigest32(d)
    ensures |EncodeDigest32(d)| == 56
  {
    hide OpenSchema, EncodeSchema, Lookup, LeBytes, RequiredU16;
    var outer := OpenSchema(input, DIGEST_TYPE_ID, 1, [1, 2]);
    Schema2Exactly(input, DIGEST_TYPE_ID, LeBytes(d.algorithm.AsU16(), 2), d.bytes);
    if outer.Ok? {
      RequiredU16Exactly(outer.value, 1, d.algorithm.AsU16());
    }
  }

  lemma IdExactly(input: seq<byte>, typeId: u16, id: Bytes32)
    ensures DecodeId(input, typeId) == Ok(id) <==> input == EncodeId(id, typeId)
    ensures |EncodeId(id, typeId)| == 48
  {
    hide OpenSchema, EncodeSchema, Lookup;
    Schema1Exactly(input, typeId, id);
  }

  lemma ObjectRefExactly(input: seq<byte>, r: ObjectRef)
    ensures DecodeObjectRef(input) == Ok(r) <==> input == EncodeObjectRef(r)
    ensures |EncodeObjectRef(r)| == 140
  {
    hide OpenSchema, EncodeSchema, Lookup, LeBytes, RequiredU64, DecodeId, EncodeId,
         DecodeDigest32, EncodeDigest32;
    var outer := OpenSchema(input, OBJECT_REF_TYPE_ID, 1, [1, 2, 3]);
    IdExactly([], OBJECT_ID_TYPE_ID, r.id);
    DigestExactly([], r.digest);
    Schema3Exactly(input, OBJECT_REF_TYPE_ID, EncodeId(r.id, OBJECT_ID_TYPE_ID),
                   LeBytes(r.version, 8), EncodeDigest32(r.digest));
    if outer.Ok? {
      var fields := outer.value.fields;
      RequiredU64Exactly(outer.value, 2, r.version);
      if Lookup(fields, 1).Some? && Lookup(fields, 3).Some? {
        IdExactly(Lookup(fields, 1).value, OBJECT_ID_TYPE_ID, r.id);
        DigestExactly(Lookup(fields, 3).value, r.digest);
      }
    }
  }

  lemma AccessModeExactly(input: seq<byte>, mode: AccessMode)
    ensures DecodeAccessMode(input) == Ok(mode) <==> input == EncodeAccessMode(mode)
    ensures |EncodeAccessMode(mode)| == 17
  {
    hide OpenSchema, EncodeSchema, Lookup;
    Schema1Exactly(input, ACCESS_MODE_TYPE_ID, [mode.AsU8()]);
    if DecodeAccessMode(input) == Ok(mode) {
      var frame := OpenSchema(input, ACCESS_MODE_TYPE_ID, 1, [1]).value;
      assert Lookup(frame.fields, 1).value == [mode.AsU8()];
    }
  }

  lemma AccessEntryExactly(input: seq<byte>, e: AccessEntry)
    ensures DecodeAccessEntry(input) == Ok(e) <==> input == EncodeAccessEntry(e)
    ensures |EncodeAccessEntry(e)| == 179
  {
    hide OpenSchema, EncodeSchema, Lookup, DecodeObjectRef, EncodeObjectRef, DecodeAccessMode,
         EncodeAccessMode;
    var outer := OpenSchema(input, ACCESS_ENTRY_TYPE_ID, 1, [1, 2]);
    ObjectRefExactly([], e.objectRef);
    AccessModeExactly([], e.mode);
    Schema2Exactly(input, ACCESS_ENTRY_TYPE_ID, EncodeObjectRef(e.objectRef), EncodeAccessMode(e.mode));
    if outer.Ok? {
      var fields := outer.value.fields;
      if Lookup(fields, 1).Some? && Lookup(fields, 2).Some? {
        ObjectRefExactly(Lookup(fields, 1).value, e.objectRef);
        AccessModeExactly(Lookup(fields, 2).value, e.mode);
      }
    }
  }

  lemma FeePaymentExactly(input: seq<byte>, f: FeePayment)
    ensures DecodeFeePayment(input) == Ok(f) <==> input == EncodeFeePayment(f)
    ensures |EncodeFeePayment(f)| == 224
  {
    hide OpenSchema, EncodeSchema, Lookup, LeBytes, RequiredU64, DecodeId, EncodeId,
         DecodeObjectRef, EncodeObjectRef;
    var outer := OpenSchema(input, FEE_PAYMENT_TYPE_ID, 1, [1, 2, 3]);
    IdExactly([], ASSET_ID_TYPE_ID, f.assetId);
    ObjectRefExactly([], f.feeObject);
    Schema3Exactly(input, FEE_PAYMENT_TYPE_ID, EncodeId(f.assetId, ASSET_ID_TYPE_ID),
                   LeBytes(f.maxFee, 8), EncodeObjectRef(f.feeObject));
    if outer.Ok? {
      var fields := outer.value.fields;
      RequiredU64Exactly(outer.value, 2, f.maxFee);
      if Lookup(fields, 1).Some? && Lookup(fields, 3).Some? {
        IdExactly(Lookup(fields, 1).value, ASSET_ID_TYPE_ID, f.assetId);
        ObjectRefExactly(Lookup(fields, 3).value, f.feeObject);
      }
    }
  }

  // ----- The access manifest -----

  lemma {:induction false} EachLength(entries: seq<AccessEntry>)
    ensures TotalLength(EncodeEach(entries)) == 179 * |entries|
    ensures Fits(EncodeEach(entries))
  {
    hide EncodeAccessEntry;
    forall i | 0 <= i < |entries|
      ensures |EncodeEach(entries)[i]| == 179
    {
      AccessEntryExactly([], entries[i]);
    }
    if entries != [] {
      EachLength(entries[1..]);
      assert EncodeEach(entries)[1..] == EncodeEach(entries[1..]);
    }
  }

  lemma ManifestLength(entries: seq<AccessEntry>)
    requires |entries| <= MAX_ACCESS_ENTRIES
    ensures |EncodeAccessManifest(entries)| == 20 + 185 * |entries|
    ensures Fits(ManifestBodies(entries))
  {
    hide EncodeSchema, EncodeEach, LeBytes;
    EachLength(entries);
    SchemaLength(ACCESS_MANIFEST_TYPE_ID, 1, ManifestBodies(entries));
    assert ManifestBodies(entries)[1..] == EncodeEach(entries);
  }

  predicate HoldsEntries(fields: seq<Field>, first: nat, entries: seq<AccessEntry>)
    requires first + |entries| < NUMBER_LIMIT
  {
    forall i :: 0 <= i < |entries| ==> Lookup(fields, first + i) == Some(EncodeAccessEntry(entries[i]))
  }

  lemma {:induction false} EntriesExactly(frame: Frame, count: nat, index: nat, entries: seq<AccessEntry>)
    requires index <= count < NUMBER_LIMIT - 2
    ensures DecodeEntries(frame, count, index) == Ok(entries)
            <==> |entries| == count - index && HoldsEntries(frame.fields, index + 2, entries)
    decreases count - index
  {
    hide Lookup, DecodeAccessEntry, EncodeAccessEntry, HoldsEntries;
    if index < count && entries != [] {
      var rest := entries[1..];
      EntriesExactly(frame, count, index + 1, rest);
      if Lookup(frame.fields, index + 2).Some? {
        AccessEntryExactly(Lookup(frame.fields, index + 2).value, entries[0]);
      }
      assert entries == [entries[0]] + rest;
      if |entries| == count - index {
        HoldsEntriesSplits(frame.fields, index + 2, entries);
      }
    } else if |entries| == count - index {
      HoldsNoEntries(frame.fields, index + 2);
    }
  }

  lemma HoldsNoEntries(fields: seq<Field>, first: nat)
    requires first < NUMBER_LIMIT
    ensures HoldsEntries(fields, first, [])
  {
  }

  lemma {:induction false} HoldsEntriesSplits(fields: seq<Field>, first: nat, entries: seq<AccessEntry>)
    requires entries != [] && first + |entries| < NUMBER_LIMIT
    ensures HoldsEntries(fields, first, entries)
            <==> Lookup(fields, first) == Some(EncodeAccessEntry(entries[0]))
                 && HoldsEntries(fields, first + 1, entries[1..])
  {
    hide Lookup, EncodeAccessEntry;
    var rest := entries[1..];
    if HoldsEntries(fields, first, entries) {
      assert Lookup(fields, first + 0) == Some(EncodeAccessEntry(entries[0]));
      forall i | 0 <= i < |rest|
        ensures Lookup(fields, first + 1 + i) == Some(EncodeAccessEntry(rest[i]))
      {
        assert Lookup(fields, first + (i + 1)) == Some(EncodeAccessEntry(entries[i + 1]));
      }
    }
    if Lookup(fields, first) == Some(EncodeAccessEntry(entries[0])) && HoldsEntries(fields, first + 1, rest) {
      forall i | 0 <= i < |entries|
        ensures Lookup(fields, first + i) == Some(EncodeAccessEntry(entries[i]))
      {
        if i > 0 {
          assert Lookup(fields, first + 1 + (i - 1)) == Some(EncodeAccessEntry(rest[i - 1]));
        }
      }
    }
  }

  /** The duplicate scan accepts if and only if all object ids are pairwise distinct. */
  lemma {:induction false} NoDuplicateExactly(entries: seq<AccessEntry>)
    ensures FirstDuplicate(entries) == None <==> DistinctObjects(entries)
  {
    if entries != [] {
      var rest := entries[1..];
      NoDuplicateExactly(rest);
      if FirstDuplicate(entries) == None {
        forall i, j | 0 <= i < j < |entries|
          ensures entries[i].objectRef.id != entries[j].objectRef.id
        {
          assert entries[j] == rest[j - 1];
          if i > 0 {
            assert entries[i] == rest[i - 1];
          }
        }
      }
      if DistinctObjects(entries) {
        forall i, j | 0 <= i < j < |rest|
          ensures rest[i].objectRef.id != rest[j].objectRef.id
        {
          assert rest[i] == entries[i + 1] && rest[j] == entries[j + 1];
        }
        forall i | 0 <= i < |rest|
          ensures rest[i].objectRef.id != entries[0].objectRef.id
        {
          assert rest[i] == entries[i + 1];
        }
      }
    }
  }

  /** With no allow-list check, counting alone forces an accepted manifest's fields to be exactly
      1 to n + 1, in order, for its n <= 8 entries. */
  lemma AcceptedManifest(input: seq<byte>, entries: seq<AccessEntry>)
    requires DecodeAccessManifest(input) == Ok(entries)
    ensures WellFormedManifest(entries) && input == EncodeAccessManifest(entries)
    ensures DecodeFrame(input).Ok? && ExactlyIds(DecodeFrame(input).value.fields, |entries| + 1)
  {
    hide Lookup, EncodeFrame, EncodeEach, HoldsEntries, DecodeEntries, FirstDuplicate, RequiredU32;
    var frame := DecodeTyped(input, ACCESS_MANIFEST_TYPE_ID, 1).value;
    EntriesExactly(frame, RequiredU32(frame, 1).value, 0, entries);
    NoDuplicateExactly(entries);
    ManifestForces(input, frame, entries);
  }

  /** The manifest decoder accepts exactly the encodings of at most 8 entries with pairwise
      distinct objects, and returns them in wire order. */
  lemma ManifestExactly(input: seq<byte>, entries: seq<AccessEntry>)
    ensures DecodeAccessManifest(input) == Ok(entries)
            <==> WellFormedManifest(entries) && input == EncodeAccessManifest(entries)
  {
    hide Lookup, EncodeFrame, EncodeEach, HoldsEntries, DecodeEntries, FirstDuplicate, RequiredU32;
    if DecodeAccessManifest(input) == Ok(entries) {
      AcceptedManifest(input, entries);
    }
    if WellFormedManifest(entries) && input == EncodeAccessManifest(entries) {
      var bodies := ManifestBodies(entries);
      var frame := Frame(ACCESS_MANIFEST_TYPE_ID, 1, Numbered(bodies));
      ManifestLength(entries);
      NumberedIsCanonical(ACCESS_MANIFEST_TYPE_ID, 1, bodies);
      DecodeFrameExactly(input, frame);
      ManifestBodiesHeld(frame, entries);
      EntriesExactly(frame, |entries|, 0, entries);
      NoDuplicateExactly(entries);
    }
  }

  lemma ManifestBodiesHeld(frame: Frame, entries: seq<AccessEntry>)
    requires |entries| <= MAX_ACCESS_ENTRIES
    ensures Holds(frame.fields, ManifestBodies(entries))
            <==> RequiredU32(frame, 1) == Ok(|entries|) && HoldsEntries(frame.fields, 2, entries)
  {
    hide Lookup, EncodeAccessEntry, RequiredU32;
    var fields, bodies := frame.fields, ManifestBodies(entries);
    RequiredU32Exactly(frame, 1, |entries|);
    if Holds(fields, bodies) {
      assert Lookup(fields, 0 + 1) == Some(bodies[0]);
      forall i | 0 <= i < |entries|
        ensures Lookup(fields, 2 + i) == Some(EncodeAccessEntry(entries[i]))
      {
        assert Lookup(fields, (i + 1) + 1) == Some(bodies[i + 1]);
      }
    }
    if RequiredU32(frame, 1) == Ok(|entries|) && HoldsEntries(fields, 2, entries) {
      forall i | 0 <= i < |bodies|
        ensures Lookup(fields, i + 1) == Some(bodies[i])
      {
        if i > 0 {
          assert Lookup(fields, 2 + (i - 1)) == Some(EncodeAccessEntry(entries[i - 1]));
        }
      }
    }
  }

  lemma ManifestForces(input: seq<byte>, frame: Frame, entries: seq<AccessEntry>)
    requires DecodeTyped(input, ACCESS_MANIFEST_TYPE_ID, 1) == Ok(frame)
    requires |entries| <= MAX_ACCESS_ENTRIES && |frame.fields| == |entries| + 1
    requires RequiredU32(frame, 1) == Ok(|entries|)
    requires HoldsEntries(frame.fields, 2, entries)
    ensures input == EncodeAccessManifest(entries)
    ensures ExactlyIds(frame.fields, |entries| + 1)
  {
    hide Lookup, EncodeSchema, EncodeEach, HoldsEntries, RequiredU32;
    var bodies := ManifestBodies(entries);
    ManifestBodiesHeld(frame, entries);
    HoldsHasIds(frame.fields, bodies);
    DecodeFrameExactly(input, frame);
    CountedIds(frame.fields, |bodies|);
    ExactIdsForce(input, frame, bodies);
  }

  // ----- The whole transaction -----

  /** Field by field, what a frame holds when it is the frame of `t`. */
  predicate FieldsSay(fields: seq<Field>, t: TransactionSignable)
    requires |t.accessManifest| <= MAX_ACCESS_ENTRIES
  {
    && Lookup(fields, 1) == Some(t.chainId)
    && Lookup(fields, 2) == Some(LeBytes(t.protocolVersion, 4))
    && Lookup(fields, 3) == Some(LeBytes(t.epoch, 8))
    && Lookup(fields, 4) == Some(t.sender)
    && Lookup(fields, 5) == Some(LeBytes(t.nonce, 8))
    && Lookup(fields, 6) == Some(EncodeAccessManifest(t.accessManifest))
    && Lookup(fields, 7) == Some(EncodeObjectRef(t.moduleRef))
    && Lookup(fields, 8) == Some(t.entrypoint)
    && Lookup(fields, 9) == Some(t.args)
    && Lookup(fields, 10) == Some(LeBytes(t.gasLimit, 8))
    && Lookup(fields, 11) == (if t.feePayment.Some? then Some(EncodeFeePayment(t.feePayment.value))
                              else None)
  }

  lemma DecodedFieldsExactly(frame: Frame, t: TransactionSignable)
    ensures DecodeTransactionFields(frame) == Ok(t) <==> WellFormed(t) && FieldsSay(frame.fields, t)
  {
    hide Lookup, LeBytes, IsUtf8, WellFormedManifest, RequiredU32, RequiredU64, DecodeAccessManifest,
         EncodeAccessManifest, DecodeObjectRef, EncodeObjectRef, DecodeFeePayment, EncodeFeePayment;
    var fields := frame.fields;
    RequiredU32Exactly(frame, 2, t.protocolVersion);
    RequiredU64Exactly(frame, 3, t.epoch);
    RequiredU64Exactly(frame, 5, t.nonce);
    RequiredU64Exactly(frame, 10, t.gasLimit);
    if Lookup(fields, 6).Some? {
      ManifestExactly(Lookup(fields, 6).value, t.accessManifest);
    }
    if Lookup(fields, 7).Some? {
      ObjectRefExactly(Lookup(fields, 7).value, t.moduleRef);
    }
    if Lookup(fields, 11).Some? && t.feePayment.Some? {
      FeePaymentExactly(Lookup(fields, 11).value, t.feePayment.value);
    }
    ManifestBounded(t.accessManifest);
  }

  lemma ManifestBounded(entries: seq<AccessEntry>)
    ensures WellFormedManifest(entries) ==> |entries| <= MAX_ACCESS_ENTRIES
  {
  }

  lemma FieldsSayBodies(fields: seq<Field>, t: TransactionSignable)
    requires |t.accessManifest| <= MAX_ACCESS_ENTRIES
    ensures FieldsSay(fields, t)
            <==> Holds(fields, TransactionBodies(t))
                 && NothingBeyond(fields, ALLOWED_FIELDS, |TransactionBodies(t)|)
  {
    hide Lookup, LeBytes, EncodeAccessManifest, EncodeObjectRef, EncodeFeePayment;
    var bodies := TransactionBodies(t);
    if Holds(fields, bodies) {
      forall i | 0 <= i < |bodies|
        ensures Lookup(fields, i + 1) == Some(bodies[i])
      {
      }
      assert Lookup(fields, 0 + 1) == Some(bodies[0]);
      assert Lookup(fields, 1 + 1) == Some(bodies[1]);
      assert Lookup(fields, 2 + 1) == Some(bodies[2]);
      assert Lookup(fields, 3 + 1) == Some(bodies[3]);
      assert Lookup(fields, 4 + 1) == Some(bodies[4]);
      assert Lookup(fields, 5 + 1) == Some(bodies[5]);
      assert Lookup(fields, 6 + 1) == Some(bodies[6]);
      assert Lookup(fields, 7 + 1) == Some(bodies[7]);
      assert Lookup(fields, 8 + 1) == Some(bodies[8]);
      assert Lookup(fields, 9 + 1) == Some(bodies[9]);
      if t.feePayment.Some? {
        assert Lookup(fields, 10 + 1) == Some(bodies[10]);
      } else {
        assert ALLOWED_FIELDS[10] == 11;
      }
    }
  }

  const BODY_BOUNDS: seq<nat> := [64, 4, 8, 32, 8, 1500, 140, 64, 40, 8, 224]

  lemma BodiesBounded(t: TransactionSignable)
    requires WellFormed(t)
    ensures forall i :: 0 <= i < |TransactionBodies(t)| ==> |TransactionBodies(t)[i]| <= BODY_BOUNDS[i]
  {
    hide LeBytes, IsUtf8, EncodeAccessManifest, EncodeObjectRef, EncodeFeePayment;
    ManifestLength(t.accessManifest);
    ObjectRefExactly([], t.moduleRef);
    if t.feePayment.Some? {
      FeePaymentExactly([], t.feePayment.value);
    }
  }

  /** Fixed parts plus the text, the arguments and the manifest make up the encoded length. */
  lemma TransactionLength(t: TransactionSignable)
    requires WellFormed(t)
    ensures |EncodeTransaction(t)| <= 2168
    ensures Fits(TransactionBodies(t))
  {
    hide EncodeSchema, TransactionBodies, IsUtf8, TotalLength, Sum;
    var bodies := TransactionBodies(t);
    BodiesBounded(t);
    SchemaLength(TRANSACTION_TYPE_ID, ENCODING_VERSION, bodies);
    TotalLengthBound(bodies, BODY_BOUNDS);
    SumOfBodyBounds();
  }

  lemma SumOfBodyBounds()
    ensures Sum(BODY_BOUNDS) == 2092
  {
    assert Sum([64, 4, 8, 32, 8, 1500, 140, 64, 40, 8, 224]) == 2092;
  }

  function Sum(bounds: seq<nat>): nat {
    if bounds == [] then 0 else bounds[0] + Sum(bounds[1..])
  }

  lemma {:induction false} TotalLengthBound(bodies: seq<seq<byte>>, bounds: seq<nat>)
    requires |bodies| <= |bounds|
    requires forall i :: 0 <= i < |bodies| ==> |bodies[i]| <= bounds[i]
    ensures TotalLength(bodies) <= Sum(bounds)
  {
    if bodies != [] {
      TotalLengthBound(bodies[1..], bounds[1..]);
    }
  }

  lemma AllowedFieldIds()
    ensures forall id: u16 :: id in ALLOWED_FIELDS <==> 1 <= id <= 11
  {
    forall id: u16 | 1 <= id <= 11
      ensures id in ALLOWED_FIELDS
    {
      assert ALLOWED_FIELDS[id - 1] == id;
    }
  }

  /** The decoder of the whole nested transaction and the printer are mutually inverse. */
  lemma TransactionExactly(input: seq<byte>, t: TransactionSignable)
    ensures DecodeTransactionSignable(input) == Ok(t) <==> WellFormed(t) && input == EncodeTransaction(t)
  {
    hide OpenSchema, EncodeSchema, DecodeTransactionFields, FieldsSay, Holds, NothingBeyond,
         TransactionBodies;
    AllowedFieldIds();
    if WellFormed(t) {
      TransactionLength(t);
      SchemaExactly(input, TRANSACTION_TYPE_ID, ENCODING_VERSION, ALLOWED_FIELDS, TransactionBodies(t));
    }
    var outer := OpenSchema(input, TRANSACTION_TYPE_ID, ENCODING_VERSION, ALLOWED_FIELDS);
    if outer.Ok? {
      DecodedFieldsExactly(outer.value, t);
      if WellFormed(t) {
        FieldsSayBodies(outer.value.fields, t);
      }
    }
  }

  /** Hence two accepted inputs that decode alike are the same input. */
  lemma TransactionDecodingIsInjective(a: seq<byte>, b: seq<byte>)
    requires DecodeTransactionSignable(a).Ok?
    requires DecodeTransactionSignable(a) == DecodeTransactionSignable(b)
    ensures a == b
  {
    hide DecodeTransactionSignable, EncodeTransaction;
    var t := DecodeTransactionSignable(a).value;
    TransactionExactly(a, t);
    TransactionExactly(b, t);
  }

  /** The decoder's text checks on the inner transaction are weaker than its error names say: it
      turns away an empty entrypoint but accepts one that is all white space, and it accepts an
      empty chain id. A blank entrypoint field is rejected exactly when it is empty. */
  lemma {:induction false} BlankTextsAccepted(t: TransactionSignable, blank: seq<byte>)
    requires WellFormed(t)
    requires IsBlank(blank) && IsUtf8(blank) && |blank| <= MAX_ENTRYPOINT_BYTES
    ensures DecodeEntrypoint(blank) == if blank == [] then Err(EmptyEntrypoint) else Ok(blank)
    ensures blank != [] ==> DecodeTransactionSignable(EncodeTransaction(t.(entrypoint := blank))).Ok?
    ensures DecodeTransactionSignable(EncodeTransaction(t.(chainId := []))).Ok?
    ensures IsBlank([0x20]) && IsUtf8([0x20])
  {
    hide DecodeTransactionSignable, EncodeTransaction, WellFormedManifest;
    var s, c := t.(entrypoint := blank), t.(chainId := []);
    ManifestBounded(t.accessManifest);
    TransactionExactly(EncodeTransaction(s), s);
    TransactionExactly(EncodeTransaction(c), c);
    assert [0x20][1..] == [];
  }
}
