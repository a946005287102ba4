// The wire layout in literal bytes: the printers against the numbers of the format.
module WireLayout {
  import opened Bytes
  import opened Text
  import opened Canonical
  import opened Schemas
  import opened Types
  import opened Transaction
  import opened TransactionCodec
  import opened Policy
  import SignatureFrames

  function FieldsWire(id: nat, bodies: seq<seq<byte>>): seq<byte>
    requires id + |bodies| <= 256
    decreases |bodies|
  {
    if bodies == [] then []
    else [id, 0] + LeBytes(|bodies[0]|, 4) + bodies[0] + FieldsWire(id + 1, bodies[1..])
  }

  /** "SNRE", the type id in two bytes, version 1, the number of fields, then the fields from id 1 on:
      each an id, a length in four bytes, and the contents. */
  function FrameWire(typeLow: byte, typeHigh: byte, bodies: seq<seq<byte>>): seq<byte>
    requires |bodies| < 255
  {
    [0x53, 0x4E, 0x52, 0x45, typeLow, typeHigh, 1, 0, |bodies|, 0] + FieldsWire(1, bodies)
  }

  lemma {:induction false} TwoBytes(v: u16)
    ensures LeBytes(v, 2) == [v % 256, v / 256]
  {
    assert LeBytes(v, 2) == [v % 256] + LeBytes(v / 256, 1);
    assert LeBytes(v / 256, 1) == [v / 256 % 256] + LeBytes(v / 256 / 256, 0);
  }

  lemma {:induction false} FieldsAreWire(id: nat, fields: seq<Field>, bodies: seq<seq<byte>>)
    requires id + |bodies| <= 256 && |fields| == |bodies|
    requires forall i :: 0 <= i < |fields| ==> fields[i] == Field(id + i, bodies[i])
    ensures EncodeFields(fields) == FieldsWire(id, bodies)
    decreases |bodies|
  {
    hide LeBytes;
    if bodies != [] {
      TwoBytes(id);
      assert fields[0] == Field(id + 0, bodies[0]);
      FieldsAreWire(id + 1, fields[1..], bodies[1..]);
    }
  }

  lemma SchemaWire(typeId: u16, bodies: seq<seq<byte>>)
    requires |bodies| < 255
    ensures EncodeSchema(typeId, 1, bodies) == FrameWire(typeId % 256, typeId / 256, bodies)
  {
    hide LeBytes, EncodeFields, FieldsWire;
    TwoBytes(typeId);
    TwoBytes(1);
    TwoBytes(|bodies|);
    FieldsAreWire(1, Numbered(bodies), bodies);
  }

  lemma DigestWire(d: Digest32)
    ensures EncodeDigest32(d)
            == FrameWire(0x03, 0x01, [[match d.algorithm
                                       case Sha2_256 => 1
                                       case Sha3_256 => 2
                                       case Blake3_256 => 3, 0], d.bytes])
  {
    hide LeBytes, EncodeSchema, FrameWire;
    TwoBytes(d.algorithm.AsU16());
    SchemaWire(DIGEST_TYPE_ID, [LeBytes(d.algorithm.AsU16(), 2), d.bytes]);
  }

  lemma ObjectRefWire(r: ObjectRef)
    ensures EncodeObjectRef(r)
            == FrameWire(0x04, 0x40, [FrameWire(0x01, 0x40, [r.id]), LeBytes(r.version, 8), EncodeDigest32(r.digest)])
  {
    hide LeBytes, EncodeSchema, FrameWire, EncodeDigest32;
    SchemaWire(OBJECT_ID_TYPE_ID, [r.id]);
    SchemaWire(OBJECT_REF_TYPE_ID,
               [EncodeId(r.id, OBJECT_ID_TYPE_ID), LeBytes(r.version, 8), EncodeDigest32(r.digest)]);
  }

  lemma AccessEntryWire(e: AccessEntry)
    ensures EncodeAccessEntry(e)
            == FrameWire(0x01, 0x50, [EncodeObjectRef(e.objectRef),
                                      FrameWire(0x06, 0x40, [[match e.mode
                                                              case Read => 1
                                                              case Write => 2
                                                              case Consume => 3]])])
  {
    hide EncodeSchema, FrameWire, EncodeObjectRef;
    SchemaWire(ACCESS_MODE_TYPE_ID, [[e.mode.AsU8()]]);
    SchemaWire(ACCESS_ENTRY_TYPE_ID, [EncodeObjectRef(e.objectRef), EncodeAccessMode(e.mode)]);
  }

  lemma ManifestWire(entries: seq<AccessEntry>)
    requires |entries| <= 8
    ensures EncodeAccessManifest(entries) == FrameWire(0x02, 0x50, [[|entries|, 0, 0, 0]] + EncodeEach(entries))
  {
    hide EncodeSchema, FrameWire, EncodeEach;
    SchemaWire(ACCESS_MANIFEST_TYPE_ID, ManifestBodies(entries));
    var n := |entries|;
    assert LeBytes(n, 4) == [n, 0, 0, 0] by {
      assert LeBytes(0, 3) == [0] + LeBytes(0, 2);
      TwoBytes(0);
    }
  }

  lemma FeePaymentWire(f: FeePayment)
    ensures EncodeFeePayment(f)
            == FrameWire(0x02, 0x70, [FrameWire(0x01, 0x70, [f.assetId]), LeBytes(f.maxFee, 8),
                                      EncodeObjectRef(f.feeObject)])
  {
    hide LeBytes, EncodeSchema, FrameWire, EncodeObjectRef;
    SchemaWire(ASSET_ID_TYPE_ID, [f.assetId]);
    SchemaWire(FEE_PAYMENT_TYPE_ID,
               [EncodeId(f.assetId, ASSET_ID_TYPE_ID), LeBytes(f.maxFee, 8), EncodeObjectRef(f.feeObject)]);
  }

  lemma TransactionWire(t: TransactionSignable)
    requires |t.accessManifest| <= 8
    ensures EncodeTransaction(t)
            == FrameWire(0x01, 0x60,
                         [t.chainId, LeBytes(t.protocolVersion, 4), LeBytes(t.epoch, 8), t.sender,
                          LeBytes(t.nonce, 8), EncodeAccessManifest(t.accessManifest),
                          EncodeObjectRef(t.moduleRef), t.entrypoint, t.args, LeBytes(t.gasLimit, 8)]
                         + (if t.feePayment.None? then [] else [EncodeFeePayment(t.feePayment.value)]))
  {
    hide LeBytes, EncodeSchema, FrameWire, EncodeObjectRef, EncodeAccessManifest, EncodeFeePayment;
    SchemaWire(TRANSACTION_TYPE_ID, TransactionBodies(t));
  }

  lemma SignatureFrameWire(f: SignatureFrames.SignatureFrame)
    ensures SignatureFrames.EncodeSignatureFrame(f)
            == FrameWire(0x01, 0x20,
                         [f.chainId, LeBytes(f.protocolVersion, 4), LeBytes(f.epoch, 8), f.messageType,
                          [if f.scheme == Ed25519 then 1 else 2, 0], f.payload])
  {
    hide LeBytes, EncodeSchema, FrameWire;
    TwoBytes(f.scheme.AsU16());
    SchemaWire(SignatureFrames.SIGNATURE_FRAME_TYPE_ID, SignatureFrames.FrameBodies(f));
  }

  lemma {:induction false} ArgumentsWire(p: ClearSigningPolicy, amount: u64)
    ensures p.ArgsBytes(amount)
            == [0x53, 0x4E, 0x52, 0x45] + LeBytes(p.argsTypeId, 2) + LeBytes(p.argsVersion, 2) + [1, 0]
               + LeBytes(p.argsFieldId, 2) + [8, 0, 0, 0] + LeBytes(amount, 8)
  {
    var f := p.ArgsFrame(amount).fields[0];
    TwoBytes(1);
    assert LeBytes(8, 4) == [8, 0, 0, 0] by {
      assert LeBytes(0, 3) == [0] + LeBytes(0, 2);
      TwoBytes(0);
    }
    hide LeBytes;
    assert EncodeFields([f]) == EncodeField(f) + EncodeFields([]);
  }

  /** The bounds that well-formed values keep, in numbers. */
  lemma TransactionBounds(t: TransactionSignable)
    ensures WellFormed(t)
            <==> && |t.chainId| <= 64 && IsUtf8(t.chainId)
                 && 1 <= |t.entrypoint| <= 64 && IsUtf8(t.entrypoint)
                 && |t.args| <= 40 && |t.accessManifest| <= 8 && DistinctObjects(t.accessManifest)
  {
    hide IsUtf8, DistinctObjects;
  }

  lemma SignatureFrameBounds(f: SignatureFrames.SignatureFrame)
    ensures SignatureFrames.WellFormed(f)
            <==> && |f.chainId| <= 64 && IsUtf8(f.chainId) && !IsBlank(f.chainId)
                 && |f.messageType| <= 32 && IsUtf8(f.messageType) && !IsBlank(f.messageType)
                 && |f.payload| < 0x1_0000_0000
  {
    hide IsUtf8, IsBlank;
  }
}
