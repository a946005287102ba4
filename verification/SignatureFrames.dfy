// The outer signature frame: its strict decoder and the printer that the decoder inverts.
module SignatureFrames {
  import opened Wrappers
  import opened Bytes
  import opened Text
  import opened Canonical
  import opened Schemas
  import opened Types

  const SIGNATURE_FRAME_TYPE_ID: u16 := 0x2001
  const SIGNATURE_FRAME_VERSION: u16 := 1
  const ALLOWED_FIELDS: seq<u16> := [1, 2, 3, 4, 5, 6]
  const MAX_CHAIN_ID_BYTES: nat := 64
  const MAX_MESSAGE_TYPE_BYTES: nat := 32

  datatype FrameError =
    | CanonicalFailure(canonical: CanonicalError)
    | ChainId(chainId: BoundedStrError)
    | MessageType(messageType: BoundedStrError)
    | UnknownSignatureScheme(scheme: u16)
    | EmptyChainId
    | EmptyMessageType

  datatype SignatureFrame = SignatureFrame(
    chainId: seq<byte>,
    protocolVersion: u32,
    epoch: u64,
    messageType: seq<byte>,
    scheme: SignatureSchemeId,
    payload: seq<byte>)

  function Lift<T>(r: Result<T, CanonicalError>): Result<T, FrameError> {
    match r
    case Ok(v) => Ok(v)
    case Err(e) => Err(CanonicalFailure(e))
  }

  function DecodeChainId(bytes: seq<byte>): Result<seq<byte>, FrameError> {
    match FromUtf8Slice(bytes, MAX_CHAIN_ID_BYTES)
    case Err(e) => Err(ChainId(e))
    case Ok(text) => if IsBlank(text) then Err(EmptyChainId) else Ok(text)
  }

  function DecodeMessageType(bytes: seq<byte>): Result<seq<byte>, FrameError> {
    match FromUtf8Slice(bytes, MAX_MESSAGE_TYPE_BYTES)
    case Err(e) => Err(MessageType(e))
    case Ok(text) => if IsBlank(text) then Err(EmptyMessageType) else Ok(text)
  }

  function DecodeScheme(id: u16): Result<SignatureSchemeId, FrameError> {
    match SignatureSchemeId.TryFromU16(id)
    case None => Err(UnknownSignatureScheme(id))
    case Some(scheme) => Ok(scheme)
  }

  function DecodeSignatureFrame(input: seq<byte>): Result<SignatureFrame, FrameError> {
    var frame :- Lift(OpenSchema(input, SIGNATURE_FRAME_TYPE_ID, SIGNATURE_FRAME_VERSION, ALLOWED_FIELDS));
    DecodeFrameFields(frame)
  }

  function DecodeFrameFields(frame: Frame): Result<SignatureFrame, FrameError> {
    var chainIdBytes :- Lift(RequiredField(frame, 1));
    var chainId :- DecodeChainId(chainIdBytes);
    var protocolVersion :- Lift(RequiredU32(frame, 2));
    var epoch :- Lift(RequiredU64(frame, 3));
    var messageTypeBytes :- Lift(RequiredField(frame, 4));
    var messageType :- DecodeMessageType(messageTypeBytes);
    var schemeId :- Lift(RequiredU16(frame, 5));
    var scheme :- DecodeScheme(schemeId);
    var payload :- Lift(RequiredField(frame, 6));
    Ok(SignatureFrame(chainId, protocolVersion, epoch, messageType, scheme, payload))
  }

  // ----- The printer, and its inverse -----

  predicate WellFormed(f: SignatureFrame) {
    && |f.chainId| <= MAX_CHAIN_ID_BYTES && IsUtf8(f.chainId) && !IsBlank(f.chainId)
    && |f.messageType| <= MAX_MESSAGE_TYPE_BYTES && IsUtf8(f.messageType) && !IsBlank(f.messageType)
    && |f.payload| < 0x1_0000_0000
  }

  function FrameBodies(f: SignatureFrame): (bodies: seq<seq<byte>>)
    ensures |bodies| == 6
  {
    [f.chainId, LeBytes(f.protocolVersion, 4), LeBytes(f.epoch, 8), f.messageType,
     LeBytes(f.scheme.AsU16(), 2), f.payload]
  }

  function EncodeSignatureFrame(f: SignatureFrame): seq<byte> {
    EncodeSchema(SIGNATURE_FRAME_TYPE_ID, SIGNATURE_FRAME_VERSION, FrameBodies(f))
  }

  predicate FieldsSay(fields: seq<Field>, f: SignatureFrame) {
    && Lookup(fields, 1) == Some(f.chainId)
    && Lookup(fields, 2) == Some(LeBytes(f.protocolVersion, 4))
    && Lookup(fields, 3) == Some(LeBytes(f.epoch, 8))
    && Lookup(fields, 4) == Some(f.messageType)
    && Lookup(fields, 5) == Some(LeBytes(f.scheme.AsU16(), 2))
    && Lookup(fields, 6) == Some(f.payload)
  }

  lemma DecodedFieldsExactly(frame: Frame, f: SignatureFrame)
    requires |f.payload| < 0x1_0000_0000
    ensures DecodeFrameFields(frame) == Ok(f) <==> WellFormed(f) && FieldsSay(frame.fields, f)
  {
    hide Lookup, LeBytes, IsUtf8, IsBlank, RequiredU16, RequiredU32, RequiredU64;
    RequiredU32Exactly(frame, 2, f.protocolVersion);
    RequiredU64Exactly(frame, 3, f.epoch);
    RequiredU16Exactly(frame, 5, f.scheme.AsU16());
  }

  lemma FieldsSayBodies(fields: seq<Field>, f: SignatureFrame)
    ensures FieldsSay(fields, f) <==> Holds(fields, FrameBodies(f))
  {
    hide Lookup, LeBytes;
    var bodies := FrameBodies(f);
    if Holds(fields, bodies) {
      assert Lookup(fields, 0 + 1) == Some(bodies[0]);
      assert Lookup(fields, 1 + 1) == Some(bodies[1]);
      assert Lookup(fields, 2 + 1) == Some(bodies[2]);
      assert Lookup(fields, 3 + 1) == Some(bodies[3]);
      assert Lookup(fields, 4 + 1) == Some(bodies[4]);
      assert Lookup(fields, 5 + 1) == Some(bodies[5]);
    }
  }

  lemma FrameLength(f: SignatureFrame)
    ensures |EncodeSignatureFrame(f)| == 60 + |f.chainId| + |f.messageType| + |f.payload|
  {
    hide EncodeSchema, LeBytes;
    var bodies := FrameBodies(f);
    SchemaLength(SIGNATURE_FRAME_TYPE_ID, SIGNATURE_FRAME_VERSION, bodies);
    TotalLengthFrom(bodies, 1);
    TotalLengthFrom(bodies, 2);
    TotalLengthFrom(bodies, 3);
    TotalLengthFrom(bodies, 4);
    TotalLengthFrom(bodies, 5);
  }

  lemma PayloadIsShort(input: seq<byte>, f: SignatureFrame)
    requires DecodeSignatureFrame(input) == Ok(f)
    ensures |f.payload| < 0x1_0000_0000
  {
    hide LeBytes, IsUtf8, IsBlank, LeValue, RequireOnly;
    var frame := OpenSchema(input, SIGNATURE_FRAME_TYPE_ID, SIGNATURE_FRAME_VERSION, ALLOWED_FIELDS).value;
    DecodeFrameExactly(input, frame);
    LookupOutcome(frame.fields, 6);
  }

  /** The signature-frame decoder and its printer are mutually inverse. */
  lemma SignatureFrameExactly(input: seq<byte>, f: SignatureFrame)
    ensures DecodeSignatureFrame(input) == Ok(f) <==> WellFormed(f) && input == EncodeSignatureFrame(f)
  {
    hide OpenSchema, EncodeSchema, DecodeFrameFields, FieldsSay, Holds, FrameBodies, IsUtf8, IsBlank;
    if DecodeSignatureFrame(input) == Ok(f) {
      PayloadIsShort(input, f);
    }
    if |f.payload| < 0x1_0000_0000 {
      BodiesFit(f);
      var outer := OpenSchema(input, SIGNATURE_FRAME_TYPE_ID, SIGNATURE_FRAME_VERSION, ALLOWED_FIELDS);
      if outer.Ok? {
        DecodedFieldsExactly(outer.value, f);
        FieldsSayBodies(outer.value.fields, f);
      }
      if WellFormed(f) {
        SchemaExactly(input, SIGNATURE_FRAME_TYPE_ID, SIGNATURE_FRAME_VERSION, ALLOWED_FIELDS, FrameBodies(f));
      }
    }
  }

  lemma BodiesFit(f: SignatureFrame)
    requires |f.payload| < 0x1_0000_0000
    ensures WellFormed(f) ==> Fits(FrameBodies(f))
    ensures forall id: u16 :: id in ALLOWED_FIELDS <==> 1 <= id <= 6
  {
    hide LeBytes, IsUtf8, IsBlank;
    forall id: u16 | 1 <= id <= 6
      ensures id in ALLOWED_FIELDS
    {
      assert ALLOWED_FIELDS[id - 1] == id;
    }
  }

  /** Hence two accepted inputs that decode alike are the same input. */
  lemma SignatureFrameDecodingIsInjective(a: seq<byte>, b: seq<byte>)
    requires DecodeSignatureFrame(a).Ok?
    requires DecodeSignatureFrame(a) == DecodeSignatureFrame(b)
    ensures a == b
  {
    hide DecodeSignatureFrame, EncodeSignatureFrame, WellFormed;
    var f := DecodeSignatureFrame(a).value;
    SignatureFrameExactly(a, f);
    SignatureFrameExactly(b, f);
  }
}
