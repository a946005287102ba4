// The strict decoder of the signable transaction and of every frame nested in it.
module Transaction {
  import opened Wrappers
  import opened Bytes
  import opened Canonical
  import opened Schemas
  import opened Types

  const DIGEST_TYPE_ID: u16 := 0x0103
  const OBJECT_ID_TYPE_ID: u16 := 0x4001
  const OBJECT_REF_TYPE_ID: u16 := 0x4004
  const ACCESS_MODE_TYPE_ID: u16 := 0x4006
  const ACCESS_ENTRY_TYPE_ID: u16 := 0x5001
  const ACCESS_MANIFEST_TYPE_ID: u16 := 0x5002
  const TRANSACTION_TYPE_ID: u16 := 0x6001
  const ASSET_ID_TYPE_ID: u16 := 0x7001
  const FEE_PAYMENT_TYPE_ID: u16 := 0x7002
  const ENCODING_VERSION: u16 := 1

  const MAX_CHAIN_ID_BYTES: nat := 64
  const MAX_ENTRYPOINT_BYTES: nat := 64
  const MAX_ARGS_BYTES: nat := 40

  datatype TransactionError =
    | CanonicalFailure(canonical: CanonicalError)
    | ChainId(chainId: BoundedStrError)
    | Sender
    | Entrypoint(entrypoint: BoundedStrError)
    | EmptyEntrypoint
    | Args(args: CapacityError)
    | ObjectIdShape
    | UnknownAccessMode(mode: byte)
    | AccessManifestShape
    | DuplicateObjectId(id: ObjectId)
    | UnknownHashAlgorithm(algorithm: u16)

  datatype TransactionSignable = TransactionSignable(
    chainId: seq<byte>,
    protocolVersion: u32,
    epoch: u64,
    sender: Address,
    nonce: u64,
    accessManifest: seq<AccessEntry>,
    moduleRef: ObjectRef,
    entrypoint: seq<byte>,
    args: seq<byte>,
    gasLimit: u64,
    feePayment: Option<FeePayment>)

  function Lift<T>(r: Result<T, CanonicalError>): Result<T, TransactionError> {
    match r
    case Ok(v) => Ok(v)
    case Err(e) => Err(CanonicalFailure(e))
  }

  function DecodeDigest32(input: seq<byte>): Result<Digest32, TransactionError> {
    var frame :- Lift(OpenSchema(input, DIGEST_TYPE_ID, 1, [1, 2]));
    var algorithmId :- Lift(RequiredU16(frame, 1));
    match HashAlgorithmId.TryFromU16(algorithmId)
    case None => Err(UnknownHashAlgorithm(algorithmId))
    case Some(algorithm) =>
      var bytes :- Lift(RequiredBytes(frame, 2, 32));
      Ok(Digest32(algorithm, bytes))
  }

  /** The shape shared by object ids and asset ids: one 32-byte field. */
  function DecodeId(input: seq<byte>, typeId: u16): Result<Bytes32, TransactionError> {
    var frame :- Lift(OpenSchema(input, typeId, 1, [1]));
    match RequiredBytes(frame, 1, 32)
    case Err(_) => Err(ObjectIdShape)
    case Ok(bytes) => Ok(bytes)
  }

  function DecodeObjectId(input: seq<byte>): Result<ObjectId, TransactionError> {
    DecodeId(input, OBJECT_ID_TYPE_ID)
  }

  function DecodeAssetId(input: seq<byte>): Result<AssetId, TransactionError> {
    DecodeId(input, ASSET_ID_TYPE_ID)
  }

  function DecodeObjectRef(input: seq<byte>): Result<ObjectRef, TransactionError> {
    var frame :- Lift(OpenSchema(input, OBJECT_REF_TYPE_ID, 1, [1, 2, 3]));
    var idBytes :- Lift(RequiredField(frame, 1));
    var id :- DecodeObjectId(idBytes);
    var version :- Lift(RequiredU64(frame, 2));
    var digestBytes :- Lift(RequiredField(frame, 3));
    var digest :- DecodeDigest32(digestBytes);
    Ok(ObjectRef(id, version, digest))
  }

  function DecodeAccessMode(input: seq<byte>): Result<AccessMode, TransactionError> {
    var frame :- Lift(OpenSchema(input, ACCESS_MODE_TYPE_ID, 1, [1]));
    var bytes :- Lift(RequiredBytes(frame, 1, 1));
    match AccessMode.TryFromU8(bytes[0])
    case None => Err(UnknownAccessMode(bytes[0]))
    case Some(mode) => Ok(mode)
  }

  function DecodeAccessEntry(input: seq<byte>): Result<AccessEntry, TransactionError> {
    var frame :- Lift(OpenSchema(input, ACCESS_ENTRY_TYPE_ID, 1, [1, 2]));
    var refBytes :- Lift(RequiredField(frame, 1));
    var objectRef :- DecodeObjectRef(refBytes);
    var modeBytes :- Lift(RequiredField(frame, 2));
    var mode :- DecodeAccessMode(modeBytes);
    Ok(AccessEntry(objectRef, mode))
  }

  /** Entries `index` to `count - 1`, kept in fields `index + 2` to `count + 1`. */
  function DecodeEntries(frame: Frame, count: nat, index: nat)
    : Result<seq<AccessEntry>, TransactionError>
    requires index <= count < NUMBER_LIMIT - 1
    decreases count - index
  {
    if index == count then Ok([])
    else
      var bytes :- Lift(RequiredField(frame, index + 2));
      var entry :- DecodeAccessEntry(bytes);
      var rest :- DecodeEntries(frame, count, index + 1);
      Ok([entry] + rest)
  }

  predicate HasObject(entries: seq<AccessEntry>, id: ObjectId) {
    exists i :: 0 <= i < |entries| && entries[i].objectRef.id == id
  }

  /** The first entry whose object a later entry names again. */
  function FirstDuplicate(entries: seq<AccessEntry>): Option<ObjectId> {
    if entries == [] then None
    else if HasObject(entries[1..], entries[0].objectRef.id) then Some(entries[0].objectRef.id)
    else FirstDuplicate(entries[1..])
  }

  /** The manifest decoder under the profile's bound, the only bound its caller passes. */
  function DecodeAccessManifest(input: seq<byte>): Result<seq<AccessEntry>, TransactionError> {
    var frame :- Lift(DecodeTyped(input, ACCESS_MANIFEST_TYPE_ID, 1));
    var declared :- Lift(RequiredU32(frame, 1));
    if declared > MAX_ACCESS_ENTRIES || |frame.fields| != declared + 1 then Err(AccessManifestShape)
    else
      var entries :- DecodeEntries(frame, declared, 0);
      match FirstDuplicate(entries)
      case Some(id) => Err(DuplicateObjectId(id))
      case None => Ok(entries)
  }

  function DecodeFeePayment(input: seq<byte>): Result<FeePayment, TransactionError> {
    var frame :- Lift(OpenSchema(input, FEE_PAYMENT_TYPE_ID, 1, [1, 2, 3]));
    var assetBytes :- Lift(RequiredField(frame, 1));
    var assetId :- DecodeAssetId(assetBytes);
    var maxFee :- Lift(RequiredU64(frame, 2));
    var objectBytes :- Lift(RequiredField(frame, 3));
    var feeObject :- DecodeObjectRef(objectBytes);
    Ok(FeePayment(assetId, maxFee, feeObject))
  }

  function DecodeOptionalFee(bytes: Option<seq<byte>>): Result<Option<FeePayment>, TransactionError> {
    match bytes
    case None => Ok(None)
    case Some(b) =>
      var fee :- DecodeFeePayment(b);
      Ok(Some(fee))
  }

  function DecodeChainId(bytes: seq<byte>): Result<seq<byte>, TransactionError> {
    match FromUtf8Slice(bytes, MAX_CHAIN_ID_BYTES)
    case Err(e) => Err(ChainId(e))
    case Ok(text) => Ok(text)
  }

  function DecodeEntrypoint(bytes: seq<byte>): Result<seq<byte>, TransactionError> {
    match FromUtf8Slice(bytes, MAX_ENTRYPOINT_BYTES)
    case Err(e) => Err(Entrypoint(e))
    case Ok(text) => if text == [] then Err(EmptyEntrypoint) else Ok(text)
  }

  function DecodeSender(frame: Frame): Result<Address, TransactionError> {
    match RequiredBytes(frame, 4, 32)
    case Err(_) => Err(Sender)
    case Ok(bytes) => Ok(bytes)
  }

  function DecodeArgs(bytes: seq<byte>): Result<seq<byte>, TransactionError> {
    if |bytes| > MAX_ARGS_BYTES then Err(Args(CapacityError(|bytes|, MAX_ARGS_BYTES))) else Ok(bytes)
  }

  const ALLOWED_FIELDS: seq<u16> := [1, 2, 3, 4, 5, 6, 7, 8, 9, 10, 11]

  function DecodeTransactionSignable(input: seq<byte>): Result<TransactionSignable, TransactionError> {
    var frame :- Lift(OpenSchema(input, TRANSACTION_TYPE_ID, ENCODING_VERSION, ALLOWED_FIELDS));
    DecodeTransactionFields(frame)
  }

  function DecodeTransactionFields(frame: Frame): Result<TransactionSignable, TransactionError> {
    var chainIdBytes :- Lift(RequiredField(frame, 1));
    var chainId :- DecodeChainId(chainIdBytes);
    var protocolVersion :- Lift(RequiredU32(frame, 2));
    var epoch :- Lift(RequiredU64(frame, 3));
    var sender :- DecodeSender(frame);
    var nonce :- Lift(RequiredU64(frame, 5));
    var manifestBytes :- Lift(RequiredField(frame, 6));
    var accessManifest :- DecodeAccessManifest(manifestBytes);
    var moduleBytes :- Lift(RequiredField(frame, 7));
    var moduleRef :- DecodeObjectRef(moduleBytes);
    var entrypointBytes :- Lift(RequiredField(frame, 8));
    var entrypoint :- DecodeEntrypoint(entrypointBytes);
    var argsBytes :- Lift(RequiredField(frame, 9));
    var args :- DecodeArgs(argsBytes);
    var gasLimit :- Lift(RequiredU64(frame, 10));
    var feePayment :- DecodeOptionalFee(Lookup(frame.fields, 11));
    Ok(TransactionSignable(chainId, protocolVersion, epoch, sender, nonce, accessManifest,
                           moduleRef, entrypoint, args, gasLimit, feePayment))
  }
}
