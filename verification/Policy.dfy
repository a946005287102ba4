// The exact-match clear-signing policy, over an arbitrary policy value.
module Policy {
  import opened Wrappers
  import opened Bytes
  import opened Canonical
  import opened Schemas
  import opened Types
  import opened Transaction

  datatype PolicyError =
    | WrongChainId
    | WrongProtocolVersion
    | WrongEpoch
    | WrongModuleId
    | WrongModuleVersion
    | WrongModuleDigestAlgorithm
    | WrongModuleDigest
    | WrongEntrypoint
    | AccessShape
    | FeeRequired
    | FeeObjectMismatch
    | FeeAsset
    | ArgumentsEncoding
    | ArgumentsTypeId(typeId: u16)
    | ArgumentsVersion(version: u16)
    | ArgumentsShape
    | ZeroAmount

  datatype ClearSigningPolicy = ClearSigningPolicy(
    chainId: seq<byte>,
    protocolVersion: u32,
    epoch: u64,
    moduleId: Bytes32,
    moduleVersion: u64,
    codeDigestAlgorithm: HashAlgorithmId,
    codeDigestBytes: Bytes32,
    entrypoint: seq<byte>,
    argsTypeId: u16,
    argsVersion: u16,
    argsFieldId: u16,
    argsLabel: string,
    feeAssetId: Bytes32)
  {
    /** Recognizes one signed transaction in full and returns its transfer amount. */
    function Recognize(t: TransactionSignable): Result<u64, PolicyError> {
      if t.chainId != chainId then Err(WrongChainId)
      else if t.protocolVersion != protocolVersion then Err(WrongProtocolVersion)
      else if t.epoch != epoch then Err(WrongEpoch)
      else if t.moduleRef.id != moduleId then Err(WrongModuleId)
      else if t.moduleRef.version != moduleVersion then Err(WrongModuleVersion)
      else if t.moduleRef.digest.algorithm != codeDigestAlgorithm then Err(WrongModuleDigestAlgorithm)
      else if t.moduleRef.digest.bytes != codeDigestBytes then Err(WrongModuleDigest)
      else if t.entrypoint != entrypoint then Err(WrongEntrypoint)
      else if |t.accessManifest| != 3 || (exists e :: e in t.accessManifest && e.mode != Write) then
        Err(AccessShape)
      else if t.feePayment.None? then Err(FeeRequired)
      else if t.feePayment.value.feeObject != t.accessManifest[0].objectRef then Err(FeeObjectMismatch)
      else if t.feePayment.value.assetId != feeAssetId then Err(FeeAsset)
      else RecognizeArgs(t.args)
    }

    function RecognizeArgs(args: seq<byte>): Result<u64, PolicyError> {
      match DecodeFrame(args)
      case Err(_) => Err(ArgumentsEncoding)
      case Ok(frame) =>
        if frame.typeId != argsTypeId then Err(ArgumentsTypeId(frame.typeId))
        else if frame.version != argsVersion then Err(ArgumentsVersion(frame.version))
        else if RequireOnly(frame.fields, [argsFieldId]).Err? then Err(ArgumentsShape)
        else match RequiredU64(frame, argsFieldId)
             case Err(_) => Err(ArgumentsShape)
             case Ok(value) => if value == 0 then Err(ZeroAmount) else Ok(value)
    }

    /** The one-field frame that carries an amount. */
    function ArgsFrame(amount: u64): Frame {
      Frame(argsTypeId, argsVersion, [Field(argsFieldId, LeBytes(amount, 8))])
    }

    function ArgsBytes(amount: u64): seq<byte> {
      EncodeFrame(ArgsFrame(amount))
    }

    /** Everything recognition requires of a transaction, its arguments apart. */
    predicate Matches(t: TransactionSignable) {
      && t.chainId == chainId && t.protocolVersion == protocolVersion && t.epoch == epoch
      && t.moduleRef == ModuleRef()
      && t.entrypoint == entrypoint
      && IsTransferAccess(t.accessManifest)
      && t.feePayment.Some?
      && t.feePayment.value.feeObject == t.accessManifest[0].objectRef
      && t.feePayment.value.assetId == feeAssetId
    }

    function ModuleRef(): ObjectRef {
      ObjectRef(moduleId, moduleVersion, Digest32(codeDigestAlgorithm, codeDigestBytes))
    }

    static predicate IsTransferAccess(entries: seq<AccessEntry>) {
      |entries| == 3 && entries[0].mode == Write && entries[1].mode == Write && entries[2].mode == Write
    }
  }

  lemma ArgsFrameIsCanonical(p: ClearSigningPolicy, amount: u64)
    ensures IsCanonical(p.ArgsFrame(amount))
    ensures |p.ArgsBytes(amount)| == 24
  {
    hide LeBytes;
    var fields := p.ArgsFrame(amount).fields;
    EncodeFieldsLength(fields);
    assert fields[1..] == [];
  }

  /** Recognized arguments are byte for byte the one frame that carries the amount. */
  lemma ArgsExactly(p: ClearSigningPolicy, args: seq<byte>, amount: u64)
    ensures p.RecognizeArgs(args) == Ok(amount) <==> amount != 0 && args == p.ArgsBytes(amount)
  {
    hide DecodeFrame, EncodeFrame, LeBytes, RequiredU64, IsCanonical;
    ArgsFrameIsCanonical(p, amount);
    DecodeFrameExactly(args, p.ArgsFrame(amount));
    if DecodeFrame(args).Ok? {
      var frame := DecodeFrame(args).value;
      DecodeFrameExactly(args, frame);
      RequiredU64Exactly(frame, p.argsFieldId, amount);
      if p.RecognizeArgs(args) == Ok(amount) {
        OneAllowedField(frame, p.argsFieldId);
        assert frame == p.ArgsFrame(amount);
      }
      RequireOnlyOutcome(frame.fields, [p.argsFieldId]);
    }
  }

  lemma {:induction false} OneAllowedField(frame: Frame, id: u16)
    requires IsCanonical(frame)
    requires RequireOnly(frame.fields, [id]).Ok?
    requires Lookup(frame.fields, id).Some?
    ensures frame.fields == [Field(id, Lookup(frame.fields, id).value)]
  {
    var fields := frame.fields;
    RequireOnlyOutcome(fields, [id]);
    assert fields != [];
    IdsGrow(fields, |fields| - 1);
    assert fields[0].id == id == fields[|fields| - 1].id;
  }

  /** A refusal names something that is really wrong. */
  lemma RefusalIsApt(p: ClearSigningPolicy, t: TransactionSignable)
    ensures match p.Recognize(t)
            case Ok(_) => true
            case Err(WrongChainId) => t.chainId != p.chainId
            case Err(WrongProtocolVersion) => t.protocolVersion != p.protocolVersion
            case Err(WrongEpoch) => t.epoch != p.epoch
            case Err(WrongModuleId) => t.moduleRef.id != p.moduleId
            case Err(WrongModuleVersion) => t.moduleRef.version != p.moduleVersion
            case Err(WrongModuleDigestAlgorithm) => t.moduleRef.digest.algorithm != p.codeDigestAlgorithm
            case Err(WrongModuleDigest) => t.moduleRef.digest.bytes != p.codeDigestBytes
            case Err(WrongEntrypoint) => t.entrypoint != p.entrypoint
            case Err(AccessShape) => !ClearSigningPolicy.IsTransferAccess(t.accessManifest)
            case Err(FeeRequired) => t.feePayment == None
            case Err(FeeObjectMismatch) =>
              t.feePayment.Some? && |t.accessManifest| == 3
              && t.feePayment.value.feeObject != t.accessManifest[0].objectRef
            case Err(FeeAsset) => t.feePayment.Some? && t.feePayment.value.assetId != p.feeAssetId
            case Err(ArgumentsEncoding) => DecodeFrame(t.args).Err?
            case Err(ArgumentsTypeId(id)) =>
              DecodeFrame(t.args).Ok? && DecodeFrame(t.args).value.typeId == id != p.argsTypeId
            case Err(ArgumentsVersion(version)) =>
              DecodeFrame(t.args).Ok? && DecodeFrame(t.args).value.version == version != p.argsVersion
            case Err(ArgumentsShape) =>
              DecodeFrame(t.args).Ok?
              && forall v: u64 :: DecodeFrame(t.args).value.fields != [Field(p.argsFieldId, LeBytes(v, 8))]
            case Err(ZeroAmount) => t.args == p.ArgsBytes(0)
  {
    hide DecodeFrame, LeBytes, RequiredU64, EncodeFrame, IsCanonical;
    var m := t.accessManifest;
    if |m| == 3 {
      assert m[0] in m && m[1] in m && m[2] in m;
      assert forall e :: e in m ==> e == m[0] || e == m[1] || e == m[2];
    }
    if DecodeFrame(t.args).Ok? {
      ArgumentsRefusalIsApt(p, t.args, DecodeFrame(t.args).value);
    }
  }

  lemma ArgumentsRefusalIsApt(p: ClearSigningPolicy, args: seq<byte>, frame: Frame)
    requires DecodeFrame(args) == Ok(frame)
    ensures p.RecognizeArgs(args) == Err(ZeroAmount) ==> args == p.ArgsBytes(0)
    ensures p.RecognizeArgs(args) == Err(ArgumentsShape) ==>
              forall v: u64 :: frame.fields != [Field(p.argsFieldId, LeBytes(v, 8))]
  {
    hide DecodeFrame, LeBytes, RequiredU64, EncodeFrame, IsCanonical;
    DecodeFrameExactly(args, frame);
    RequireOnlyOutcome(frame.fields, [p.argsFieldId]);
    if p.RecognizeArgs(args) == Err(ZeroAmount) {
      RequiredU64Exactly(frame, p.argsFieldId, 0);
      OneAllowedField(frame, p.argsFieldId);
      assert frame == p.ArgsFrame(0);
    }
    forall v: u64 | frame.fields == [Field(p.argsFieldId, LeBytes(v, 8))]
      ensures p.RecognizeArgs(args) != Err(ArgumentsShape)
    {
      RequiredU64Exactly(frame, p.argsFieldId, v);
    }
  }

  /** Recognition returns an amount exactly when every policy condition holds, the amount is not
      zero, and the arguments are that amount's frame. */
  lemma RecognizeExactly(p: ClearSigningPolicy, t: TransactionSignable, amount: u64)
    ensures p.Recognize(t) == Ok(amount)
            <==> p.Matches(t) && amount != 0 && t.args == p.ArgsBytes(amount)
  {
    hide ClearSigningPolicy.RecognizeArgs, ClearSigningPolicy.ArgsBytes;
    ArgsExactly(p, t.args, amount);
    var m := t.accessManifest;
    if |m| == 3 {
      assert m[0] in m && m[1] in m && m[2] in m;
      assert forall e :: e in m ==> e == m[0] || e == m[1] || e == m[2];
    }
  }
}
