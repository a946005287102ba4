// The clear-signing review, and the proof that it loses nothing of the signed frame.
module Review {
  import opened Wrappers
  import opened Bytes
  import opened Text
  import opened Types
  import opened Policy
  import Transaction
  import opened TransactionCodec
  import SignatureFrames

  const TRANSACTION_V1_MESSAGE_TYPE: seq<byte> := AsBytes("transaction-v1")

  datatype ReviewError =
    | UnsupportedMessageType
    | UnsupportedSignatureScheme
    | SignedContextMismatch
    | PolicyRejected(policy: PolicyError)

  datatype FeeLine = FeeLine(
    assetId: AssetId, maxFee: u64, feeObjectId: ObjectId, feeObjectVersion: u64,
    feeObjectDigest: Digest32)

  datatype ClearSigningReview = ClearSigningReview(
    chainId: seq<byte>,
    protocolVersion: u32,
    epoch: u64,
    messageType: seq<byte>,
    scheme: SignatureSchemeId,
    sender: Address,
    nonce: u64,
    moduleId: ObjectId,
    moduleVersion: u64,
    moduleDigest: Digest32,
    entrypoint: seq<byte>,
    amount: u64,
    amountLabel: string,
    gasLimit: u64,
    accessEntries: seq<AccessEntry>,
    fee: Option<FeeLine>)

  function FeeLineOf(fee: Option<FeePayment>): Option<FeeLine> {
    match fee
    case None => None
    case Some(f) => Some(FeeLine(f.assetId, f.maxFee, f.feeObject.id, f.feeObject.version, f.feeObject.digest))
  }

  function BuildReview(f: SignatureFrames.SignatureFrame, t: Transaction.TransactionSignable,
                       p: ClearSigningPolicy): Result<ClearSigningReview, ReviewError>
  {
    if f.messageType != TRANSACTION_V1_MESSAGE_TYPE then Err(UnsupportedMessageType)
    else if f.scheme != Ed25519 then Err(UnsupportedSignatureScheme)
    else if t.chainId != f.chainId || t.protocolVersion != f.protocolVersion || t.epoch != f.epoch then
      Err(SignedContextMismatch)
    else match p.Recognize(t)
         case Err(e) => Err(PolicyRejected(e))
         case Ok(amount) =>
           Ok(ClearSigningReview(f.chainId, f.protocolVersion, f.epoch, f.messageType, f.scheme,
                                 t.sender, t.nonce, t.moduleRef.id, t.moduleRef.version,
                                 t.moduleRef.digest, t.entrypoint, amount, p.argsLabel, t.gasLimit,
                                 t.accessManifest, FeeLineOf(t.feePayment)))
  }

  /** Both strict decodes, then the review. */
  function ReviewOf(p: ClearSigningPolicy, input: seq<byte>): Option<ClearSigningReview> {
    match SignatureFrames.DecodeSignatureFrame(input)
    case Err(_) => None
    case Ok(f) =>
      match Transaction.DecodeTransactionSignable(f.payload)
      case Err(_) => None
      case Ok(t) =>
        match BuildReview(f, t, p)
        case Err(_) => None
        case Ok(review) => Some(review)
  }

  // ----- From a review back to the signed bytes -----

  /** The transaction a review stands for: the context comes from the outer frame's copy, the
      arguments from the amount and the policy. */
  function TransactionOf(p: ClearSigningPolicy, r: ClearSigningReview): Transaction.TransactionSignable
  {
    Transaction.TransactionSignable(
      r.chainId, r.protocolVersion, r.epoch, r.sender, r.nonce, r.accessEntries,
      ObjectRef(r.moduleId, r.moduleVersion, r.moduleDigest), r.entrypoint, p.ArgsBytes(r.amount),
      r.gasLimit, FeeOf(r.fee))
  }

  function FeeOf(fee: Option<FeeLine>): Option<FeePayment> {
    match fee
    case None => None
    case Some(f) =>
      Some(FeePayment(f.assetId, f.maxFee, ObjectRef(f.feeObjectId, f.feeObjectVersion, f.feeObjectDigest)))
  }

  function FrameOf(p: ClearSigningPolicy, r: ClearSigningReview): SignatureFrames.SignatureFrame
    requires |r.accessEntries| <= MAX_ACCESS_ENTRIES
  {
    SignatureFrames.SignatureFrame(r.chainId, r.protocolVersion, r.epoch, r.messageType, r.scheme,
                                   EncodeTransaction(TransactionOf(p, r)))
  }

  function SignedBytesOf(p: ClearSigningPolicy, r: ClearSigningReview): seq<byte>
    requires |r.accessEntries| <= MAX_ACCESS_ENTRIES
  {
    SignatureFrames.EncodeSignatureFrame(FrameOf(p, r))
  }

  /** The reviews a policy can produce, said field by field. */
  predicate Reviewable(p: ClearSigningPolicy, r: ClearSigningReview) {
    && r.chainId == p.chainId && r.protocolVersion == p.protocolVersion && r.epoch == p.epoch
    && |r.chainId| <= SignatureFrames.MAX_CHAIN_ID_BYTES && IsUtf8(r.chainId) && !IsBlank(r.chainId)
    && r.messageType == TRANSACTION_V1_MESSAGE_TYPE && r.scheme == Ed25519
    && ObjectRef(r.moduleId, r.moduleVersion, r.moduleDigest) == p.ModuleRef()
    && r.entrypoint == p.entrypoint
    && 0 < |r.entrypoint| <= Transaction.MAX_ENTRYPOINT_BYTES && IsUtf8(r.entrypoint)
    && r.amount != 0 && r.amountLabel == p.argsLabel
    && ClearSigningPolicy.IsTransferAccess(r.accessEntries) && DistinctObjects(r.accessEntries)
    && r.fee.Some? && r.fee.value.assetId == p.feeAssetId
    && FeeOf(r.fee).value.feeObject == r.accessEntries[0].objectRef
  }

  /** "transaction-v1", byte by byte. */
  lemma MessageTypeBytes()
    ensures TRANSACTION_V1_MESSAGE_TYPE
            == [0x74, 0x72, 0x61, 0x6E, 0x73, 0x61, 0x63, 0x74, 0x69, 0x6F, 0x6E, 0x2D, 0x76, 0x31]
    ensures IsAscii(TRANSACTION_V1_MESSAGE_TYPE)
  {
    hide IsUtf8, IsBlank;
  }

  lemma MessageTypeText()
    ensures |TRANSACTION_V1_MESSAGE_TYPE| == 14
    ensures IsUtf8(TRANSACTION_V1_MESSAGE_TYPE) && !IsBlank(TRANSACTION_V1_MESSAGE_TYPE)
  {
    hide IsUtf8, TRANSACTION_V1_MESSAGE_TYPE;
    MessageTypeBytes();
    AsciiIsUtf8(TRANSACTION_V1_MESSAGE_TYPE);
    assert LeadingSpaceLength(TRANSACTION_V1_MESSAGE_TYPE) == 0;
  }

  lemma FeeRoundTrip(fee: Option<FeePayment>, line: Option<FeeLine>)
    ensures FeeLineOf(fee) == line <==> fee == FeeOf(line)
  {
  }

  /** The decoded values that yield a review are the ones rebuilt from it. */
  lemma BuildReviewExactly(f: SignatureFrames.SignatureFrame, t: Transaction.TransactionSignable,
                           p: ClearSigningPolicy, r: ClearSigningReview)
    requires SignatureFrames.WellFormed(f) && WellFormed(t)
    ensures BuildReview(f, t, p) == Ok(r)
            <==> Reviewable(p, r) && t == TransactionOf(p, r)
                 && f == SignatureFrames.SignatureFrame(r.chainId, r.protocolVersion, r.epoch,
                                                        r.messageType, r.scheme, f.payload)
  {
    hide IsUtf8, IsBlank, DistinctObjects, ClearSigningPolicy.Recognize, ClearSigningPolicy.ArgsBytes,
         TRANSACTION_V1_MESSAGE_TYPE, FeeLineOf;
    RecognizeExactly(p, t, r.amount);
    FeeRoundTrip(t.feePayment, r.fee);
  }

  /** A refusal names something that is really wrong. */
  lemma ReviewRefusalIsApt(f: SignatureFrames.SignatureFrame, t: Transaction.TransactionSignable,
                           p: ClearSigningPolicy)
    ensures match BuildReview(f, t, p)
            case Ok(_) => true
            case Err(UnsupportedMessageType) => f.messageType != TRANSACTION_V1_MESSAGE_TYPE
            case Err(UnsupportedSignatureScheme) => f.scheme == Secp256k1
            case Err(SignedContextMismatch) =>
              !(t.chainId == f.chainId && t.protocolVersion == f.protocolVersion && t.epoch == f.epoch)
            case Err(PolicyRejected(e)) => p.Recognize(t) == Err(e)
  {
    hide ClearSigningPolicy.Recognize, TRANSACTION_V1_MESSAGE_TYPE;
  }

  /** The secp256k1 scheme is no frame error: every well-formed frame with it decodes. It is the
      review that turns such a frame away, whatever transaction it carries. */
  lemma Secp256k1IsRejectedByReview(f: SignatureFrames.SignatureFrame, t: Transaction.TransactionSignable,
                                    p: ClearSigningPolicy)
    requires SignatureFrames.WellFormed(f)
    ensures var g := f.(scheme := Secp256k1);
            && SignatureFrames.DecodeSignatureFrame(SignatureFrames.EncodeSignatureFrame(g)) == Ok(g)
            && BuildReview(g, t, p).Err?
            && ReviewOf(p, SignatureFrames.EncodeSignatureFrame(g)) == None
            && (g.messageType == TRANSACTION_V1_MESSAGE_TYPE ==>
                  BuildReview(g, t, p) == Err(UnsupportedSignatureScheme))
  {
    hide IsUtf8, IsBlank, SignatureFrames.DecodeSignatureFrame, SignatureFrames.EncodeSignatureFrame,
         ClearSigningPolicy.Recognize, Transaction.DecodeTransactionSignable;
    var g := f.(scheme := Secp256k1);
    SignatureFrames.SignatureFrameExactly(SignatureFrames.EncodeSignatureFrame(g), g);
  }

  /** The review keeps everything: an input is reviewed as `r` exactly when `r` is reviewable and
      the input is the frame rebuilt from `r`. */
  lemma ReviewExactly(p: ClearSigningPolicy, input: seq<byte>, r: ClearSigningReview)
    ensures ReviewOf(p, input) == Some(r) <==> Reviewable(p, r) && input == SignedBytesOf(p, r)
  {
    hide Reviewable, BuildReview, TransactionOf, SignatureFrames.DecodeSignatureFrame,
         SignatureFrames.EncodeSignatureFrame, EncodeTransaction, WellFormed, SignatureFrames.WellFormed,
         Transaction.DecodeTransactionSignable;
    if ReviewOf(p, input) == Some(r) {
      var f := SignatureFrames.DecodeSignatureFrame(input).value;
      var t := Transaction.DecodeTransactionSignable(f.payload).value;
      SignatureFrames.SignatureFrameExactly(input, f);
      TransactionExactly(f.payload, t);
      BuildReviewExactly(f, t, p, r);
      ReviewableHasThreeEntries(p, r);
    }
    if Reviewable(p, r) {
      ReviewableHasThreeEntries(p, r);
      RebuiltIsWellFormed(p, r);
      var f, t := FrameOf(p, r), TransactionOf(p, r);
      SignatureFrames.SignatureFrameExactly(SignedBytesOf(p, r), f);
      TransactionExactly(f.payload, t);
      BuildReviewExactly(f, t, p, r);
    }
  }

  lemma ReviewableHasThreeEntries(p: ClearSigningPolicy, r: ClearSigningReview)
    requires Reviewable(p, r)
    ensures |r.accessEntries| == 3 && TransactionOf(p, r).accessManifest == r.accessEntries
  {
  }

  lemma RebuiltTransactionIsWellFormed(p: ClearSigningPolicy, r: ClearSigningReview)
    requires Reviewable(p, r)
    ensures WellFormed(TransactionOf(p, r))
  {
    hide IsUtf8, IsBlank, DistinctObjects, ClearSigningPolicy.ArgsBytes, FeeOf, AsBytes;
    ArgsFrameIsCanonical(p, r.amount);
  }

  lemma RebuiltIsWellFormed(p: ClearSigningPolicy, r: ClearSigningReview)
    requires Reviewable(p, r)
    ensures |r.accessEntries| <= MAX_ACCESS_ENTRIES
    ensures WellFormed(TransactionOf(p, r)) && SignatureFrames.WellFormed(FrameOf(p, r))
  {
    hide IsUtf8, IsBlank, WellFormed, TransactionOf, EncodeTransaction, FeeOf, AsBytes;
    MessageTypeText();
    RebuiltTransactionIsWellFormed(p, r);
    ReviewableHasThreeEntries(p, r);
    TransactionLength(TransactionOf(p, r));
  }

  /** The profile's bounds of 3072 payload bytes and 4096 frame bytes never stand in the way of a
      frame that would otherwise be reviewed: such a frame is much shorter. */
  lemma ReviewedInputsAreShort(p: ClearSigningPolicy, input: seq<byte>)
    requires ReviewOf(p, input).Some?
    ensures |input| <= 2306
    ensures |SignatureFrames.DecodeSignatureFrame(input).value.payload| <= 2168
  {
    hide Reviewable, BuildReview, TransactionOf, SignatureFrames.DecodeSignatureFrame, WellFormed,
         SignatureFrames.EncodeSignatureFrame, EncodeTransaction,
         Transaction.DecodeTransactionSignable;
    var r := ReviewOf(p, input).value;
    var f := SignatureFrames.DecodeSignatureFrame(input).value;
    var t := Transaction.DecodeTransactionSignable(f.payload).value;
    ReviewExactly(p, input, r);
    SignatureFrames.SignatureFrameExactly(input, f);
    TransactionExactly(f.payload, t);
    TransactionLength(t);
    SignatureFrames.FrameLength(f);
    BuildReviewExactly(f, t, p, r);
    MessageTypeOf(p, r);
  }

  lemma MessageTypeOf(p: ClearSigningPolicy, r: ClearSigningReview)
    requires Reviewable(p, r)
    ensures |r.messageType| == 14
  {
    MessageTypeText();
  }

  /** Recognition is not vacuous: under any policy whose own texts are decodable, every amount
      from 1 up and every sender have an input that is reviewed with that amount and sender. */
  lemma EveryAmountIsReachable(p: ClearSigningPolicy, amount: u64, sender: Address)
    returns (input: seq<byte>, r: ClearSigningReview)
    requires |p.chainId| <= SignatureFrames.MAX_CHAIN_ID_BYTES && IsUtf8(p.chainId) && !IsBlank(p.chainId)
    requires 0 < |p.entrypoint| <= Transaction.MAX_ENTRYPOINT_BYTES && IsUtf8(p.entrypoint)
    requires amount != 0
    ensures ReviewOf(p, input) == Some(r) && r.amount == amount && r.sender == sender
  {
    hide IsUtf8, IsBlank, ReviewOf, SignedBytesOf, AsBytes;
    var digest := Digest32(Sha2_256, ZERO_32);
    var a := AccessEntry(ObjectRef(ZERO_32[0 := 1], 0, digest), Write);
    var b := AccessEntry(ObjectRef(ZERO_32[0 := 2], 0, digest), Write);
    var c := AccessEntry(ObjectRef(ZERO_32[0 := 3], 0, digest), Write);
    assert ZERO_32[0 := 1][0] == 1 && ZERO_32[0 := 2][0] == 2 && ZERO_32[0 := 3][0] == 3;
    r := ClearSigningReview(
      p.chainId, p.protocolVersion, p.epoch, TRANSACTION_V1_MESSAGE_TYPE, Ed25519, sender, 0,
      p.moduleId, p.moduleVersion, Digest32(p.codeDigestAlgorithm, p.codeDigestBytes), p.entrypoint,
      amount, p.argsLabel, 0, [a, b, c],
      Some(FeeLine(p.feeAssetId, 0, a.objectRef.id, a.objectRef.version, a.objectRef.digest)));
    input := SignedBytesOf(p, r);
    ReviewExactly(p, input, r);
  }
}
