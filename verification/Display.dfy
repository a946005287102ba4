// The display theorems: what is shown is complete, and it determines every signed byte.
module Display {
  import opened Wrappers
  import opened Bytes
  import opened Text
  import opened Types
  import opened FactText
  import opened Policy
  import opened Review
  import opened ReviewUi
  import SignatureFrames
  import Transaction
  import TransactionCodec

  /** The facts shown for an input: both decodes, the review under the policy, the formatting. */
  function FactsOf(p: ClearSigningPolicy, input: seq<byte>): Option<seq<ReviewFact>> {
    match ReviewOf(p, input)
    case None => None
    case Some(r) =>
      match FormatReviewFacts(r)
      case Err(_) => None
      case Ok(facts) => Some(facts)
  }

  /** The bytes that a display of 32 facts stands for under a policy. */
  function BytesShownBy(p: ClearSigningPolicy, facts: seq<ReviewFact>): seq<byte>
    requires |facts| == 32
  {
    SignedBytesOf(p, ReadFacts(facts))
  }

  /** Every byte of an input can be recomputed from the 32 facts shown for it. */
  lemma DisplayDeterminesBytes(p: ClearSigningPolicy, input: seq<byte>)
    requires FactsOf(p, input).Some?
    ensures |FactsOf(p, input).value| == 32
    ensures BytesShownBy(p, FactsOf(p, input).value) == input
  {
    hide ReviewOf, FormatReviewFacts, SignedBytesOf, ReadFacts, Reviewable;
    var r := ReviewOf(p, input).value;
    FactsReadBack(r);
    ReviewExactly(p, input, r);
  }

  /** So two inputs that show the same facts under a policy are the same input. */
  lemma SameDisplaySameBytes(p: ClearSigningPolicy, a: seq<byte>, b: seq<byte>)
    requires FactsOf(p, a).Some? && FactsOf(p, a) == FactsOf(p, b)
    ensures a == b
  {
    hide FactsOf, BytesShownBy;
    DisplayDeterminesBytes(p, a);
    DisplayDeterminesBytes(p, b);
  }

  predicate Displayable(fact: ReviewFact) {
    |fact.value| <= MAX_FACT_LEN && IsAscii(fact.value)
  }

  /** A review is shown exactly when the policy's own texts are ASCII, and then all 32 values
      are ASCII text of at most 96 bytes, which is valid UTF-8. */
  lemma DisplayIsTotal(p: ClearSigningPolicy, input: seq<byte>)
    requires ReviewOf(p, input).Some?
    ensures FactsOf(p, input).Some? <==> IsAscii(p.chainId) && IsAscii(p.entrypoint)
    ensures FactsOf(p, input).Some? ==>
              |FactsOf(p, input).value| == 32
              && forall i :: 0 <= i < 32 ==> Displayable(FactsOf(p, input).value[i])
                                             && IsUtf8(FactsOf(p, input).value[i].value)
  {
    hide ReviewOf, SignedBytesOf, IsUtf8, IsBlank, TransactionCodec.DistinctObjects, IsAscii,
         TransactionCodec.EncodeTransaction, AccessFacts, FeeFacts, FormatReviewFacts;
    var r := ReviewOf(p, input).value;
    ReviewExactly(p, input, r);
    ReviewFormats(p, r);
    if FactsOf(p, input).Some? {
      FactsAreDisplayable(r);
      forall i | 0 <= i < 32
        ensures IsUtf8(FactsOf(p, input).value[i].value)
      {
        AsciiIsUtf8(FactsOf(p, input).value[i].value);
      }
    }
  }

  lemma ReviewFormats(p: ClearSigningPolicy, r: ClearSigningReview)
    requires Reviewable(p, r)
    ensures FormatReviewFacts(r).Ok? <==> IsAscii(p.chainId) && IsAscii(p.entrypoint)
  {
    hide IsUtf8, IsBlank, TransactionCodec.DistinctObjects, IsAscii, AccessFacts, FeeFacts;
    MessageTypeText();
  }

  lemma AccessFactsAreDisplayable(names: seq<string>, e: AccessEntry)
    requires |names| == 4
    ensures forall i :: 0 <= i < 4 ==> Displayable(AccessFacts(names, e)[i])
  {
    hide HexText, DigestText, Decimal, IsAscii, AsBytes;
    U64HasAtMost20Digits(e.objectRef.version);
  }

  lemma FeeFactsAreDisplayable(fee: FeeLine)
    ensures forall i :: 0 <= i < 6 ==> Displayable(FeeFacts(fee)[i])
  {
    hide HexText, DigestText, Decimal, IsAscii, AsBytes;
    U64HasAtMost20Digits(fee.maxFee);
    U64HasAtMost20Digits(fee.feeObjectVersion);
  }

  lemma HeadFactsAreDisplayable(r: ClearSigningReview, chainId: ReviewFact, messageType: ReviewFact,
                                entrypoint: ReviewFact)
    requires |r.accessEntries| == 3
    requires Displayable(chainId) && Displayable(messageType) && Displayable(entrypoint)
    ensures forall i :: 0 <= i < 14 ==> Displayable(HeadFacts(r, chainId, messageType, entrypoint)[i])
  {
    hide HexText, DigestText, Decimal, IsAscii, AsBytes;
    U64HasAtMost20Digits(r.protocolVersion);
    U64HasAtMost20Digits(r.epoch);
    U64HasAtMost20Digits(r.nonce);
    U64HasAtMost20Digits(r.moduleVersion);
    U64HasAtMost20Digits(r.amount);
    U64HasAtMost20Digits(r.gasLimit);
    U64HasAtMost20Digits(|r.accessEntries|);
  }

  lemma FactsAreDisplayable(r: ClearSigningReview)
    requires FormatReviewFacts(r).Ok?
    ensures |FormatReviewFacts(r).value| == 32
    ensures forall i :: 0 <= i < 32 ==> Displayable(FormatReviewFacts(r).value[i])
  {
    hide IsAscii, HeadFacts, AccessFacts, FeeFacts;
    HeadFactsAreDisplayable(r, TextFact("chain_id", r.chainId).value,
                            TextFact("message_type", r.messageType).value,
                            TextFact("entrypoint", r.entrypoint).value);
    AccessFactsAreDisplayable(ACCESS_NAMES[0], r.accessEntries[0]);
    AccessFactsAreDisplayable(ACCESS_NAMES[1], r.accessEntries[1]);
    AccessFactsAreDisplayable(ACCESS_NAMES[2], r.accessEntries[2]);
    FeeFactsAreDisplayable(r.fee.value);
  }

  // ----- The facts, in terms of the decoded frame and transaction -----

  function HeadSays(f: SignatureFrames.SignatureFrame, t: Transaction.TransactionSignable, amountLabel: string,
                    amount: u64): seq<ReviewFact>
  {
    [ReviewFact("chain_id", t.chainId),
     ReviewFact("protocol_version", Decimal(t.protocolVersion)),
     ReviewFact("epoch", Decimal(t.epoch)),
     ReviewFact("message_type", f.messageType),
     ReviewFact("scheme", AsBytes("ed25519")),
     ReviewFact("sender", HexText(t.sender)),
     ReviewFact("nonce", Decimal(t.nonce)),
     ReviewFact("module_id", HexText(t.moduleRef.id)),
     ReviewFact("module_version", Decimal(t.moduleRef.version)),
     ReviewFact("module_digest", DigestText(t.moduleRef.digest)),
     ReviewFact("entrypoint", t.entrypoint),
     ReviewFact(amountLabel, Decimal(amount)),
     ReviewFact("gas_limit", Decimal(t.gasLimit)),
     ReviewFact("manifest_count", AsBytes("3"))]
  }

  function AccessSays(mode: string, id: string, version: string, digest: string, r: ObjectRef): seq<ReviewFact> {
    [ReviewFact(mode, AsBytes("write")), ReviewFact(id, HexText(r.id)),
     ReviewFact(version, Decimal(r.version)), ReviewFact(digest, DigestText(r.digest))]
  }

  function FeeSays(fee: FeePayment): seq<ReviewFact> {
    [ReviewFact("fee_payment", AsBytes("present")),
     ReviewFact("fee_asset", HexText(fee.assetId)),
     ReviewFact("fee_max", Decimal(fee.maxFee)),
     ReviewFact("fee_object_id", HexText(fee.feeObject.id)),
     ReviewFact("fee_object_version", Decimal(fee.feeObject.version)),
     ReviewFact("fee_object_digest", DigestText(fee.feeObject.digest))]
  }

  /** What the user reads is what the signed bytes say: under each name stands the text of that very
      field of the decoded frame or transaction, and the amount is the one that the arguments carry. */
  lemma DisplayTellsTheTransaction(p: ClearSigningPolicy, input: seq<byte>)
    requires FactsOf(p, input).Some?
    ensures SignatureFrames.DecodeSignatureFrame(input).Ok?
    ensures var f := SignatureFrames.DecodeSignatureFrame(input).value;
            && Transaction.DecodeTransactionSignable(f.payload).Ok?
            && var t := Transaction.DecodeTransactionSignable(f.payload).value;
               var amount := ReviewOf(p, input).value.amount;
            && t.args == p.ArgsBytes(amount) && |t.accessManifest| == 3 && t.feePayment.Some?
            && FactsOf(p, input).value
               == HeadSays(f, t, p.argsLabel, amount)
                  + AccessSays("access[0].mode", "access[0].object_id", "access[0].version",
                               "access[0].digest", t.accessManifest[0].objectRef)
                  + AccessSays("access[1].mode", "access[1].object_id", "access[1].version",
                               "access[1].digest", t.accessManifest[1].objectRef)
                  + AccessSays("access[2].mode", "access[2].object_id", "access[2].version",
                               "access[2].digest", t.accessManifest[2].objectRef)
                  + FeeSays(t.feePayment.value)
  {
    hide SignatureFrames.DecodeSignatureFrame, Transaction.DecodeTransactionSignable, HeadFacts, AccessFacts,
         FeeFacts, HeadSays, AccessSays, FeeSays, ClearSigningPolicy.Recognize, ClearSigningPolicy.ArgsBytes, IsAscii;
    var f := SignatureFrames.DecodeSignatureFrame(input).value;
    var t, r := Transaction.DecodeTransactionSignable(f.payload).value, ReviewOf(p, input).value;
    RecognizeExactly(p, t, r.amount);
    HeadTells(f, t, r);
    AccessTells(ACCESS_NAMES[0], r.accessEntries[0]);
    AccessTells(ACCESS_NAMES[1], r.accessEntries[1]);
    AccessTells(ACCESS_NAMES[2], r.accessEntries[2]);
    FeeTells(t.feePayment.value);
  }

  lemma HeadTells(f: SignatureFrames.SignatureFrame, t: Transaction.TransactionSignable, r: ClearSigningReview)
    requires |r.accessEntries| == 3 && r.scheme == Ed25519
    requires r.chainId == t.chainId && r.protocolVersion == t.protocolVersion && r.epoch == t.epoch
    requires r.messageType == f.messageType && r.sender == t.sender && r.nonce == t.nonce
    requires ObjectRef(r.moduleId, r.moduleVersion, r.moduleDigest) == t.moduleRef
    requires r.entrypoint == t.entrypoint && r.gasLimit == t.gasLimit
    ensures HeadFacts(r, ReviewFact("chain_id", r.chainId), ReviewFact("message_type", r.messageType),
                      ReviewFact("entrypoint", r.entrypoint))
            == HeadSays(f, t, r.amountLabel, r.amount)
  {
    hide HexText, DigestText, IsAscii;
    LabelTexts();
    assert Decimal(3) == AsBytes("3");
    assert AsBytes("ed25519") == Ed25519.Label();
  }

  lemma AccessTells(names: seq<string>, e: AccessEntry)
    requires |names| == 4 && e.mode == Write
    ensures AccessFacts(names, e) == AccessSays(names[0], names[1], names[2], names[3], e.objectRef)
  {
    hide HexText, DigestText, Decimal;
    LabelTexts();
    assert AsBytes("write") == Write.Label();
  }

  lemma FeeTells(fee: FeePayment)
    ensures FeeFacts(FeeLineOf(Some(fee)).value) == FeeSays(fee)
  {
    hide HexText, DigestText, Decimal;
  }
}
