// Formatting of the 32 clear-signed facts, with the loops that fill each fact's buffer.
module ReviewUi {
  import opened Wrappers
  import opened Bytes
  import opened Text
  import opened Types
  import opened FactText
  import opened Review

  const MAX_FACT_LEN: nat := 96

  datatype ReviewFormatError = NonAscii | ValueTooLong | WrongAccessCount | MissingFee

  /** A fixed buffer and the number of bytes in use. */
  datatype BoundedFactStr = BoundedFactStr(buf: seq<byte>, len: nat) {
    predicate Valid() {
      |buf| == MAX_FACT_LEN && len <= MAX_FACT_LEN
    }

    function AsStr(): (s: seq<byte>)
      requires Valid()
    {
      buf[..len]
    }
  }

  /** The value shows this text. */
  predicate Shows(r: Result<BoundedFactStr, ReviewFormatError>, text: seq<byte>) {
    r.Ok? && r.value.Valid() && r.value.AsStr() == text
  }

  // ----- The four formatters -----

  method TryFromStr(s: seq<byte>) returns (r: Result<BoundedFactStr, ReviewFormatError>)
    ensures !IsAscii(s) ==> r == Err(NonAscii)
    ensures IsAscii(s) && |s| > MAX_FACT_LEN ==> r == Err(ValueTooLong)
    ensures IsAscii(s) && |s| <= MAX_FACT_LEN ==> Shows(r, s)
  {
    if !IsAscii(s) { return Err(NonAscii); }
    if |s| > MAX_FACT_LEN { return Err(ValueTooLong); }
    var buf := new byte[MAX_FACT_LEN](_ => 0);
    for i := 0 to |s|
      invariant buf[..i] == s[..i]
    {
      buf[i] := s[i];
    }
    return Ok(BoundedFactStr(buf[..], |s|));
  }

  /** The digit loop stays within its 20 scratch bytes and yields the decimal text. */
  method FromU64(val: u64) returns (r: BoundedFactStr)
    ensures r.Valid() && r.AsStr() == Decimal(val)
  {
    var buf := new byte[MAX_FACT_LEN](_ => 0);
    if val == 0 {
      buf[0] := 0x30;
      return BoundedFactStr(buf[..], 1);
    }
    var temp := new byte[20](_ => 0);
    var digits := CollectDigits(val, temp);
    ghost var text := Decimal(val);
    for i := 0 to digits
      invariant forall k :: 0 <= k < digits ==> temp[k] == text[digits - 1 - k]
      invariant forall k :: 0 <= k < i ==> buf[k] == text[k]
    {
      buf[i] := temp[digits - 1 - i];
    }
    assert buf[..digits] == text;
    return BoundedFactStr(buf[..], digits);
  }

  /** Digits come out last first, and never more than the scratch array holds. */
  method CollectDigits(val: u64, temp: array<byte>) returns (digits: nat)
    requires val > 0 && temp.Length == 20
    modifies temp
    ensures digits == |Decimal(val)| <= 20
    ensures forall k :: 0 <= k < digits ==> temp[k] == Decimal(val)[digits - 1 - k]
  {
    hide Decimal, Pow10;
    ghost var text := Decimal(val);
    U64HasAtMost20Digits(val);
    var num: nat := val;
    digits := 0;
    while num > 0
      invariant digits <= |text|
      invariant text[..|text| - digits] == if num > 0 then Decimal(num) else []
      invariant forall k :: 0 <= k < digits ==> temp[k] == text[|text| - 1 - k]
    {
      ghost var left := text[..|text| - digits];
      LastDigit(left, num);
      assert text[|text| - digits - 1] == left[|left| - 1];
      assert text[..|text| - digits - 1] == left[..|left| - 1];
      temp[digits] := 0x30 + num % 10;
      digits := digits + 1;
      num := num / 10;
    }
  }

  method TryFromHex(bytes: seq<byte>) returns (r: Result<BoundedFactStr, ReviewFormatError>)
    ensures if 2 * |bytes| > MAX_FACT_LEN then r == Err(ValueTooLong) else Shows(r, HexText(bytes))
  {
    var encodedLen := |bytes| * 2;
    if encodedLen > MAX_FACT_LEN { return Err(ValueTooLong); }
    var buf := new byte[MAX_FACT_LEN](_ => 0);
    WriteHex(buf, 0, bytes);
    return Ok(BoundedFactStr(buf[..], encodedLen));
  }

  /** The loop that both hexadecimal formatters run, from offset `start` of the buffer on. */
  method WriteHex(buf: array<byte>, start: nat, bytes: seq<byte>)
    requires start + 2 * |bytes| <= buf.Length
    modifies buf
    ensures buf[..start] == old(buf[..start])
    ensures buf[start..start + 2 * |bytes|] == HexText(bytes)
  {
    var len := start;
    for j := 0 to |bytes|
      invariant len == start + 2 * j
      invariant buf[..start] == old(buf[..start])
      invariant buf[start..len] == HexText(bytes[..j])
    {
      var b := bytes[j];
      buf[len] := HexChar(b / 16);
      buf[len + 1] := HexChar(b % 16);
      assert bytes[..j + 1][..j] == bytes[..j];
      len := len + 2;
    }
    assert bytes[..|bytes|] == bytes;
  }

  method TryFromDigest(digest: Digest32) returns (r: Result<BoundedFactStr, ReviewFormatError>)
    ensures Shows(r, DigestText(digest))
  {
    var prefix := digest.algorithm.Label();
    var requiredLen := |prefix| + 1 + 2 * |digest.bytes|;
    assert requiredLen == |DigestText(digest)| <= MAX_FACT_LEN;
    var buf := new byte[MAX_FACT_LEN](_ => 0);
    var len := |prefix|;
    for i := 0 to len
      invariant buf[..i] == prefix[..i]
    {
      buf[i] := prefix[i];
    }
    buf[len] := COLON;
    len := len + 1;
    assert buf[..len] == prefix + [COLON];
    WriteHex(buf, len, digest.bytes);
    assert buf[..requiredLen] == buf[..len] + buf[len..requiredLen];
    return Ok(BoundedFactStr(buf[..], requiredLen));
  }

  // ----- The 32 facts -----

  datatype ReviewFact = ReviewFact(name: string, value: seq<byte>)

  function TextFact(name: string, s: seq<byte>): Result<ReviewFact, ReviewFormatError> {
    if !IsAscii(s) then Err(NonAscii)
    else if |s| > MAX_FACT_LEN then Err(ValueTooLong)
    else Ok(ReviewFact(name, s))
  }

  function NumberFact(name: string, v: u64): ReviewFact {
    ReviewFact(name, Decimal(v))
  }

  function HexFact(name: string, bytes: Bytes32): ReviewFact {
    ReviewFact(name, HexText(bytes))
  }

  function DigestFact(name: string, d: Digest32): ReviewFact {
    ReviewFact(name, DigestText(d))
  }

  function AccessFacts(names: seq<string>, e: AccessEntry): (facts: seq<ReviewFact>)
    requires |names| == 4
    ensures |facts| == 4
  {
    [ReviewFact(names[0], e.mode.Label()), HexFact(names[1], e.objectRef.id),
     NumberFact(names[2], e.objectRef.version), DigestFact(names[3], e.objectRef.digest)]
  }

  const ACCESS_NAMES: seq<seq<string>> :=
    [["access[0].mode", "access[0].object_id", "access[0].version", "access[0].digest"],
     ["access[1].mode", "access[1].object_id", "access[1].version", "access[1].digest"],
     ["access[2].mode", "access[2].object_id", "access[2].version", "access[2].digest"]]

  function FeeFacts(fee: FeeLine): (facts: seq<ReviewFact>)
    ensures |facts| == 6
  {
    [ReviewFact("fee_payment", AsBytes("present")), HexFact("fee_asset", fee.assetId),
     NumberFact("fee_max", fee.maxFee), HexFact("fee_object_id", fee.feeObjectId),
     NumberFact("fee_object_version", fee.feeObjectVersion),
     DigestFact("fee_object_digest", fee.feeObjectDigest)]
  }

  function HeadFacts(r: ClearSigningReview, chainId: ReviewFact, messageType: ReviewFact,
                     entrypoint: ReviewFact): (facts: seq<ReviewFact>)
    requires |r.accessEntries| == 3
    ensures |facts| == 14
  {
    [chainId, NumberFact("protocol_version", r.protocolVersion), NumberFact("epoch", r.epoch),
     messageType, ReviewFact("scheme", r.scheme.Label()), HexFact("sender", r.sender),
     NumberFact("nonce", r.nonce), HexFact("module_id", r.moduleId),
     NumberFact("module_version", r.moduleVersion), DigestFact("module_digest", r.moduleDigest),
     entrypoint, NumberFact(r.amountLabel, r.amount), NumberFact("gas_limit", r.gasLimit),
     NumberFact("manifest_count", |r.accessEntries|)]
  }

  /** The labels, the 32-byte values and the digests always fit, so only the three free texts
      can fail to format. */
  function FormatReviewFacts(r: ClearSigningReview): Result<seq<ReviewFact>, ReviewFormatError> {
    if |r.accessEntries| != 3 then Err(WrongAccessCount)
    else if r.fee.None? then Err(MissingFee)
    else
      var chainId :- TextFact("chain_id", r.chainId);
      var messageType :- TextFact("message_type", r.messageType);
      var entrypoint :- TextFact("entrypoint", r.entrypoint);
      Ok(HeadFacts(r, chainId, messageType, entrypoint)
         + AccessFacts(ACCESS_NAMES[0], r.accessEntries[0])
         + AccessFacts(ACCESS_NAMES[1], r.accessEntries[1])
         + AccessFacts(ACCESS_NAMES[2], r.accessEntries[2])
         + FeeFacts(r.fee.value))
  }

  // ----- The same 32 facts, built by calling the formatters -----

  datatype ShownFact = ShownFact(name: string, text: BoundedFactStr) {
    predicate Shows(fact: ReviewFact) {
      text.Valid() && name == fact.name && text.AsStr() == fact.value
    }
  }

  predicate AllShow(shown: seq<ShownFact>, facts: seq<ReviewFact>) {
    |shown| == |facts| && forall i :: 0 <= i < |facts| ==> shown[i].Shows(facts[i])
  }

  method ShowText(name: string, s: seq<byte>) returns (r: Result<ShownFact, ReviewFormatError>)
    ensures match TextFact(name, s)
            case Err(e) => r == Err(e)
            case Ok(fact) => r.Ok? && r.value.Shows(fact)
  {
    var text := TryFromStr(s);
    match text
    case Err(e) => return Err(e);
    case Ok(t) => return Ok(ShownFact(name, t));
  }

  method ShowNumber(name: string, v: u64) returns (f: ShownFact)
    ensures f.Shows(NumberFact(name, v))
  {
    var text := FromU64(v);
    f := ShownFact(name, text);
  }

  method ShowHex(name: string, bytes: Bytes32) returns (f: ShownFact)
    ensures f.Shows(HexFact(name, bytes))
  {
    var text := TryFromHex(bytes);
    f := ShownFact(name, text.value);
  }

  method ShowDigest(name: string, d: Digest32) returns (f: ShownFact)
    ensures f.Shows(DigestFact(name, d))
  {
    var text := TryFromDigest(d);
    f := ShownFact(name, text.value);
  }

  method ShowLabel(name: string, s: seq<byte>) returns (f: ShownFact)
    requires IsAscii(s) && |s| <= MAX_FACT_LEN
    ensures f.Shows(ReviewFact(name, s))
  {
    var text := TryFromStr(s);
    f := ShownFact(name, text.value);
  }

  method ShowHead(r: ClearSigningReview, chainId: ShownFact, messageType: ShownFact, entrypoint: ShownFact,
                  ghost c: ReviewFact, ghost m: ReviewFact, ghost e: ReviewFact)
    returns (shown: seq<ShownFact>)
    requires |r.accessEntries| == 3
    requires chainId.Shows(c) && messageType.Shows(m) && entrypoint.Shows(e)
    ensures AllShow(shown, HeadFacts(r, c, m, e))
  {
    hide ShownFact.Shows, NumberFact, HexFact, DigestFact;
    var protocolVersion := ShowNumber("protocol_version", r.protocolVersion);
    var epoch := ShowNumber("epoch", r.epoch);
    var scheme := ShowLabel("scheme", r.scheme.Label());
    var sender := ShowHex("sender", r.sender);
    var nonce := ShowNumber("nonce", r.nonce);
    var moduleId := ShowHex("module_id", r.moduleId);
    var moduleVersion := ShowNumber("module_version", r.moduleVersion);
    var moduleDigest := ShowDigest("module_digest", r.moduleDigest);
    var amount := ShowNumber(r.amountLabel, r.amount);
    var gasLimit := ShowNumber("gas_limit", r.gasLimit);
    var count := ShowNumber("manifest_count", |r.accessEntries|);
    shown := [chainId, protocolVersion, epoch, messageType, scheme, sender, nonce, moduleId,
              moduleVersion, moduleDigest, entrypoint, amount, gasLimit, count];
  }

  method ShowAccess(names: seq<string>, e: AccessEntry) returns (shown: seq<ShownFact>)
    requires |names| == 4
    ensures AllShow(shown, AccessFacts(names, e))
  {
    hide ShownFact.Shows, NumberFact, HexFact, DigestFact;
    var mode := ShowLabel(names[0], e.mode.Label());
    var id := ShowHex(names[1], e.objectRef.id);
    var version := ShowNumber(names[2], e.objectRef.version);
    var digest := ShowDigest(names[3], e.objectRef.digest);
    shown := [mode, id, version, digest];
  }

  method ShowFee(fee: FeeLine) returns (shown: seq<ShownFact>)
    ensures AllShow(shown, FeeFacts(fee))
  {
    hide ShownFact.Shows, NumberFact, HexFact, DigestFact;
    var present := ShowLabel("fee_payment", AsBytes("present"));
    var asset := ShowHex("fee_asset", fee.assetId);
    var max := ShowNumber("fee_max", fee.maxFee);
    var id := ShowHex("fee_object_id", fee.feeObjectId);
    var version := ShowNumber("fee_object_version", fee.feeObjectVersion);
    var digest := ShowDigest("fee_object_digest", fee.feeObjectDigest);
    shown := [present, asset, max, id, version, digest];
  }

  /** The buffers filled by the formatters show exactly the facts of FormatReviewFacts. */
  method ShowReview(r: ClearSigningReview) returns (result: Result<seq<ShownFact>, ReviewFormatError>)
    ensures match FormatReviewFacts(r)
            case Err(e) => result == Err(e)
            case Ok(facts) => result.Ok? && AllShow(result.value, facts)
  {
    hide ShownFact.Shows, TextFact, HeadFacts, AccessFacts, FeeFacts;
    if |r.accessEntries| != 3 { return Err(WrongAccessCount); }
    if r.fee.None? { return Err(MissingFee); }
    var chainId := ShowText("chain_id", r.chainId);
    if chainId.Err? { return Err(chainId.error); }
    var messageType := ShowText("message_type", r.messageType);
    if messageType.Err? { return Err(messageType.error); }
    var entrypoint := ShowText("entrypoint", r.entrypoint);
    if entrypoint.Err? { return Err(entrypoint.error); }
    var head := ShowHead(r, chainId.value, messageType.value, entrypoint.value,
                         TextFact("chain_id", r.chainId).value,
                         TextFact("message_type", r.messageType).value,
                         TextFact("entrypoint", r.entrypoint).value);
    var first := ShowAccess(ACCESS_NAMES[0], r.accessEntries[0]);
    var second := ShowAccess(ACCESS_NAMES[1], r.accessEntries[1]);
    var third := ShowAccess(ACCESS_NAMES[2], r.accessEntries[2]);
    var fee := ShowFee(r.fee.value);
    return Ok(head + first + second + third + fee);
  }

  // ----- Reading the facts back -----

  function ReadU64(s: seq<byte>): u64 {
    var v := ReadDecimal(s);
    if 0 <= v < 0x1_0000_0000_0000_0000 then v else 0
  }

  function ReadU32(s: seq<byte>): u32 {
    var v := ReadDecimal(s);
    if 0 <= v < 0x1_0000_0000 then v else 0
  }

  function ReadBytes32(s: seq<byte>): Bytes32 {
    As32(ReadHex(s))
  }

  function ReadAccess(facts: seq<ReviewFact>, start: nat): AccessEntry
    requires start + 4 <= |facts|
  {
    AccessEntry(ObjectRef(ReadBytes32(facts[start + 1].value), ReadU64(facts[start + 2].value),
                          ReadDigest(facts[start + 3].value)),
                ReadMode(facts[start].value))
  }

  function ReadFee(facts: seq<ReviewFact>): FeeLine
    requires |facts| == 32
  {
    FeeLine(ReadBytes32(facts[27].value), ReadU64(facts[28].value), ReadBytes32(facts[29].value),
            ReadU64(facts[30].value), ReadDigest(facts[31].value))
  }

  function ReadFacts(facts: seq<ReviewFact>): ClearSigningReview
    requires |facts| == 32
  {
    ClearSigningReview(
      facts[0].value, ReadU32(facts[1].value), ReadU64(facts[2].value), facts[3].value,
      ReadScheme(facts[4].value), ReadBytes32(facts[5].value), ReadU64(facts[6].value),
      ReadBytes32(facts[7].value), ReadU64(facts[8].value), ReadDigest(facts[9].value),
      facts[10].value, ReadU64(facts[11].value), facts[11].name, ReadU64(facts[12].value),
      [ReadAccess(facts, 14), ReadAccess(facts, 18), ReadAccess(facts, 22)], Some(ReadFee(facts)))
  }

  lemma {:induction false} NumberReadsBack(v: u64)
    ensures ReadU64(Decimal(v)) == v
    ensures v < 0x1_0000_0000 ==> ReadU32(Decimal(v)) == v
  {
    DecimalReadsBack(v);
  }

  lemma {:induction false} Bytes32ReadsBack(b: Bytes32)
    ensures ReadBytes32(HexText(b)) == b
  {
    HexReadsBack(b);
  }

  lemma AccessReadsBack(facts: seq<ReviewFact>, start: nat, names: seq<string>, e: AccessEntry)
    requires start + 4 <= |facts| && |names| == 4
    requires facts[start..start + 4] == AccessFacts(names, e)
    ensures ReadAccess(facts, start) == e
  {
    hide ReadU64, Decimal, ReadBytes32, HexText, ReadDigest, DigestText, ReadMode, AccessMode.Label;
    var four := facts[start..start + 4];
    assert four[0] == facts[start] && four[1] == facts[start + 1] && four[2] == facts[start + 2]
           && four[3] == facts[start + 3];
    Bytes32ReadsBack(e.objectRef.id);
    NumberReadsBack(e.objectRef.version);
    DigestReadsBack(e.objectRef.digest);
    LabelsReadBack(Ed25519, e.mode);
  }

  lemma FeeReadsBack(facts: seq<ReviewFact>, fee: FeeLine)
    requires |facts| == 32 && facts[26..32] == FeeFacts(fee)
    ensures ReadFee(facts) == fee
  {
    hide ReadU64, Decimal, ReadBytes32, HexText, ReadDigest, DigestText;
    var six := facts[26..32];
    assert six[1] == facts[27] && six[2] == facts[28] && six[3] == facts[29] && six[4] == facts[30]
           && six[5] == facts[31];
    Bytes32ReadsBack(fee.assetId);
    NumberReadsBack(fee.maxFee);
    Bytes32ReadsBack(fee.feeObjectId);
    NumberReadsBack(fee.feeObjectVersion);
    DigestReadsBack(fee.feeObjectDigest);
  }

  /** When a review formats, and how it is refused otherwise. */
  lemma FormatExactly(r: ClearSigningReview)
    ensures FormatReviewFacts(r).Ok?
            <==> && |r.accessEntries| == 3 && r.fee.Some?
                 && IsAscii(r.chainId) && IsAscii(r.messageType) && IsAscii(r.entrypoint)
                 && |r.chainId| <= 96 && |r.messageType| <= 96 && |r.entrypoint| <= 96
    ensures match FormatReviewFacts(r)
            case Ok(_) => true
            case Err(WrongAccessCount) => |r.accessEntries| != 3
            case Err(MissingFee) => r.fee == None
            case Err(NonAscii) => !IsAscii(r.chainId) || !IsAscii(r.messageType) || !IsAscii(r.entrypoint)
            case Err(ValueTooLong) => |r.chainId| > 96 || |r.messageType| > 96 || |r.entrypoint| > 96
  {
    hide HeadFacts, AccessFacts, FeeFacts, IsAscii;
  }

  function Names(facts: seq<ReviewFact>): (names: seq<string>)
    ensures |names| == |facts|
  {
    seq(|facts|, i requires 0 <= i < |facts| => facts[i].name)
  }

  lemma NamesOfSum(a: seq<ReviewFact>, b: seq<ReviewFact>)
    ensures Names(a + b) == Names(a) + Names(b)
  {
  }

  lemma HeadIsNamed(r: ClearSigningReview, chainId: ReviewFact, messageType: ReviewFact, entrypoint: ReviewFact)
    requires |r.accessEntries| == 3
    ensures var head := HeadFacts(r, chainId, messageType, entrypoint);
            && Names(head) == [chainId.name, "protocol_version", "epoch", messageType.name, "scheme", "sender",
                               "nonce", "module_id", "module_version", "module_digest", entrypoint.name,
                               r.amountLabel, "gas_limit", "manifest_count"]
            && head[13].value == [0x33]
  {
    hide HexText, DigestText, IsAscii, SignatureSchemeId.Label;
    assert Decimal(3) == [0x33];
  }

  lemma AccessIsNamed(names: seq<string>, e: AccessEntry)
    requires |names| == 4
    ensures Names(AccessFacts(names, e)) == names
  {
    hide HexText, DigestText, Decimal, AccessMode.Label;
  }

  lemma FeeIsNamed(fee: FeeLine)
    ensures Names(FeeFacts(fee)) == ["fee_payment", "fee_asset", "fee_max", "fee_object_id",
                                     "fee_object_version", "fee_object_digest"]
    ensures FeeFacts(fee)[0].value == [0x70, 0x72, 0x65, 0x73, 0x65, 0x6E, 0x74]
  {
    hide HexText, DigestText, Decimal;
  }

  /** Every review that formats shows its 32 values under these names, in this order; and the two
      values that the review does not hold are the count 3 and the word "present". */
  lemma FactsAreNamed(r: ClearSigningReview)
    requires FormatReviewFacts(r).Ok?
    ensures var facts := FormatReviewFacts(r).value;
            && |facts| == 32
            && Names(facts)
               == ["chain_id", "protocol_version", "epoch", "message_type", "scheme", "sender", "nonce",
                   "module_id", "module_version", "module_digest", "entrypoint", r.amountLabel, "gas_limit",
                   "manifest_count",
                   "access[0].mode", "access[0].object_id", "access[0].version", "access[0].digest",
                   "access[1].mode", "access[1].object_id", "access[1].version", "access[1].digest",
                   "access[2].mode", "access[2].object_id", "access[2].version", "access[2].digest",
                   "fee_payment", "fee_asset", "fee_max", "fee_object_id", "fee_object_version",
                   "fee_object_digest"]
            && facts[13].value == [0x33]
            && facts[26].value == [0x70, 0x72, 0x65, 0x73, 0x65, 0x6E, 0x74]
  {
    hide HeadFacts, AccessFacts, FeeFacts, Names, IsAscii;
    var chainId, messageType, entrypoint := TextFact("chain_id", r.chainId).value,
      TextFact("message_type", r.messageType).value, TextFact("entrypoint", r.entrypoint).value;
    var head, fee := HeadFacts(r, chainId, messageType, entrypoint), FeeFacts(r.fee.value);
    var a := AccessFacts(ACCESS_NAMES[0], r.accessEntries[0]);
    var b := AccessFacts(ACCESS_NAMES[1], r.accessEntries[1]);
    var c := AccessFacts(ACCESS_NAMES[2], r.accessEntries[2]);
    HeadIsNamed(r, chainId, messageType, entrypoint);
    AccessIsNamed(ACCESS_NAMES[0], r.accessEntries[0]);
    AccessIsNamed(ACCESS_NAMES[1], r.accessEntries[1]);
    AccessIsNamed(ACCESS_NAMES[2], r.accessEntries[2]);
    FeeIsNamed(r.fee.value);
    NamesOfSum(head + a + b + c, fee);
    NamesOfSum(head + a + b, c);
    NamesOfSum(head + a, b);
    NamesOfSum(head, a);
  }

  /** No displayed value is lost or truncated: every review that formats is read back, whole,
      from its 32 facts. */
  lemma FactsReadBack(r: ClearSigningReview)
    requires FormatReviewFacts(r).Ok?
    ensures |FormatReviewFacts(r).value| == 32
    ensures ReadFacts(FormatReviewFacts(r).value) == r
  {
    hide ReadU64, ReadU32, Decimal, ReadBytes32, HexText, ReadDigest, DigestText, ReadScheme,
         SignatureSchemeId.Label, IsAscii, AccessFacts, FeeFacts, ReadAccess, ReadFee;
    var facts := FormatReviewFacts(r).value;
    NumberReadsBack(r.protocolVersion);
    NumberReadsBack(r.epoch);
    LabelsReadBack(r.scheme, Read);
    Bytes32ReadsBack(r.sender);
    NumberReadsBack(r.nonce);
    Bytes32ReadsBack(r.moduleId);
    NumberReadsBack(r.moduleVersion);
    DigestReadsBack(r.moduleDigest);
    NumberReadsBack(r.amount);
    NumberReadsBack(r.gasLimit);
    assert facts[14..18] == AccessFacts(ACCESS_NAMES[0], r.accessEntries[0]);
    assert facts[18..22] == AccessFacts(ACCESS_NAMES[1], r.accessEntries[1]);
    assert facts[22..26] == AccessFacts(ACCESS_NAMES[2], r.accessEntries[2]);
    assert facts[26..32] == FeeFacts(r.fee.value);
    AccessReadsBack(facts, 14, ACCESS_NAMES[0], r.accessEntries[0]);
    AccessReadsBack(facts, 18, ACCESS_NAMES[1], r.accessEntries[1]);
    AccessReadsBack(facts, 22, ACCESS_NAMES[2], r.accessEntries[2]);
    FeeReadsBack(facts, r.fee.value);
    assert r.accessEntries == [r.accessEntries[0], r.accessEntries[1], r.accessEntries[2]];
  }
}
