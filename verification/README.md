# Sunrise Edge Ledger app: verified model

A Dafny 4.11 model of a hardware-wallet signing application, with proofs. The
application collects a signed frame in APDU chunks, parses a strict nested
field format, recognizes one transaction shape under a clear-signing policy,
shows 32 facts, and signs the buffered bytes once the user approves. Run
`dafny verify dfyconfig.toml` here to check everything.

The results build on each other up to one statement over whole runs of the
device: every signature covers exactly the bytes of one uninterrupted
FIRST, CONTINUE, ..., LAST sequence, with the path of its FIRST, whose key is
the decoded sender; those bytes were reviewed, shown and approved in that turn;
and the facts shown determine every one of the bytes signed. A second statement
covers the session object by itself, under any interleaving of its operations.

## How it is built

- `Wrappers`, `Bytes`, `Text`: results, fixed-width integers in both byte
  orders, and the two text checks the source takes from its standard library
  (UTF-8 validity and "trims to nothing"), written out in full.
- `Canonical`, `CanonicalFrames`, `Schemas`: the field format. `Canonical` has
  the decoder as a function returning the whole field list, and the encoder the
  source lacks; `CanonicalFrames` has the cursor loops, which keep no field
  table, proved equal to it; `Schemas` has the argument shared by all schemas.
- `Types`, `Transaction`, `TransactionCodec`, `ManifestLoops`,
  `SignatureFrames`: the nested decoders, their printers, and the proof that
  each decoder accepts exactly its printer's image.
- `Policy`, `Review`, `FactText`, `ReviewUi`, `Display`: recognition under an
  arbitrary policy value, the review, the text forms, the 32 facts, and how
  they are read back.
- `Path`, `SessionSteps`, `Apdu`, `Chunking`: the derivation path, the effect of
  each command on an abstract session, the session class with its 4096-byte
  array proved against it, and the frame sent in chunks.
- `WireLayout`, `CommandTable`: the same format and the same commands once more, from
  the outside, in the literal numbers of the protocol.
- `Gathering`, `SessionRuns`: one uninterrupted command sequence within a stream,
  and safety of the session over all interleavings of its operations.
- `Device`, `SigningSafety`: the event loop, and safety over all its runs.
- `Compression`: conversion of a point to the encoding of section 5.1.2 of
  RFC 8032.

A few choices shape the model. Pure source functions are Dafny functions, and
source code that loops or mutates is a method proved against a function. The key
deriver, the signer, the user and the transport are arbitrary: each turn of a
run brings its own answers, and the deriver and signer objects log their calls.
While a frame awaits approval the session also records, as ghost state, the
policy and the derived key that it was judged with, so that the session
invariant can say that the frame passed every check with them. Text is its
bytes. Bitwise tests and masks on single bytes and on the hardened bit are
written as the equal comparisons and sums. Branches that the source keeps for
cases that its own checks exclude (a missing path, a slice out of range, a
remaining length below zero, a failed re-read of a validated field, a key text
that does not fit its buffer) have no counterpart: the methods perform the
guarded operation directly, and verification shows that it cannot fail.

Where the code and its comments disagree, the model follows the code. The
`EmptyEntrypoint` and inner `ChainId` errors are described as covering blank and
empty text, but the decoder accepts a white-space entrypoint and an empty inner
chain id (`BlankTextsAccepted`). The secp256k1 scheme is described as a frame
error, but it decodes and is rejected when the review is built
(`Secp256k1IsRejectedByReview`).

## Model

| member | source | states |
|---|---|---|
| Canonical.DecodeFrameExactly | crates/sunrise-edge-ledger-core/src/canonical.rs:228-264 | the strict decode accepts an input with frame f exactly when f has strictly increasing ids, at most 65535 fields, lengths below 2^32, and the input is its encoding |
| Canonical.EncodingIsUniqueAndConservesBytes | crates/sunrise-edge-ledger-core/src/canonical.rs:13-20 | a canonical encoding stands for one field list only, and its length is 10 plus 6 per field plus the field lengths |
| Canonical.PrefixIsTruncated | crates/sunrise-edge-ledger-core/src/canonical.rs:228-288 | an encoding cut short anywhere is refused as truncated, so none begins another |
| Canonical.ExtensionIsTrailing | crates/sunrise-edge-ledger-core/src/canonical.rs:253-255 | an encoding with anything after it is refused for trailing bytes |
| Canonical.DisorderIsRefused | crates/sunrise-edge-ledger-core/src/canonical.rs:241-246 | repeated or unordered ids are refused as such, however well the fields are encoded |
| Canonical.WrongMagicIsRefused | crates/sunrise-edge-ledger-core/src/canonical.rs:230-233 | exactly the inputs of at least 4 bytes that do not begin with "SNRE" are refused for the magic |
| Bytes.LeByteAt | crates/sunrise-edge-ledger-core/src/canonical.rs:266-276 | byte i of a little-endian number is its digit i in base 256 |
| Bytes.BeByteAt | crates/sunrise-edge-ledger-core/src/path.rs:92-102 | byte i, from the end, of a big-endian number is its digit i in base 256 |
| Canonical.LookupOutcome | crates/sunrise-edge-ledger-core/src/canonical.rs:128-140 | a lookup returns a field of the list with that id, or nothing when there is none |
| Canonical.RequireOnlyOutcome | crates/sunrise-edge-ledger-core/src/canonical.rs:149-161 | the allow-list check succeeds exactly when every field id is allowed |
| Canonical.AllowedIds | crates/sunrise-edge-ledger-core/src/canonical.rs:149-161 | strictly increasing ids within 1 to k that include all of them are exactly 1 to k |
| Canonical.CountedIds | crates/sunrise-edge-ledger-core/src/transaction.rs:195-220 | k strictly ordered fields that include the ids 1 to k are those and no others |
| CanonicalFrames.TakeAt | crates/sunrise-edge-ledger-core/src/canonical.rs:278-288 | takes the bytes and moves the cursor, or reports truncation and leaves it |
| CanonicalFrames.ReadU16At | crates/sunrise-edge-ledger-core/src/canonical.rs:266-270 | reads a little-endian u16 at the cursor, moving it only on success |
| CanonicalFrames.ReadU32At | crates/sunrise-edge-ledger-core/src/canonical.rs:272-276 | reads a little-endian u32 at the cursor, moving it only on success |
| CanonicalFrames.CheckFields | crates/sunrise-edge-ledger-core/src/canonical.rs:239-251 | the one-pass field loop ends where, or fails as, the scan that builds the whole field list does |
| CanonicalFrames.DecodeCanonicalFrame | crates/sunrise-edge-ledger-core/src/canonical.rs:228-264 | the cursor decoder returns a validated view of the decoded frame, or the same error |
| CanonicalFrames.CanonicalFrame.FindField | crates/sunrise-edge-ledger-core/src/canonical.rs:128-140 | on a validated view the re-scan returns the field list's value for the id, and nothing only when it is absent |
| CanonicalFrames.CanonicalFrame.RequireOnlyFields | crates/sunrise-edge-ledger-core/src/canonical.rs:149-161 | on a validated view the re-scan finds the first field outside the allow-list, or accepts |
| Schemas.RequiredU16Exactly | crates/sunrise-edge-ledger-core/src/canonical.rs:164-174 | a required u16 reads as v exactly when the field holds the two-byte encoding of v |
| Schemas.RequiredU32Exactly | crates/sunrise-edge-ledger-core/src/canonical.rs:177-187 | a required u32 reads as v exactly when the field holds the four-byte encoding of v |
| Schemas.RequiredU64Exactly | crates/sunrise-edge-ledger-core/src/canonical.rs:190-200 | a required u64 reads as v exactly when the field holds the eight-byte encoding of v |
| Schemas.SchemaExactly | crates/sunrise-edge-ledger-core/src/canonical.rs:99-161 | an input opens under a type, version and allow-list and holds given contents in fields 1 to k, and no other allowed field, exactly when it is their encoding |
| Text.AsciiIsUtf8 | crates/sunrise-edge-ledger-core/src/types.rs:119-125 | ASCII text passes the UTF-8 check |
| Text.Utf8Exactly | crates/sunrise-edge-ledger-core/src/types.rs:119-125 | the UTF-8 check accepts exactly the encodings of sequences of Unicode scalar values |
| Text.BlankExactly | crates/sunrise-edge-ledger-core/src/frame.rs:84-97 | text trims to nothing exactly when it encodes White_Space characters only |
| Types.BoundedBytes.FromSlice | crates/sunrise-edge-ledger-core/src/types.rs:50-66 | copies the whole slice into a zero-padded buffer, or rejects one that does not fit |
| Types.EqualContainers | crates/sunrise-edge-ledger-core/src/types.rs:30-34 | two valid containers of one capacity are equal, padding included, exactly when their bytes are |
| Types.BoundedStrFromUtf8 | crates/sunrise-edge-ledger-core/src/types.rs:119-132 | the text read from the container is the slice, or the error is that of the functional form |
| Types.FromUtf8Slice | crates/sunrise-edge-ledger-core/src/types.rs:119-125 | bounded text is accepted, unchanged, exactly when it fits and is UTF-8; capacity is tested first |
| Types.HashAlgorithmId.TryFromU16 | crates/sunrise-edge-ledger-core/src/types.rs:198-205 | parsing the identifier inverts the wire form |
| Types.SignatureSchemeId.TryFromU16 | crates/sunrise-edge-ledger-core/src/types.rs:281-287 | parsing the identifier inverts the wire form |
| Types.AccessMode.TryFromU8 | crates/sunrise-edge-ledger-core/src/types.rs:416-423 | parsing the mode inverts the wire form |
| Types.AccessManifest.constructor | crates/sunrise-edge-ledger-core/src/types.rs:450-455 | a new manifest is valid and empty |
| Types.AccessManifest.Push | crates/sunrise-edge-ledger-core/src/types.rs:458-468 | appends the entry, or changes nothing and reports the capacity when 8 are held |
| Types.AccessManifest.Contents | crates/sunrise-edge-ledger-core/src/types.rs:471-477 | iteration yields the entry of each slot in use, in slot order |
| Types.AccessManifest.Get | crates/sunrise-edge-ledger-core/src/types.rs:481-486 | returns the entry at an index in wire order, or nothing past the end |
| SignatureFrames.SignatureFrameExactly | crates/sunrise-edge-ledger-core/src/frame.rs:77-113 | the frame decoder accepts an input with value f exactly when f is well formed and the input is its encoding |
| SignatureFrames.SignatureFrameDecodingIsInjective | crates/sunrise-edge-ledger-core/src/frame.rs:77-113 | two accepted inputs that decode alike are the same input |
| SignatureFrames.FrameLength | crates/sunrise-edge-ledger-core/src/frame.rs:77-113 | an encoded frame is 60 bytes plus its texts and payload |
| WireLayout.SignatureFrameWire | crates/sunrise-edge-ledger-core/src/frame.rs:17-113 | the frame is "SNRE", type 0x2001, version 1 and its six fields, in literal bytes |
| WireLayout.SignatureFrameBounds | crates/sunrise-edge-ledger-core/src/frame.rs:24-97 | a frame is well formed exactly within 64, 32 and 2^32 - 1 bytes, with texts that are UTF-8 and not blank |
| TransactionCodec.DigestExactly | crates/sunrise-edge-ledger-core/src/transaction.rs:115-125 | a digest decodes exactly from its 56-byte encoding |
| TransactionCodec.IdExactly | crates/sunrise-edge-ledger-core/src/transaction.rs:127-136 | an object id, and likewise an asset id, decodes exactly from its 48-byte encoding |
| TransactionCodec.ObjectRefExactly | crates/sunrise-edge-ledger-core/src/transaction.rs:138-151 | an object reference decodes exactly from its 140-byte encoding |
| TransactionCodec.AccessModeExactly | crates/sunrise-edge-ledger-core/src/transaction.rs:153-167 | an access mode decodes exactly from its encoding |
| TransactionCodec.AccessEntryExactly | crates/sunrise-edge-ledger-core/src/transaction.rs:169-177 | an access entry decodes exactly from its encoding |
| TransactionCodec.NoDuplicateExactly | crates/sunrise-edge-ledger-core/src/transaction.rs:222-231 | the pairwise scan accepts exactly the manifests whose object ids are pairwise distinct |
| TransactionCodec.AcceptedManifest | crates/sunrise-edge-ledger-core/src/transaction.rs:187-234 | an accepted manifest has field ids exactly 1 to n + 1 by counting alone, and at most 8 entries |
| TransactionCodec.ManifestExactly | crates/sunrise-edge-ledger-core/src/transaction.rs:187-234 | a manifest decodes exactly from the encoding of at most 8 entries with distinct objects, in wire order |
| TransactionCodec.FeePaymentExactly | crates/sunrise-edge-ledger-core/src/transaction.rs:247-260 | a fee payment decodes exactly from its encoding |
| TransactionCodec.TransactionExactly | crates/sunrise-edge-ledger-core/src/transaction.rs:275-338 | the whole nested transaction, with or without a fee, decodes to t exactly when t is well formed and the input is its encoding |
| TransactionCodec.TransactionDecodingIsInjective | crates/sunrise-edge-ledger-core/src/transaction.rs:275-338 | two accepted inputs that decode alike are the same input |
| TransactionCodec.TransactionLength | crates/sunrise-edge-ledger-core/src/transaction.rs:44-50 | a well-formed transaction encodes to at most 2168 bytes |
| WireLayout.SchemaWire | crates/sunrise-edge-ledger-core/src/canonical.rs:1-23 | header, ids and lengths of every nested frame of version 1, in literal bytes |
| WireLayout.DigestWire | crates/sunrise-edge-ledger-core/src/types.rs:178-205 | type 0x0103, and algorithms 1 for SHA2-256, 2 for SHA3-256, 3 for BLAKE3-256 |
| WireLayout.ObjectRefWire | crates/sunrise-edge-ledger-core/src/transaction.rs:127-151 | types 0x4004 and 0x4001, with id, version and digest in this order |
| WireLayout.AccessEntryWire | crates/sunrise-edge-ledger-core/src/transaction.rs:153-177 | types 0x5001 and 0x4006, and modes 1 read, 2 write, 3 consume |
| WireLayout.ManifestWire | crates/sunrise-edge-ledger-core/src/transaction.rs:187-220 | type 0x5002, the count in field 1, the entries from field 2 on |
| WireLayout.FeePaymentWire | crates/sunrise-edge-ledger-core/src/transaction.rs:247-273 | types 0x7002 and 0x7001, with asset, maximum and object in this order |
| WireLayout.TransactionWire | crates/sunrise-edge-ledger-core/src/transaction.rs:275-338 | type 0x6001 and its ten or eleven fields, in this order |
| WireLayout.TransactionBounds | crates/sunrise-edge-ledger-core/src/transaction.rs:44-50 | a transaction is well formed exactly within 64, 1 to 64, 40 bytes and 8 entries, with UTF-8 texts and distinct objects |
| TransactionCodec.BlankTextsAccepted | crates/sunrise-edge-ledger-core/src/transaction.rs:283-305 | a blank entrypoint is rejected exactly when it is empty, and an empty inner chain id is accepted, contrary to the error descriptions |
| ManifestLoops.FindDuplicate | crates/sunrise-edge-ledger-core/src/transaction.rs:225-231 | the nested loops find the first entry whose object is named again |
| ManifestLoops.PushEntries | crates/sunrise-edge-ledger-core/src/transaction.rs:208-220 | the loop fills the manifest with the decoded entries or stops at the first failure |
| ManifestLoops.ScanAccessManifest | crates/sunrise-edge-ledger-core/src/transaction.rs:187-234 | the decoder run on a re-scanned frame and a fixed-capacity manifest returns what the functional decoder does |
| Policy.ArgsFrameIsCanonical | crates/sunrise-edge-ledger-core/src/policy.rs:133-149 | the one-field argument frame of an amount is canonical and 24 bytes long |
| Policy.ArgsExactly | crates/sunrise-edge-ledger-core/src/policy.rs:133-149 | arguments yield an amount exactly when it is not zero and they are its one-field frame, byte for byte |
| Policy.RecognizeExactly | crates/sunrise-edge-ledger-core/src/policy.rs:86-152 | recognition returns an amount exactly when every policy condition holds, the amount is not zero and the arguments are its frame |
| Policy.RefusalIsApt | crates/sunrise-edge-ledger-core/src/policy.rs:86-152 | each policy error names a condition that the transaction really fails |
| WireLayout.ArgumentsWire | crates/sunrise-edge-ledger-core/src/policy.rs:133-149 | the arguments of an amount, in literal bytes under the policy's type, version and field |
| Review.BuildReviewExactly | crates/sunrise-edge-ledger-core/src/review.rs:148-196 | decoded values yield review r exactly when r is one the policy can produce and the values are those rebuilt from r |
| Review.ReviewRefusalIsApt | crates/sunrise-edge-ledger-core/src/review.rs:148-196 | each review error names a check that the decoded values really fail |
| Review.MessageTypeBytes | crates/sunrise-edge-ledger-core/src/lib.rs:60 | the one reviewed message type is "transaction-v1", byte by byte |
| Review.Secp256k1IsRejectedByReview | crates/sunrise-edge-ledger-core/src/types.rs:256-258 | every well-formed frame with the secp256k1 scheme decodes, contrary to the description, and no transaction gives it a review |
| Review.ReviewExactly | crates/sunrise-edge-ledger-core/src/review.rs:148-196 | an input is reviewed as r exactly when r is reviewable under the policy and the input is the frame rebuilt from r |
| Review.ReviewedInputsAreShort | crates/sunrise-edge-ledger-core/src/apdu.rs:106-111 | a reviewed input has at most 2306 bytes and its payload at most 2168, so the 4096 and 3072 bounds turn away no such input |
| Review.EveryAmountIsReachable | crates/sunrise-edge-ledger-core/src/policy.rs:133-151 | under any policy with decodable texts, every non-zero amount and every sender has an input that is reviewed with them |
| FactText.DecimalReadsBack | crates/sunrise-edge-ledger-app/src/review_ui.rs:76-101 | decimal text consists of digits, has no leading zero except "0", and reads back as the number |
| FactText.U64HasAtMost20Digits | crates/sunrise-edge-ledger-app/src/review_ui.rs:84-92 | no u64 needs more than the 20 scratch bytes |
| FactText.HexReadsBack | crates/sunrise-edge-ledger-app/src/review_ui.rs:104-122 | hexadecimal text reads back as the bytes |
| FactText.HexTextAt | crates/sunrise-edge-ledger-app/src/review_ui.rs:104-122 | each byte is two lower-case digits, high half first |
| FactText.AlgorithmReadsBack | crates/sunrise-edge-ledger-core/src/types.rs:189-195 | whatever follows the colon, the label before it tells the algorithm |
| FactText.DigestReadsBack | crates/sunrise-edge-ledger-app/src/review_ui.rs:125-161 | digest text reads back as the algorithm and the bytes |
| FactText.AlgorithmLabels | crates/sunrise-edge-ledger-core/src/types.rs:189-195 | the three algorithm labels with their colon, byte by byte |
| FactText.LabelTexts | crates/sunrise-edge-ledger-core/src/types.rs:273-278 | the scheme labels, and the mode labels at lines 407-413, byte by byte |
| FactText.LabelsReadBack | crates/sunrise-edge-ledger-core/src/types.rs:407-413 | scheme and mode labels read back by the literal texts "ed25519", "read", "write" |
| ReviewUi.TryFromStr | crates/sunrise-edge-ledger-app/src/review_ui.rs:54-70 | shows ASCII text of at most 96 bytes unchanged and rejects any other |
| ReviewUi.CollectDigits | crates/sunrise-edge-ledger-app/src/review_ui.rs:84-92 | the digit loop writes the decimal digits last first within the 20 scratch bytes |
| ReviewUi.FromU64 | crates/sunrise-edge-ledger-app/src/review_ui.rs:76-101 | shows the decimal text of every u64 |
| ReviewUi.WriteHex | crates/sunrise-edge-ledger-app/src/review_ui.rs:150-158 | the loop writes the hexadecimal text and leaves what precedes it |
| ReviewUi.TryFromHex | crates/sunrise-edge-ledger-app/src/review_ui.rs:104-122 | shows the hexadecimal text, or rejects bytes whose text would exceed 96 |
| ReviewUi.TryFromDigest | crates/sunrise-edge-ledger-app/src/review_ui.rs:125-161 | shows label, colon and hexadecimal text of every digest |
| ReviewUi.ShowReview | crates/sunrise-edge-ledger-app/src/review_ui.rs:181-335 | the filled buffers show exactly the 32 facts of the functional formatter, or fail as it does |
| ReviewUi.FormatExactly | crates/sunrise-edge-ledger-app/src/review_ui.rs:181-335 | a review formats exactly with three entries, a fee and ASCII texts of at most 96 bytes; each error names what is really missing |
| ReviewUi.FactsAreNamed | crates/sunrise-edge-ledger-app/src/review_ui.rs:205-335 | the 32 names, in order, for every review that formats; the count is "3" and the fee "present" |
| ReviewUi.FactsReadBack | crates/sunrise-edge-ledger-app/src/review_ui.rs:181-335 | every review that formats gives 32 facts, from which the whole review is read back |
| Display.DisplayDeterminesBytes | crates/sunrise-edge-ledger-app/src/review_ui.rs:181-335 | every byte of an input is recomputed from the policy and the 32 facts shown for it |
| Display.SameDisplaySameBytes | crates/sunrise-edge-ledger-app/src/review_ui.rs:181-335 | inputs that show the same facts under a policy are equal |
| Display.DisplayTellsTheTransaction | crates/sunrise-edge-ledger-app/src/review_ui.rs:181-335 | under each of the 32 names stands the text of that very field of the decoded frame or transaction, and the amount is the one in the arguments |
| Display.DisplayIsTotal | crates/sunrise-edge-ledger-app/src/review_ui.rs:181-335 | a reviewed input is shown exactly when the policy's chain id and entrypoint are ASCII, and then as 32 ASCII texts of at most 96 bytes |
| Path.AllHardened | crates/sunrise-edge-ledger-core/src/path.rs:110-117 | the check finds no unhardened component exactly when all are hardened |
| Path.ComponentExactly | crates/sunrise-edge-ledger-core/src/path.rs:92-102 | a component reads as v exactly when its four bytes are the big-endian form of v |
| Path.PathExactly | crates/sunrise-edge-ledger-core/src/path.rs:66-135 | accepted encodings correspond one to one with accounts below 2^31, as depth 5 followed by the hardened components |
| Path.PathWire | crates/sunrise-edge-ledger-core/src/path.rs:66-135 | the 21 bytes of an accepted path, in literal bytes |
| Path.PathRefusalIsApt | crates/sunrise-edge-ledger-core/src/path.rs:66-120 | each path error names a byte or component that is really wrong |
| Compression.OverflowsExactly | crates/sunrise-edge-ledger-app/src/compression.rs:48-73 | the byte tests hold exactly when the little-endian value is at least 2^255 - 19 |
| Compression.OnesBelowTop | crates/sunrise-edge-ledger-app/src/compression.rs:58-69 | the downward scan tells whether bytes 1 to 30 are all 0xFF |
| Compression.CompressEd25519Point | crates/sunrise-edge-ledger-app/src/compression.rs:34-83 | succeeds exactly on header 4 and Y below 2^255 - 19; the result's value is Y + 2^255 (X mod 2), and reading it back gives Y and the sign bit |
| SessionSteps.DispatchKeeps | crates/sunrise-edge-ledger-core/src/apdu.rs:667-730 | every command keeps the session invariant; a frame is pending exactly after its review is returned, judged with this command's policy and its deriver's key for the captured path; every unsuccessful reply ends idle; a key is derived at most once and for the right path; an internal failure comes only from the deriver |
| SessionSteps.JudgeKeeps | crates/sunrise-edge-ledger-core/src/apdu.rs:621-664 | judging never replies success by itself; a returned review is the frame's own under this policy, its sender is the key derived for this path, and the frame is then pending with that path, policy and key |
| SessionSteps.PendingStep | crates/sunrise-edge-ledger-core/src/apdu.rs:593-665 | only a LAST that completes a collection puts a frame up: the bytes collected and its own |
| SessionSteps.CollectingStep | crates/sunrise-edge-ledger-core/src/apdu.rs:493-591 | only an accepted FIRST from idle or an accepted CONTINUE leaves a collection |
| SessionSteps.VerdictExactly | crates/sunrise-edge-ledger-core/src/apdu.rs:621-664 | a frame is put up for review r exactly when it is the frame rebuilt from a reviewable r whose sender is the derived key |
| Apdu.PublicKeyDeriver.Derive | crates/sunrise-edge-ledger-core/src/apdu.rs:44-47 | answers arbitrarily and logs the path |
| Apdu.FrameSigner.Sign | crates/sunrise-edge-ledger-core/src/apdu.rs:55-59 | answers arbitrarily and logs path and frame |
| Apdu.SigningSession.constructor | crates/sunrise-edge-ledger-core/src/apdu.rs:281-290 | a new session is valid and idle |
| Apdu.SigningSession.View | crates/sunrise-edge-ledger-core/src/apdu.rs:269-276 | a valid session stands for a view that satisfies the invariant of its state; a pending frame passed every LAST check with the recorded policy and key |
| Apdu.SigningSession.Wipe | crates/sunrise-edge-ledger-core/src/apdu.rs:349-360 | clearing the used prefix leaves all 4096 bytes zero and the session idle |
| Apdu.SigningSession.Reset | crates/sunrise-edge-ledger-core/src/apdu.rs:362-365 | always ends idle and wiped |
| Apdu.SigningSession.RejectReview | crates/sunrise-edge-ledger-core/src/apdu.rs:345-347 | always ends idle and wiped |
| Apdu.SigningSession.PendingFrame | crates/sunrise-edge-ledger-core/src/apdu.rs:308-313 | returns the exact frame while, and only while, approval is pending |
| Apdu.SigningSession.AppendChunk | crates/sunrise-edge-ledger-core/src/apdu.rs:367-387 | appends exactly the chunk, or changes nothing and reports which bound was exceeded |
| Apdu.SigningSession.ApproveAndSign | crates/sunrise-edge-ledger-core/src/apdu.rs:322-341 | while pending, calls the signer once with the captured path and exact frame; otherwise never; always ends idle |
| Apdu.HandleFirst | crates/sunrise-edge-ledger-core/src/apdu.rs:493-559 | session and outcome are those of the FIRST step |
| Apdu.HandleContinue | crates/sunrise-edge-ledger-core/src/apdu.rs:561-591 | session and outcome are those of the CONTINUE step |
| Apdu.HandleLast | crates/sunrise-edge-ledger-core/src/apdu.rs:593-665 | session, outcome and derivations are those of the LAST step |
| Apdu.JudgeBuffered | crates/sunrise-edge-ledger-core/src/apdu.rs:621-664 | the buffered frame is judged as the one-shot judgement of its bytes |
| Apdu.HandleSignTransaction | crates/sunrise-edge-ledger-core/src/apdu.rs:469-491 | session, outcome and derivations are those of the sign-transaction step |
| Apdu.HandleVerifyPublicKey | crates/sunrise-edge-ledger-core/src/apdu.rs:433-451 | outcome and derivations are those of the verify step |
| Apdu.HandleGetConfiguration | crates/sunrise-edge-ledger-core/src/apdu.rs:412-431 | replies the six configuration bytes to a well-formed command |
| Apdu.HandleResetSigning | crates/sunrise-edge-ledger-core/src/apdu.rs:453-467 | a well-formed reset succeeds and leaves the session idle |
| Apdu.Dispatch | crates/sunrise-edge-ledger-core/src/apdu.rs:677-730 | one command has exactly the session, outcome and derivations of its step, and any unsuccessful reply leaves every buffer byte zero |
| Chunking.FirstAccepted | crates/sunrise-edge-ledger-core/src/apdu.rs:493-559 | a well-formed FIRST starts a collection with its path, total and chunk |
| Chunking.NextChunk | crates/sunrise-edge-ledger-core/src/apdu.rs:493-665 | each command of a split extends the collection, and the last one is judged on the whole frame |
| Chunking.ChunkingIsInvisible | crates/sunrise-edge-ledger-core/src/apdu.rs:493-665 | however a frame of at most 4096 bytes is split, the run ends in the one-shot judgement of the frame, holding it or nothing, with success before that |
| Chunking.SplitsAgree | crates/sunrise-edge-ledger-core/src/apdu.rs:493-665 | two splits of one frame end with the same session, outcome and derivations |
| CommandTable.FirstExactly | crates/sunrise-edge-ledger-core/src/apdu.rs:493-559 | FIRST starts a collection exactly on a total up to 4096, a path, and a chunk of 1 to 230 bytes shorter than the total |
| CommandTable.FirstTable | crates/sunrise-edge-ledger-core/src/apdu.rs:493-559 | the status of every FIRST on an idle session, by literal bounds |
| CommandTable.ContinueTable | crates/sunrise-edge-ledger-core/src/apdu.rs:561-591 | CONTINUE extends a collection exactly by 1 to 230 bytes that leave it short of its total; the status of every other |
| CommandTable.LastTable | crates/sunrise-edge-ledger-core/src/apdu.rs:593-619 | LAST has the frame judged exactly by 1 to 230 bytes that complete the total; the status of every other |
| CommandTable.LastStatuses | crates/sunrise-edge-ledger-core/src/apdu.rs:593-665 | LAST never succeeds by itself, and is refused with one of four statuses |
| CommandTable.DerivesExactly | crates/sunrise-edge-ledger-core/src/apdu.rs:626-651 | a complete frame has a key derived exactly when it carries a well-formed transaction |
| CommandTable.TooMuchExactly | crates/sunrise-edge-ledger-core/src/apdu.rs:630-633 | the payload bound refuses exactly the well-formed frames with more than 3072 bytes of payload |
| CommandTable.JudgeTable | crates/sunrise-edge-ledger-core/src/apdu.rs:626-664 | exactly when a complete frame is refused with each status, and when a key is derived |
| CommandTable.ResetSucceeds | crates/sunrise-edge-ledger-core/src/apdu.rs:453-467 | a well-formed reset succeeds in every state and ends idle |
| CommandTable.ConfigurationIsReported | crates/sunrise-edge-ledger-core/src/apdu.rs:412-431 | an idle session reports the six configuration bytes |
| CommandTable.SuccessExactly | crates/sunrise-edge-ledger-core/src/apdu.rs:677-730 | over all commands and states, exactly four kinds of command succeed by themselves |
| CommandTable.KeyReviewExactly | crates/sunrise-edge-ledger-core/src/apdu.rs:433-451 | exactly verify with P1 1, P2 0 and an accepted path, on an idle session whose deriver answers, puts that key up |
| CommandTable.TransactionReviewExactly | crates/sunrise-edge-ledger-core/src/apdu.rs:593-665 | exactly a LAST that completes the frame of a reviewable review, for the key derived from the captured path, puts that review up |
| CommandTable.RefusalTable | crates/sunrise-edge-ledger-core/src/apdu.rs:677-711 | exactly which commands are refused for class, instruction, state or parameters |
| CommandTable.SignTable | crates/sunrise-edge-ledger-core/src/apdu.rs:469-491 | the same for the sign-transaction commands while no approval is pending |
| CommandTable.RoutingTable | crates/sunrise-edge-ledger-core/src/apdu.rs:698-712 | chunk commands are answered by their own step, and each other malformed command by its own status |
| Gathering.DispatchGathers | crates/sunrise-edge-ledger-core/src/apdu.rs:493-591 | whatever a session collects after a command is what one uninterrupted FIRST, CONTINUE, ... up to that command delivered |
| Gathering.PendingIsDelivered | crates/sunrise-edge-ledger-core/src/apdu.rs:593-665 | a frame put up was delivered whole by one uninterrupted sequence ending in that LAST, and is reviewed under its policy for its deriver's key |
| SessionRuns.Perform | crates/sunrise-edge-ledger-core/src/apdu.rs:322-365 | each public operation changes session and signer log as the run specification says |
| SessionRuns.CallsKeep | crates/sunrise-edge-ledger-core/src/apdu.rs:322-365 | after any interleaving of the public operations the session invariant holds and a collection is what one uninterrupted sequence delivered |
| SessionRuns.PendingFrameIsJustified | crates/sunrise-edge-ledger-core/src/apdu.rs:593-665 | after any interleaving, a pending frame means that the last call was the LAST of the sequence that delivered its path and bytes, accepted by that call's own policy and deriver for that path |
| SessionRuns.EverySignerCallIsJustified | crates/sunrise-edge-ledger-core/src/apdu.rs:322-341 | in any interleaving, a signer call directly follows such a LAST and gets its path and exactly its bytes |
| Device.RunTurn | crates/sunrise-edge-ledger-app/src/main.rs:173-276 | one turn has the session, derivations, signer calls, screen and reply of its specification |
| Device.ReplyTurn | crates/sunrise-edge-ledger-app/src/main.rs:207-226 | a plain reply goes out with its payload on success only, and a failed send resets |
| Device.PublicKeyTurn | crates/sunrise-edge-ledger-app/src/main.rs:227-247 | the buffer shown holds the key's hexadecimal text, and the key is returned only on approval |
| Device.ReviewTurn | crates/sunrise-edge-ledger-app/src/main.rs:248-275 | after an accepted LAST the filled buffers show the facts, and the frame is signed or rejected as the user answers |
| Device.NormalMain | crates/sunrise-edge-ledger-app/src/main.rs:165-284 | every finite run from power-on makes exactly the specified derivations and signer calls, in order, and shows and replies in each turn as specified |
| Device.LogIsPerTurn | crates/sunrise-edge-ledger-app/src/main.rs:247-262 | each entry of the signer's log is the one call of its own turn, in turn order, and no signing turn is missing |
| SigningSafety.LoopHeadKeeps | crates/sunrise-edge-ledger-app/src/main.rs:173-276 | between turns no approval is pending, the session invariant holds, and a collecting session holds exactly the path, total and bytes of one uninterrupted FIRST, CONTINUE, ... sequence |
| SigningSafety.SigningTurn | crates/sunrise-edge-ledger-app/src/main.rs:247-262 | a turn that signs was approved, showed the facts of the review its command returned, and signs the frame that command put up |
| SigningSafety.EverySignatureIsJustified | crates/sunrise-edge-ledger-app/src/main.rs:173-276 | in every run, each signer call covers exactly one uninterrupted sequence's bytes and path, reviewed for the derived sender, shown and approved in that turn, at most one per review, and determined by the facts shown |
| SigningSafety.EveryLoggedSignatureIsJustified | crates/sunrise-edge-ledger-app/src/main.rs:173-276 | the same of every entry of the signer's log, each by a turn of its own, in order |
| SigningSafety.SameDisplaySignsSameBytes | crates/sunrise-edge-ledger-app/src/main.rs:247-262 | across any two runs, equal displays mean equal signed bytes |
| SigningSafety.VerifiedKeyWasShown | crates/sunrise-edge-ledger-app/src/main.rs:227-247 | a key is returned exactly when an idle device derives it for a well-formed path and the user approves, and it is the key whose text was shown |
| SigningSafety.SuccessAfterLastIsASignature | crates/sunrise-edge-ledger-app/src/main.rs:250-262 | a successful reply to LAST is the signer's answer for the turn's one call |
| SigningSafety.UndecodableTurn | crates/sunrise-edge-ledger-app/src/main.rs:175-182 | a header that does not decode resets the session and shows, derives and signs nothing |
| SigningSafety.PlainTurn | crates/sunrise-edge-ledger-app/src/main.rs:207-226 | a plain reply goes out with its own status and bytes, and a failed send resets |
| SigningSafety.KeyTurn | crates/sunrise-edge-ledger-app/src/main.rs:227-247 | a well-formed key request on an idle device shows the key's text and replies with the key or a rejection, as the user says |
| SigningSafety.JudgedTurn | crates/sunrise-edge-ledger-app/src/main.rs:248-275 | the whole turn for a frame that the policy reviews for the derived key: facts, signer call and reply, approved, rejected or not displayable |
| SigningSafety.SentChunksAreAccepted | crates/sunrise-edge-ledger-app/src/main.rs:173-226 | from idle, each chunk of any split before the last is answered with success and no data, and collected |
| SigningSafety.ApprovedFrameIsSigned | crates/sunrise-edge-ledger-app/src/main.rs:173-276 | conversely, from an idle session a frame that is reviewed for the derived key, sent in any split, displayed and approved is signed, exactly, with its path, and the signature is the reply |
| SigningSafety.RejectedFrameIsNotSigned | crates/sunrise-edge-ledger-app/src/main.rs:264-268 | the same frame, rejected, was shown, is not signed, and the reply says so |

## Left out

- Transport, screens and popups: the user's answer and whether a reply could be sent are inputs of a turn, and which error reply the transport picks for an undecodable command header is not modelled.
- SLIP-0010 derivation and Ed25519 signing: arbitrary answers, with every call logged.
- Status-word numbers and their mapping to the wire: the model stops at the named status.
- The concrete devnet policy: all results hold for an arbitrary policy value, so its constants would add only instances.
- Bounded bytes and bounded text inside decoded values are their bytes: the padding is always zero, so that comparing containers compares bytes.
- The access manifest inside a decoded transaction is a sequence of entries; the fixed-capacity object appears in the decoder that fills it.
- Which error each schema decoder reports for a field that is missing, of the wrong length or of an unknown kind: a session answers InvalidData to all of them.
- Runs are finite prefixes of the endless event loop.
- Compression.CompressEd25519Point: does not check that X is a field element or that the point lies on the curve, as the source does not either.
