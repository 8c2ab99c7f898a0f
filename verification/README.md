# Verified models of Bitkey's key derivation, action proofs, buttons and certificates

This project models seven self-contained pieces of Bitkey in Dafny 4.11 and proves
what each of them is for. `dafny verify dfyconfig.toml` checks everything.

- **BIP-32** (`Secp256k1`, `Bip32`, `ExtendedKeys`, `Endian`). Child keys are derived in
  place on a packed prefix, key and chain code. HMAC-SHA512 and HASH160 are arbitrary
  functions that may fail; the curve is any group in which multiplying the generator is a
  homomorphism from Z/N with trivial kernel and decoding inverts encoding (`Secp256k1.Lawful`,
  with an instance in `Secp256k1.LawsAreSatisfiable`). Public derivation commutes with private
  derivation along whole paths, failures included. From the seed to the end of every path the
  keys are those that the BIP-32 sections "Master key generation" and "Child key derivation (CKD)
  functions" define on scalars, and fingerprints are those of "Key identifiers".
- **Action proofs** (`Utf8`, `Splitting`, `Lex`, `Actions`, `Validation`, `Payload`,
  `PayloadTheorems`). A Dafny `string` is a sequence of Unicode scalar values, as a Rust `&str`
  is; UTF-8 follows section 3 of RFC 3629. Printing and parsing the signed payload are inverse
  to each other over all Unicode input, and the exact image of the printer is known.
- **Buttons** (`Buttons`, `ButtonTheorems`, `ButtonTiming`, `ButtonPress`, `ButtonOrigins`,
  `ButtonDriver`, `ButtonConsumer`). Debouncing, single and both-button modes, long presses and
  the eight-slot ring buffer, over every run, with 32-bit wrapping time: which event each press
  gives, and which press each event reports.
- **Signature commitment** (`Commitment`). Sort, backwards hash chain, reverse. The hash is an
  arbitrary function into 32 bytes; binding is "same content, or this pair collides".
- **picocert** (`Picocert`). Codec, chain validation and issuing, with the clock as a parameter
  and an arbitrary signature scheme.
- **Newest-tail pagination** (`Pagination`). A capped backwards page walk over a stable list.
- **Feature flags** (`FlagStore`, `FlagDriver`) and **flash regions** (`Partitions`). A stored
  file whose reads and writes fail in any way, and the cursor that places linker regions.

Each imperative member is proved against a function on values, and the theorems are about
those functions. Firmware assertions are preconditions. Times, file-system outcomes, raw button
levels, fresh key pairs and the served list are parameters.

Where the code and its comments disagree, the model follows the code:

- `verify_inputs_only_have_one_signature` reports "more than one signature" for an input with
  none as well; the model has one error for both.
- `generate_message` calls the commitment `h[n]` in a comment; it is given `h[0]`.
- `feature_flags_read` logs that it recreates the file after a failed read, but when only the
  closing of the file failed the flags just read are kept (`FlagStore.InitKeepsStored`).

Properties that turn out to fail, each with the input that shows it and the exact condition:

- A press of one button alone, from idle, that lasts at least 50 ms is reported, except when it
  begins as the clock reads 0 (`ButtonPress.UnreportedPress`,
  `ButtonPress.PressAtZeroGoesUnreported`).
- A single-button long press that was started is also stopped, except when the other button goes
  down before its release (`ButtonTiming.TakeoverLosesStop`), or its age reads below 50 ms at the
  release, which takes a wrapped clock (`ButtonTiming.WrappedClockSwallowsStop`). The closing
  update is exact in `ButtonTiming.OpenPressEnds`; over whole runs on a clock that does not wrap,
  every START is stopped, taken over or still open (`ButtonTiming.EveryStartIsAccounted`).
- Everything the parser accepts can be printed, except with an empty binding key or an `=` in a
  binding value (`PayloadTheorems.ImageOfBuild`, `PayloadTheorems.ParserIsWiderThanPrinter`).
- The page cap does not cut the answer short, except when ids are compared, the window keeps too
  few distinct ones and some item in front of it has an id that no newer item shares
  (`Pagination.UniqueTailIsExact`, `Pagination.CapCanCutUniqueTail`).
- A successful flag write leaves the file equal to memory, except when a longer file was there
  and stayed (`FlagStore.SuccessMeansSaved`, `FlagStore.LongFileKeepsTail`).
- A sectioned partition is covered exactly by ranges, except when the sized sections leave space
  and not exactly one section is unsized, or when they exceed the partition
  (`Partitions.CoveredIff`, `Partitions.UncoveredPartition`, `Partitions.SpilledPartition`).
- A layout that passes the size check lies inside the flash, except when the cursor's extents
  exceed it or an unsized section gets negative space (`Partitions.LayoutSafeIff`,
  `Partitions.LayoutLeavesFlash`).

## Model

| member | source | states |
|---|---|---|
| Secp256k1.TweaksAgree | firmware/lib/crypto/src/ecc.c:300-345 | tweaking a private key and tweaking its public key give matching keys or fail together |
| Secp256k1.TweakedKeyIsValid | firmware/lib/crypto/src/ecc.c:311-317 | a tweaked private key is again a nonzero scalar below the group order |
| Endian.BigEndianDigit | firmware/lib/bip32/bip32.c:361-363 | serialized words carry the most significant byte first |
| Endian.LittleEndianDigit | core/picocert/src/lib.rs:121-122 | certificate times carry the least significant byte first |
| Bip32.StepCommutes | firmware/lib/bip32/bip32.c:27-128 | one unhardened child step commutes with neutering, failures included |
| Bip32.PublicDerivationCommutes | firmware/lib/bip32/bip32.c:165-245 | for every key and paths p, q with q unhardened: private p+q then neuter equals private p, neuter, public q, in key, chain code and failure |
| Bip32.PublicNeedsUnhardened | firmware/lib/bip32/bip32.c:208-232 | public derivation succeeds only on paths without a hardened index |
| Bip32.PrivateComposes | firmware/lib/bip32/bip32.c:165-206 | deriving p+q privately is deriving p and then q |
| Bip32.PublicComposes | firmware/lib/bip32/bip32.c:208-232 | deriving p+q publicly is deriving p and then q |
| Bip32.DerivedKeysAreValid | firmware/lib/bip32/bip32.c:27-95 | a successful nonempty walk starts and ends at usable scalars and keeps the prefix |
| Bip32.WalletKeysAreValid | firmware/lib/bip32/bip32.c:130-206 | every key on every path of every seed is a private key that has a public form |
| Bip32.StepRefines | firmware/lib/bip32/bip32.c:27-95 | the byte-level child step computes CKDpriv as BIP-32 words it on a scalar and a chain code |
| Bip32.DerivationRefines | firmware/lib/bip32/bip32.c:165-206 | so does a whole path, and it fails exactly when the reference fails |
| Bip32.MasterRefines | firmware/lib/bip32/bip32.c:130-163 | the master key is the left half of HMAC-SHA512 under "Bitcoin seed" as a scalar and the right half as chain code, refused exactly when that scalar is 0 or not below the order |
| Bip32.WalletRefines | firmware/lib/bip32/bip32.c:130-206 | from a seed along any path, the result is the standard's key, and fails exactly when the standard fails |
| Bip32.PublicMatchesReference | firmware/lib/bip32/bip32.c:97-245 | public derivation reaches the encoded point of the reference scalar, with its chain code |
| Bip32.NeuteringKeepsFingerprint | firmware/lib/bip32/bip32.c:247-276 | a private key and its public form have the same fingerprint |
| Bip32.FingerprintIsTopWord | firmware/lib/bip32/bip32.c:247-276 | a fingerprint is the top 32 bits of HASH160 of the compressed public key, for private and public keys, and other keys have none |
| Bip32.ParentFingerprintMatchesReference | firmware/lib/bip32/bip32.c:165-206 | the fingerprint reported with a derived key is that of the standard's key one step above |
| Bip32.WatchOnlyFingerprint | firmware/lib/bip32/bip32.c:208-290 | deriving publicly gives the fingerprints deriving privately gives |
| Bip32.SerializedIsInjective | firmware/lib/bip32/bip32.c:337-372 | equal 78-byte outputs have equal version, depth, fingerprint, child number and key |
| Bip32.SerializedFields | firmware/lib/bip32/bip32.c:337-372 | the offset of every field in the 78 bytes |
| ExtendedKeys.CkdPrivUnhardenedInPlace | firmware/lib/bip32/bip32.c:27-59 | the unhardened child replaces the key; a failure wipes the parent's key, except that a failed HMAC leaves it |
| ExtendedKeys.CkdPrivHardenedInPlace | firmware/lib/bip32/bip32.c:61-95 | the hardened child replaces the key; a failure wipes the parent's key, except that a failed HMAC leaves it |
| ExtendedKeys.CkdPrivInPlace | firmware/lib/bip32/bip32.c:190-199 | the hardened bit selects the child function and what its failure leaves |
| ExtendedKeys.CkdPubInPlace | firmware/lib/bip32/bip32.c:97-128 | the public child replaces the key; a failure leaves it as it was |
| ExtendedKeys.DeriveMasterKey | firmware/lib/bip32/bip32.c:130-163 | the standard's master key of a seed, refused exactly when the standard refuses it; the refused digest stays in the output under the old prefix |
| ExtendedKeys.PrivToPubInPlace | firmware/lib/bip32/bip32.c:234-245 | the public form, also when input and output are the same structure |
| ExtendedKeys.ComputeFingerprint | firmware/lib/bip32/bip32.c:247-276 | the fingerprint of a private or public key, none for any other prefix; a private key without a public form is wiped |
| ExtendedKeys.DeriveStep | firmware/lib/bip32/bip32.c:179-200 | one turn of the path loop: fingerprint first, then the child; both buffers after either failure |
| ExtendedKeys.DerivePathPriv | firmware/lib/bip32/bip32.c:165-206 | success exactly when the walk and all fingerprints on it succeed; the child, and the fingerprint of the key one step above it, zeros on the empty path; after a failure, the buffers at the first index that fails |
| ExtendedKeys.DerivePathPub | firmware/lib/bip32/bip32.c:208-232 | success and child of the public walk; a failure leaves the last key that was reached |
| ExtendedKeys.FingerprintForPath | firmware/lib/bip32/bip32.c:278-290 | the fingerprint of the key at the end of the path; zeros when the walk fails, the parent's when only the last fingerprint does |
| ExtendedKeys.WriteHeader | firmware/lib/bip32/bip32.c:337-342 | version and depth at the front, all else still zero |
| ExtendedKeys.WriteParent | firmware/lib/bip32/bip32.c:344-359 | zeros at depth 0, else the computed or the given fingerprint; a failure leaves the given one or zeros, and nothing behind the field changes |
| ExtendedKeys.WriteChild | firmware/lib/bip32/bip32.c:361-372 | child number, chain code and key fill the buffer to its end |
| ExtendedKeys.SerializeExtKey | firmware/lib/bip32/bip32.c:292-374 | exactly when it succeeds, and the 78 bytes it leaves in every case |
| Utf8.DecodeEncode | core/action-proof/src/payload.rs:143-176 | decoding inverts encoding on every string |
| Utf8.EncodeDecode | core/action-proof/src/payload.rs:143-176 | every accepted byte string is the encoding of what it decodes to |
| Utf8.AsciiOccurs | core/action-proof/src/payload.rs:21-25 | a separator byte occurs in the bytes exactly when its character occurs in the text |
| Utf8.AsciiByteAt | core/action-proof/src/validation.rs:67-75 | an ASCII byte at a position is the character whose preceding text takes that many bytes |
| Splitting.SplitJoin | core/action-proof/src/payload.rs:137-141 | splitting undoes joining when no part holds the separator |
| Splitting.JoinSplit | core/action-proof/src/payload.rs:137-141 | joining undoes splitting, and no part holds the separator |
| Splitting.SplitOnceRejoins | core/action-proof/src/payload.rs:199-203 | split-once fails exactly without a separator and cuts at the first one |
| Lex.LessIff | core/action-proof/src/payload.rs:29-40 | string order is decided at the first different byte, a proper prefix coming first |
| Actions.NamesAreDistinct | core/action-proof/src/action.rs:5-34 | no two of the 28 actions share a name |
| Actions.FromStrInverts | core/action-proof/src/lib.rs:34-62 | reading an action's name gives that action |
| Validation.ControlBytesAreControlCharacters | core/action-proof/src/validation.rs:67-75 | scanning bytes finds exactly the control characters of the text |
| Validation.VerdictIsExact | core/action-proof/src/validation.rs:56-78 | a value passes exactly when it is nonempty, at most 128 bytes, printable, visible and not Latin mixed with a confusable script |
| Validation.ErrorIff | core/action-proof/src/validation.rs:29-78 | a value is refused with an error exactly when that error says what is wrong: first failing check, first control character by byte position, first invisible one by character position |
| Validation.CheckUnicodeSafety | core/action-proof/src/validation.rs:29-54 | the first dangerous character, else mixed scripts, else acceptance |
| Validation.ValidateValue | core/action-proof/src/validation.rs:56-78 | acceptance exactly of valid values, else the error of the first failing check and its position in the text |
| Payload.WindowScanIsExact | core/action-proof/src/payload.rs:28-40 | comparing neighbours finds exactly the key lists that are not strictly sorted |
| Payload.ReservedBytesAreReservedCharacters | core/action-proof/src/payload.rs:21-25 | the byte test means the characters 0x1F, '=' and ',' |
| Payload.ValidateBindings | core/action-proof/src/payload.rs:27-55 | the first order fault, else the first bad binding, else acceptance |
| Payload.WriteBindings | core/action-proof/src/payload.rs:124-131 | appends the UTF-8 of the comma-joined pairs |
| Payload.BuildPayload | core/action-proof/src/payload.rs:100-134 | the joined five fields, or the first validation error |
| Payload.ValidateParsedBindings | core/action-proof/src/payload.rs:211-226 | the first order fault, else the bindings |
| Payload.ParseBindings | core/action-proof/src/payload.rs:193-209 | the pairs in order, the first pair without '=', or the order fault |
| PayloadTheorems.ReadBindings | core/action-proof/src/payload.rs:193-226 | sorted clean bindings are read back from their text |
| PayloadTheorems.ReprintBindings | core/action-proof/src/payload.rs:193-226 | a text that is read is the text of what was read, which is sorted and clean |
| PayloadTheorems.ParseInvertsRender | core/action-proof/src/payload.rs:109-184 | every layout of acceptable fields parses to those fields |
| PayloadTheorems.RenderInvertsParse | core/action-proof/src/payload.rs:136-226 | every accepted payload is the layout of the fields it parses to |
| PayloadTheorems.AcceptedIff | core/action-proof/src/payload.rs:136-226 | the accepted payloads are exactly the layouts of acceptable fields |
| PayloadTheorems.ParseIsInjective | core/action-proof/src/payload.rs:136-226 | payloads that parse alike are equal |
| PayloadTheorems.BuildIsExact | core/action-proof/src/payload.rs:100-134 | exactly which requests are printed |
| PayloadTheorems.BuildErrorsAreExplained | core/action-proof/src/payload.rs:27-107 | a refused request names the fault of its value, else the first keys out of order or equal, else the first binding with an empty or reserved key or value |
| PayloadTheorems.RoundTrip | core/action-proof/src/payload.rs:100-209 | whatever is printed parses to the same action, value (empty as none) and bindings |
| PayloadTheorems.PayloadDeterminesRequest | core/action-proof/src/payload.rs:100-209 | equal payloads come from equal requests |
| PayloadTheorems.ImageOfBuild | core/action-proof/src/payload.rs:21-226 | the printable payloads are the accepted ones with nonempty keys and no '=' in a value |
| PayloadTheorems.ParserIsWiderThanPrinter | core/action-proof/src/payload.rs:193-226 | a payload that is accepted and never printed |
| PayloadTheorems.VersionErrors | core/action-proof/src/payload.rs:148-159 | which of the three version errors, by the decimal value after an optional plus sign |
| PayloadTheorems.BindingsErrorIsExplained | core/action-proof/src/payload.rs:193-226 | a bindings error names the first pair without '=', or else the first two neighbouring keys out of order or equal |
| PayloadTheorems.ErrorsAreExplained | core/action-proof/src/payload.rs:136-184 | a refused payload is refused for its first bad field, with the error that says so |
| Buttons.StepKeepsInv | firmware/hal/button/button.c:98-187 | at most one press timer runs, none in both-button mode, and an update queues at most one event |
| Buttons.RunKeepsInv | firmware/hal/button/button.c:64-187 | that holds in every run from initialization |
| ButtonTheorems.StepExplained | firmware/hal/button/button.c:114-180 | what an event implies about the states around it; no single-button event around both-button mode |
| ButtonTheorems.EveryRunIsGrammatical | firmware/hal/button/button.c:114-180 | BOTH events form (SHORT, START STOP)* with an open START exactly during a both-button long press; a single STOP directly follows its START |
| ButtonTiming.StepStaysClocked | firmware/hal/button/button.c:98-187 | stored times lie in the past, open long presses are at least 500 ms old, events carry the current time |
| ButtonTiming.EventsAreWellTimed | firmware/hal/button/button.c:124-178 | without wrap-around: START reports 500 ms, STOP at least 500 ms, single short presses at least 50 ms, over every run |
| ButtonTiming.OpenPressEnds | firmware/hal/button/button.c:111-178 | the update that closes an open long press sends STOP exactly when not both buttons are down and its age reads at least 50 ms; with both down a both-button press begins |
| ButtonTiming.NoStopIsSwallowed | firmware/hal/button/button.c:111-178 | without wrap-around only a second button takes the STOP away |
| ButtonTiming.EveryStartIsAccounted | firmware/hal/button/button.c:98-187 | over every run without wrap-around, a START is followed by its STOP, by the both-button press that takes it over, or is open at the end; a STOP or takeover comes only then |
| ButtonTiming.NotesAreTheEvents | firmware/hal/button/button.c:98-187 | leaving the takeovers out of that account gives exactly the button's events, in order |
| ButtonTiming.TakeoverLosesStop | firmware/hal/button/button.c:114-123 | a run on an ordinary clock whose STOP is lost to the second button |
| ButtonTiming.WrappedClockSwallowsStop | firmware/hal/button/button.c:164-167 | a run with a wrapped clock that loses a STOP |
| ButtonTiming.ChangesAreSpaced | firmware/hal/button/button.c:78-96 | consecutive accepted level changes of a button are at least 30 ms apart modulo the clock, over every run |
| ButtonTiming.ChangesAreSpacedInTime | firmware/hal/button/button.c:78-96 | without wrap-around they are at least 30 ms apart |
| ButtonPress.PressReports | firmware/hal/button/button.c:98-187 | all events of one press of one button, for every way it is sampled |
| ButtonPress.UnreportedPress | firmware/hal/button/button.c:149-167 | a press of one button from idle, of at least 50 ms, is unreported exactly when it begins at clock 0 |
| ButtonPress.PressAtZeroGoesUnreported | firmware/hal/button/button.c:149-167 | a run from initialization whose second press, held for a second, goes unreported |
| ButtonPress.BothPressReports | firmware/hal/button/button.c:114-141 | all events of one press of both buttons |
| ButtonOrigins.RunKeepsTimer | firmware/hal/button/button.c:78-187 | in every run, a running press timer is the time of that button's last accepted level change |
| ButtonOrigins.SingleEventsReportAPress | firmware/hal/button/button.c:98-187 | in every run, a single-button event reports the time since an accepted press of that button, after which it stayed down and no both-button press was on |
| ButtonOrigins.EveryPressIsReported | firmware/hal/button/button.c:98-187 | in every run, what the next update reports of a press that is on: STOP or a short press at its release after 50 ms, START once at 500 ms, else nothing, and nothing at all if it was accepted at clock 0 |
| ButtonOrigins.BothEventsReportAPress | firmware/hal/button/button.c:114-141 | in every run, a both-button event reports the time since both buttons were first down together |
| ButtonOrigins.EveryBothPressIsReported | firmware/hal/button/button.c:114-141 | in every run, what the next update reports of a both-button press: STOP or a short press when one button comes up, START once at 500 ms, else nothing |
| ButtonOrigins.StaggeredRelease | firmware/hal/button/button.c:131-155 | two fingers that come up one after the other report one short press |
| ButtonDriver.Driver.constructor | firmware/hal/button/button.c:64-76 | levels as read, no timers, empty queue |
| ButtonDriver.Driver.QueueEvent | firmware/hal/button/button.c:46-62 | appends, dropping the oldest event of a full queue |
| ButtonDriver.Driver.GetEvent | firmware/hal/button/button.c:189-199 | takes the oldest event; refuses a null target or an empty queue |
| ButtonDriver.Driver.ReadHardwareState | firmware/hal/button/button.c:78-96 | both levels debounced |
| ButtonDriver.Driver.HandleBoth | firmware/hal/button/button.c:114-141 | the both-button step in place |
| ButtonDriver.Driver.HandleSingle | firmware/hal/button/button.c:145-179 | the single-button step in place, the other button untouched |
| ButtonDriver.Driver.HandleSingles | firmware/hal/button/button.c:143-180 | both single-button steps in order |
| ButtonDriver.Driver.HandleButtons | firmware/hal/button/button.c:105-180 | everything after debouncing: both-button step, then the single ones outside both-button mode |
| ButtonDriver.Driver.UpdateState | firmware/hal/button/button.c:98-187 | new state and queue of one step; true exactly when an event was queued |
| ButtonConsumer.QueueHoldsNewest | firmware/hal/button/button.c:46-62 | in every run the queue is the newest events in order, at most eight |
| ButtonConsumer.PromptConsumerLosesNothing | firmware/hal/button/button.c:46-199 | a consumer that empties the queue once in every eight updates gets every event, in order |
| Commitment.SortedSorts | core/wsm-grant/src/tx_verification.rs:49-50 | sorting orders and keeps the multiset |
| Commitment.SortedIsUnique | core/wsm-grant/src/tx_verification.rs:49-50 | the multiset determines the sorted sequence |
| Commitment.VerifyInputs | core/wsm-grant/src/tx_verification.rs:10-18 | true exactly when every input has one signature |
| Commitment.SignaturesAreSecond | core/wsm-grant/src/tx_verification.rs:36-47 | what an input contributes is its signature, not its public key |
| Commitment.ExtractSignatures | core/wsm-grant/src/tx_verification.rs:36-47 | the signature beside the public key of each input, in order |
| Commitment.HashBackwards | core/wsm-grant/src/tx_verification.rs:52-63 | the loop builds the chain in reverse |
| Commitment.CalculateChainedSighashes | core/wsm-grant/src/tx_verification.rs:27-67 | exactly when it succeeds, and then a chain of n+1 links that ends in init and hashes the inputs' signatures in sorted order |
| Commitment.CommittedChainIsUnique | core/wsm-grant/src/tx_verification.rs:20-67 | that description fits no other chain |
| Commitment.ChainShape | core/wsm-grant/src/tx_verification.rs:20-24 | the chain ends in init and h[i] = H(h[i+1], sorted[i]) |
| Commitment.ChainIsUnique | core/wsm-grant/src/tx_verification.rs:20-24 | nothing else has that length, end and links |
| Commitment.OrderIsIrrelevant | core/wsm-grant/src/tx_verification.rs:27-67 | permuting the inputs changes neither the chain nor the error |
| Commitment.EqualHeads | core/wsm-grant/src/tx_verification.rs:52-64 | equal heads: equal chains, a collision at a link, or a seed that is a link of the longer chain |
| Commitment.CommitmentBinds | core/wsm-grant/src/tx_verification.rs:20-67 | one commitment opens to one seed and one multiset of signatures, or a collision is shown |
| Commitment.MessageBinds | core/wsm-grant/src/tx_verification.rs:69-98 | one message is for one key and one such opening, or a collision is shown |
| Commitment.MessageLayout | core/wsm-grant/src/tx_verification.rs:69-98 | the message hashes "TVA1", the key and the commitment, in this order |
| Picocert.ParseCertificate | core/picocert/src/lib.rs:138-190 | the fields at their offsets, or an error for any other length |
| Picocert.SignableFields | core/picocert/src/lib.rs:115-125 | the offset of every field in the signed bytes |
| Picocert.FromToBytes | core/picocert/src/lib.rs:115-190 | reading inverts writing |
| Picocert.ToFromBytes | core/picocert/src/lib.rs:115-190 | writing inverts reading on every 146-byte string |
| Picocert.SignableIsInjective | core/picocert/src/lib.rs:115-125 | the signed bytes determine all fields but the signature |
| Picocert.LinkValidIff | core/picocert/src/lib.rs:231-256 | a link validates exactly when it is sound and both certificates are current |
| Picocert.LinkErrorIff | core/picocert/src/lib.rs:231-256 | a link is refused with an error exactly when that error says the first thing that is wrong |
| Picocert.ValidateCertChain | core/picocert/src/lib.rs:258-273 | the verdict of the first bad link, else of the root |
| Picocert.WindowsNest | core/picocert/src/lib.rs:249-252 | validity windows nest across the whole chain |
| Picocert.ChainValidIff | core/picocert/src/lib.rs:231-273 | a chain validates exactly when it is sound and the leaf is current |
| Picocert.ChainErrorIsExplained | core/picocert/src/lib.rs:258-273 | a refused chain is empty or refused for its first bad link |
| Picocert.ValidatesAgain | core/picocert/src/lib.rs:231-273 | once valid, valid again exactly inside the leaf's window |
| Picocert.SuffixValidates | core/picocert/src/lib.rs:258-273 | every nonempty suffix of a valid chain is valid |
| Picocert.IssueCertificate | core/picocert/src/lib.rs:289-330 | on success a valid certificate for exactly the given name, window and key pair, signed by the issuer; else the signing or validation error |
| Picocert.IssuedFields | core/picocert/src/lib.rs:289-330 | version, zero-padded name, window, public and private key, issuer name and signature of whatever is issued |
| Picocert.IssueSucceedsIff | core/picocert/src/lib.rs:289-330 | with matching keys, issuing succeeds exactly when the windows and the issuer's version allow it |
| Picocert.IssuedLinkIsSound | core/picocert/src/lib.rs:311-327 | what issuing returns is vouched for by its issuer |
| Picocert.GrownChainIsSound | core/picocert/src/lib.rs:289-330 | any number of issue calls, at any times, grow a sound chain |
| Picocert.GrownChainValidates | core/picocert/src/lib.rs:275-330 | with a leaf issued for a fresh key pair, such a chain validates exactly while the leaf is current, and then accepts what that key signs, unless it is empty |
| Pagination.NewestTailSelector.constructor | automation/feedback-loop/feedback_loop/github.py:560-571 | nothing offered; full at once when no items are wanted |
| Pagination.NewestTailSelector.AddNewerItem | automation/feedback-loop/feedback_loop/github.py:586-597 | keeps holding the last wanted items of everything offered |
| Pagination.NewestTailSelector.AddAscendingPage | automation/feedback-loop/feedback_loop/github.py:577-581 | offers the page newest first until full |
| Pagination.NewestTailSelector.ItemsAscending | automation/feedback-loop/feedback_loop/github.py:583-584 | the last wanted items of everything offered, in original order |
| Pagination.KeysIdentify | automation/feedback-loop/feedback_loop/github.py:518-524 | different numbers, and different texts, have different keys; a number shares its key only with the text of its digits |
| Pagination.KeptIsExact | automation/feedback-loop/feedback_loop/github.py:586-597 | with ids compared, exactly the newest item of each id is kept, and every item without an id |
| Pagination.KeptIdsAreDistinct | automation/feedback-loop/feedback_loop/github.py:586-597 | no two kept items share an id |
| Pagination.EnoughIsEnough | automation/feedback-loop/feedback_loop/github.py:394-395 | stopping early changes nothing |
| Pagination.WindowIsWideEnough | automation/feedback-loop/feedback_loop/github.py:555-556 | the page cap leaves enough items in reach |
| Pagination.CapNeverCuts | automation/feedback-loop/feedback_loop/github.py:365-374 | without comparing ids the capped window has the last items of the whole list |
| Pagination.WalkPages | automation/feedback-loop/feedback_loop/github.py:371-397 | what the backwards walk has offered answers for the capped window |
| Pagination.TakeOnePage | automation/feedback-loop/feedback_loop/github.py:357-363 | a list of one page is answered from that page |
| Pagination.PaginatedTailList | automation/feedback-loop/feedback_loop/github.py:332-397 | exactly the last max_items of the list, in original order |
| Pagination.UniqueTailIsExact | automation/feedback-loop/feedback_loop/github.py:332-397 | with ids compared, complete exactly when the window keeps enough or every item in front of it shares its id with a newer one |
| Pagination.CapCanCutUniqueTail | automation/feedback-loop/feedback_loop/github.py:365-374 | a list whose unique tail is cut short |
| FlagStore.InitMakesReady | firmware/lib/feature-flags/feature_flags.c:28-44 | after init all flags count and production is not unlocked, whatever fails |
| FlagStore.CallKeepsReady | firmware/lib/feature-flags/feature_flags.c:55-88 | every call keeps that |
| FlagStore.RunStaysReady | firmware/lib/feature-flags/feature_flags.c:28-132 | so does every run |
| FlagStore.SuccessMeansSaved | firmware/lib/feature-flags/feature_flags.c:28-132 | a call that returns true has stored the flags; the file equals them exactly when no longer file stayed |
| FlagStore.LongFileKeepsTail | firmware/lib/feature-flags/feature_flags.c:108-132 | a ten-entry file that cannot be removed: init returns true and the file is not what is in memory |
| FlagStore.InitKeepsStored | firmware/lib/feature-flags/feature_flags.c:90-124 | an upgrade keeps the stored flags and adds defaults |
| FlagStore.InitResets | firmware/lib/feature-flags/feature_flags.c:90-124 | a missing, unreadable or too long file resets every flag to its default |
| FlagStore.SuccessSurvivesReboot | firmware/lib/feature-flags/feature_flags.c:28-132 | stored flags come back after a reboot, or all reset when the file is too long |
| FlagStore.SetTakesEffect | firmware/lib/feature-flags/feature_flags.c:55-68 | an accepted flag has the given value in memory, on success in the file and after a reboot, and no other flag changes; a refused one changes nothing |
| FlagStore.SetMultipleTakesEffect | firmware/lib/feature-flags/feature_flags.c:70-88 | the same for a list of settings, the last entry for a flag deciding; one refused entry refuses all |
| FlagStore.LastEntryWins | firmware/lib/feature-flags/feature_flags.c:83-87 | the last entry for a flag decides, others stay |
| FlagDriver.Driver.ReadFile | firmware/lib/filesystem/filesystem_util.c:43-82 | after success the file is exactly the flags that count; buffer and size after every kind of failure |
| FlagDriver.Driver.WriteFile | firmware/lib/filesystem/filesystem_util.c:6-22 | after success the file starts with the flags that count, followed by what a longer file had behind them |
| FlagDriver.Driver.SetDefaultValues | firmware/lib/feature-flags/feature_flags.c:90-106 | defaults from the current length on |
| FlagDriver.Driver.ReadFlags | firmware/lib/feature-flags/feature_flags.c:108-124 | read, recreate or upgrade |
| FlagDriver.Driver.InitFlags | firmware/lib/feature-flags/feature_flags.c:28-44 | and the production override |
| FlagDriver.Driver.SetFlag | firmware/lib/feature-flags/feature_flags.c:55-68 | the given value for this flag and no other change, or nothing when refused |
| FlagDriver.Driver.SetFlags | firmware/lib/feature-flags/feature_flags.c:70-88 | all settings in order, or nothing when one is refused |
| Partitions.GetPartitionFreeSpace | firmware/config/partitions/__init__.py:74-79 | what the sized sections leave |
| Partitions.CheckMemoryUsage | firmware/config/partitions/__init__.py:49-55 | the overflow, if any |
| Partitions.Generate | firmware/config/partitions/__init__.py:57-107 | the flash layout, or the overflow; and exactly when a returned layout is disjoint ranges inside the flash |
| Partitions.LayoutTiles | firmware/config/partitions/__init__.py:84-103 | the regions are contiguous from the origin, for every configuration |
| Partitions.RegionOfSection | firmware/config/partitions/__init__.py:87-98 | the region of a section has the partition's and its own name, and its own size or the free space |
| Partitions.CoveredIff | firmware/config/partitions/__init__.py:85-98 | a partition's regions end with it and none is negative, exactly when the sized sections fill it or leave room for one unsized section |
| Partitions.NonNegativeIff | firmware/config/partitions/__init__.py:74-98 | no region is negative exactly when sized sections leave room wherever a section is unsized |
| Partitions.UncoveredPartition | firmware/config/partitions/__init__.py:85-98 | a partition that is not covered to its end |
| Partitions.SpilledPartition | firmware/config/partitions/__init__.py:85-98 | a partition whose sized section runs over its end, and a region of negative size behind it |
| Partitions.LayoutSafeIff | firmware/config/partitions/__init__.py:49-103 | the whole layout is disjoint ranges inside the flash exactly when unsized sections have room and the extents add up to at most the flash |
| Partitions.LayoutLeavesFlash | firmware/config/partitions/__init__.py:49-103 | a configuration that passes the size check and leaves the flash |
| Partitions.PartitionIsCovered | firmware/config/partitions/__init__.py:84-103 | in a well-formed configuration each partition has exactly its own range |
| Partitions.RegionsAreDisjoint | firmware/config/partitions/__init__.py:57-103 | in a well-formed configuration, the size check decides whether the regions are disjoint ranges inside the flash |

## Left out

- SHA-256, SHA-512, HMAC, HASH160, ECDSA and secp256k1 arithmetic: arbitrary functions with the laws stated above.
- `bip32_sign` and the clearing of temporary buffers: key handling in hardware and memory hygiene.
- What a failing HMAC or HASH160 call leaves in its output: the model leaves the output as it was.
- Null pointers other than the optional arguments of `bip32_derive_path_priv`, `bip32_serialize_ext_key` and `button_get_event`.
- The wording of error messages, among them the text that `ParseError::InvalidValue` carries; the model carries the validation error itself.
- `Action::display_name`, `Action::value_format` and the token binding: tables and a hash.
- Interrupt handling and GPIO access in the button driver: raw levels are inputs.
- Signature ordering inside one PSBT input, and Rust's choice of sorting algorithm: the sorted order is unique.
- Certificate names as display strings, and reading certificates from files.
- The `gh` subprocess, JSON validation, the Link header syntax and the forward pagination in `github.py`: the list is stable and its last page number right.
- Stored flag bytes other than 0 and 1, and littlefs itself: a file is a sequence of booleans, and a failed write may leave anything.
- Size strings, RAM and SRAM4 regions (the plain case of the same loop), template rendering and library sections of the linker generator.
