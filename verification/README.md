# Verified model of the wrb client

wrb is a browser for applications published through BNS names and StackerDB. This project models
the parts of the client that hold state machines, caches and transformations, and proves what they
are for. Everything is in Dafny; `dafny verify dfyconfig.toml` checks all of it.

| component | files | what is proved |
|---|---|---|
| transactions (SIP-005, SIP-027) | `TxTypes`, `TxCodec`, `TxAuth`, `TxLayout`, `TxTexts`, `TxVerdict`, `TxSigner`, `TxHonest`, `TxSound`, `TxLimits`, `TxOrderIndependent` | what signatures cover, byte by byte; exactly what verifies; the signer's rolling sighash and the verifier's fold agree over whole runs; honest runs complete and verify; the auth codec is exact in both directions |
| wrbpod storage | `PodSlices`, `PodSlicesCodec`, `PodTexts`, `PodSuperblock`, `PodSuperblockCodec`, `PodSuperTexts`, `PodNode`, `PodSession`, `PodOutcomes`, `PodClient`, `PodShared`, `PodWitness` | slice store, slot allocator, both codecs and what they accept, what each session operation does on every input, the versioned write protocol, end-to-end durability, sessions that share a superblock |
| scanline compiler | `Scanline` | compiled commands paint the grid, whole or by rows |
| versioned key-value store | `KvStore`, `KvRuns`, `KvTheorems`, `KvLast`, `KvLimits`, `WrbStore` | the table over whole runs, reads at every height, time travel |
| scene graph and compositing | `Scene`, `SceneFrame`, `SceneUpdate`, `SceneCells` | offsets, depths, the z-buffer frame, text in a pane down to the screen, and what an update of viewports breaks |
| text area | `GapText`, `GapBuffers`, `GapLandings` | the gap buffer refines a pair of texts; where movements land |
| printing | `WordWrap`, `WrapLayout` | word wrap places every character once, in order, and where each word goes |
| zonefile records | `Zonefile`, `ZonefileAppend`, `ZonefileLines` | unescape undoes escape; exactly what any line parses to and which appended records parse back |
| shared | `Prelude`, `Bytes` | optional values and results, fixed-width and big-endian integers, length-prefixed vectors |

Objects the source updates in place are classes whose methods are proved against functions or
relations on values; the laws are lemmas about those. Hashing, signing, recovery and address
derivation are function values. A transaction `Scheme` has two laws: recovery undoes signing, and
the all-zero placeholder signature recovers no key. A `ChunkScheme` has one: a signature by a key
recovers some key and verifies for that key's address and no other. The key-value store's hash is a parameter assumed to be injective and never the sentinel.
White-space and control-character classes are parameters where the source asks Unicode.

## Where the code differs from what it suggests

The model follows the code. Each item is stated as a lemma, with the exact condition where there is
one.

- A single-signature condition signed with a key of the other encoding leaves the signer's sighash
  where the verifier never gets (`SinglesigAgreesExactly`, `MismatchedKeyBreaksSponsor`), and nothing
  repairs it: a run ends in step if and only if every accepted operation had the recorded encoding
  (`RunsStayInStepIff`).
- A sponsor whose condition needs no signature can give none, so its transaction never completes
  (`NeedlessSponsorNeverCompletes`).
- Order-independent multisig refuses more than 65535 signatures, however right (`TooManySignersRefused`).
- Replacing a slice adds its size without giving back the old one. Over a run the accounted size
  drifts above the true one if and only if some accepted put hit an id already there
  (`DriftsIffRewritten`); a reload makes it exact again.
- Asked beforehand, a session says no to a first slice that fills its slot to the last byte, although the
  put accepts it; otherwise the answer is right (`CanFitSliceIsRightIff`).
- The store's decoder takes its ids in any order and lets two of them share a slice
  (`StoreDecodesIff`); of two states under one app name the superblock's decoder keeps the last
  (`SuperblockDecodesIff`).
- A superblock reloads only from slot 0, because a one-element reply is indexed by slot number
  (`SuperblockReloadsOnlyFromSlotZero`), and only with at most 4096 slots and ASCII names
  (`SuperblockOnTheWire`).
- Two sessions whose superblock rounds overlap are both told they succeeded, and one slot goes to two
  apps exactly when each was given any (`OverlappingRoundsCollide`, with `TwoAppsGetOneSlot` as a
  concrete run); rounds that follow each other cannot do that.
- A slot that holds a chunk whose signature does not verify refuses every write, and the client
  retries for ever (`StuckForever`, `BadSignatureSticks`).
- A page load committed before the app was initialised files its rows under the wrong tip, and no
  load can begin again (`LoadNeedsInitialisation`).
- Evaluating at an older block cannot be switched back from, and after a switch back a load no longer
  sees its own writes (`SwitchingBack`, `WritesAreLostOnceBack`).
- The write buffer's index is one too large; a read before draining is off by one
  (`UndrainedReadIsOff`). It is drained at once, so no read meets it.
- The scene graph records a viewport too shallow when it is listed after an ancestor but before its
  parent (`DepthsAreExactIff`).
- Updating viewport settings keeps the old z-buffer and the old offsets. The z-buffer survives exactly
  when, at every position, each viewport that covers it only before or only after is hidden by one in
  front that covers it both times (`UpdatesKeepZBufferIff`, with `HiddenPaneStillCovers` as an
  instance). The offsets survive exactly
  when no viewport was given another position (`OffsetsStayIff`); a moved pane is lost even with a new
  z-buffer (`MovedPaneIsLost`).
- Growing the gap buffer in the middle of a text loses the text after the cursor unless the vector
  was as long as the room added, up to coincidences that are spelled out (`InsertRefinesIff`).
  `set_text` leaves a usable state only without a gap. `backspace` and `delete` can panic when the gap
  is used up (`BackspaceRefines`, `DeleteRefines`). A run of edits is right exactly when each of them
  can be made in its turn (`RunRefinesIff`).
- Moving left by a word from the first word of a text stops at its second character
  (`LeftWordLandsIff`). The empty line after a last newline cannot be reached going down
  (`DownLandsIff`), and going up or to the line start from it goes too far (`UpLandsIff`,
  `LineStartIsStartIff`). Going down on the last line moves along it instead of doing nothing
  (`DownOnLastLine`).
- Backspace looks for a newline in the gap and not in the character it takes out, so after taking out a
  newline the recorded line start is wrong, unless the gap was used up and another newline follows
  (`LosesLine`). Every other edit and every movement keeps it right, and while it is right going up
  does nothing exactly on the first line.
- A word as long as a row or longer that follows a newline leaves a row empty (`WordAfterBreaksStarts`), and
  newlines after the last word do not move the cursor returned (`ReturnedIsLastStop`).
- The zonefile decoder documents that it concatenates all remaining fields. It takes the last four parts, so
  a payload with blanks in it shifts every field, the name included (`LineParsesIff`).
- A zonefile record whose payload holds a space, or whose class is a number, does not parse back
  although it prints (`AppendedRecordParsesIff`).

## Model

| member | source | states |
|---|---|---|
| `TxCodec.FieldRoundTrip` | src/tx/auth.rs:48-115 | an auth field decodes to itself and leaves the bytes after it unread, for all four field ids |
| `TxCodec.SinglesigOnTheWire` | src/tx/auth.rs:505-558 | a single-signature condition decodes to itself exactly when it obeys the compressed-key rule of its mode |
| `TxCodec.MultisigPartsRoundTrip` | src/tx/auth.rs:118-208 | the body of both multisig conditions comes back field for field, exactly when its auth fields fit the byte limit they are read under |
| `TxCodec.MultisigFromParts` | src/tx/auth.rs:148-207 | that body makes the condition exactly when the signature count, within a u16, and the compressed-key rule allow it |
| `TxCodec.ConditionOnTheWire` | src/tx/auth.rs:637-682 | a spending condition decodes to itself if it is admissible and fits and is refused otherwise, the hash-mode byte alone choosing the variant |
| `TxCodec.AuthOnTheWire` | src/tx/auth.rs:1135-1173 | a standard or sponsored auth followed by any bytes decodes to that auth and those bytes exactly when its conditions are admissible and fit |
| `TxTexts.AddressModeIsModeByte` | src/tx/mod.rs:242-320 | the hash-mode byte on the wire decides the kind of address: 0 P2PKH, 2 P2WPKH, 1 and 5 P2SH, 3 and 7 P2WSH |
| `TxTexts.FieldTextIff` | src/tx/auth.rs:49-75 | an encoded field is its id byte and 33 or 65 bytes, and nothing else is |
| `TxTexts.ConditionTextIff` | src/tx/auth.rs:637-651 | an encoded condition is the one text with its mode, signer, nonce, fee and the rest at their positions |
| `TxTexts.AuthTextIff` | src/tx/auth.rs:1135-1149 | an encoded auth is 4 and the origin, or 5, the origin and the sponsor |
| `TxTexts.TransactionTextIff` | src/tx/transaction.rs:496-506 | an encoded transaction is its version, chain, auth and body at their positions |
| `TxSound.FieldSound` | src/tx/auth.rs:77-115 | whatever decodes to an auth field is that field's encoding, and its point is on the curve |
| `TxSound.ConditionSound` | src/tx/auth.rs:653-682 | whatever decodes to a condition is that condition's encoding and obeys every rule |
| `TxSound.ObeysIff` | src/tx/auth.rs:129-207 | the decoder's rules in numbers: compressed keys under the witness modes, points on the curve, signatures counted by position, and 34 or 66 bytes a field within the limit |
| `TxSound.AuthDecodesIff` | src/tx/auth.rs:1151-1173 | a byte string decodes to an auth and a rest if and only if it is that auth's encoding and the rest, and the auth obeys every rule |
| `TxLayout.PresignCovers` | src/tx/auth.rs:984-1008 | what is signed is the hash of the 49 bytes that hold the sighash, the flag 4 or 5, the fee and the nonce at their positions |
| `TxLayout.PresignTextsDiffer` | src/tx/auth.rs:984-1008 | two such texts are equal if and only if all four parts are |
| `TxLayout.PostsignCovers` | src/tx/auth.rs:1010-1041 | the next sighash is the hash of the 98 bytes that hold what was signed, the key encoding and the signature |
| `TxLayout.PostsignTextsDiffer` | src/tx/auth.rs:1010-1041 | two such texts are equal if and only if all three parts are |
| `TxLayout.SigningCovers` | src/tx/auth.rs:1043-1071 | a signing step gives this signature and sighash if and only if the key signs the hash of the 49 bytes and the sighash is that of the 98 |
| `TxLayout.VerifyingCovers` | src/tx/auth.rs:1073-1101 | a verifying step recovers this key and sighash if and only if the signature recovers the point from the hash of the same bytes |
| `TxAuth.LinkAgrees` | src/tx/auth.rs:1043-1101 | over the bytes `SigningCovers` and `VerifyingCovers` lay out, one signing step and one verification step from the same sighash recover the same key, and reach the same sighash for the same key encoding |
| `TxAuth.VerifyMultisig` | src/tx/auth.rs:242-313 | the sequential multisig loop computes the replay of the recorded fields followed by the count, key and address checks |
| `TxAuth.VerifyOrderIndependent` | src/tx/auth.rs:432-502 | the order-independent loop computes the same with every signature checked against the first sighash |
| `TxAuth.ReplayGathers` | src/tx/auth.rs:252-289 | a replay that succeeds gathered one key per field and counted exactly the signatures |
| `TxAuth.ReplayFailureSticks` | src/tx/auth.rs:252-289 | a replay that fails on some prefix of the fields fails on all of them |
| `TxAuth.ReplayOfKeysOnly` | src/tx/auth.rs:252-289 | fields that are all public keys replay without moving the sighash |
| `TxVerdict.CountedOneByOne` | src/tx/auth.rs:832-864 | the running count of signatures is the number of positions that hold one |
| `TxVerdict.ReplayIsChain` | src/tx/auth.rs:252-289 | whatever the fold gathers was recovered field by field along a chain of sighashes |
| `TxVerdict.ChainIsReplayed` | src/tx/auth.rs:252-289 | and every such chain is what the fold gathers |
| `TxVerdict.ConditionVerifiesIff` | src/tx/auth.rs:1104-1122 | a condition verifies if and only if a chain of links from the first sighash recovers the keys of its address, compressed where they must be, with as many signatures as it needs |
| `TxVerdict.TransactionVerifiesIff` | src/tx/auth.rs:1352-1371 | a transaction verifies if and only if the origin is accepted from the hash of its first text under flag 4 and the sponsor from there under flag 5 |
| `TxSigner.SigningKeepsReplay` | src/tx/transaction.rs:628-669 | signing a condition extends its replay by the signer's own key and ends at the signer's new sighash |
| `TxSigner.AppendingKeepsReplay` | src/tx/transaction.rs:685-701 | appending a public key extends the replay by that key and moves no sighash |
| `TxSigner.SkeletonKept` | src/tx/transaction.rs:883-950 | no run of signing operations changes anything of an auth but signatures and auth fields |
| `TxSigner.BeginningNeverMoves` | src/tx/transaction.rs:612-626 | the first sighash is the same after any signing run and any sponsor swap |
| `TxSigner.NewSignerInStep` | src/tx/transaction.rs:844-852 | a new signer of an unsigned transaction holds the verifier's sighash |
| `TxSigner.NewSponsorInStepIff` | src/tx/transaction.rs:854-872 | a signer taking over as sponsor holds the sighash the verifier reaches after the origin, and is in step exactly when the sponsor's record, signed or not, replays without moving it |
| `TxSigner.AdvanceKeepsInStep` | src/tx/transaction.rs:883-950 | every step that is refused or has the recorded encoding keeps the signer's sighash equal to the one the verifier's fold reaches |
| `TxSigner.RunsStayInStepIff` | src/tx/transaction.rs:883-950 | from any start in step a run ends in step if and only if every accepted operation had the recorded encoding, whatever keys refused ones offered |
| `TxSigner.VerifyReplayed` | src/tx/auth.rs:1104-1122 | a condition that replays verifies exactly when it has enough signatures and its address is that of the replayed keys |
| `TxSigner.VerifyInStep` | src/tx/auth.rs:1352-1371 | the verdict on a transaction in step, in both directions |
| `TxSigner.SignedRunVerifies` | src/tx/transaction.rs:843-984 | a complete run with each address's own keys in order verifies at the signer's sighash; whatever verifies is owned and fully signed |
| `TxSigner.SwappedSponsorVerifies` | src/tx/transaction.rs:854-872 | after the origin signed, any sponsor whose record replays in place may be put in, and the result verifies exactly when that sponsor's keys are right and enough |
| `TxSigner.UnsignedSponsorVerifies` | src/tx/transaction.rs:854-872 | in particular any sponsor that has not signed |
| `TxSigner.OriginFrozen` | src/tx/transaction.rs:883-950 | once the sponsor has begun, no operation changes the origin's condition |
| `TxHonest.CompleteIff` | src/tx/transaction.rs:972-984 | exactly when a transaction is complete, in signatures counted by position |
| `TxHonest.OriginSigned` | src/tx/transaction.rs:883-915 | exactly when an origin signature is accepted, and the whole state it leaves |
| `TxHonest.SponsorSigned` | src/tx/transaction.rs:928-946 | exactly when a sponsor signature is accepted, and the whole state it leaves |
| `TxHonest.PlanCompletes` | src/tx/transaction.rs:843-984 | a plan with as many able signers as each condition needs is accepted step by step and ends complete |
| `TxHonest.HonestRunVerifies` | src/tx/transaction.rs:843-984 | if the keys are those of the addresses, with the recorded encodings, the result verifies and differs only in its signatures |
| `TxHonest.HandOverSucceeds` | src/tx/transaction.rs:854-872 | once the origin has signed, any sponsor takes over from the sighash the origin's signer had reached |
| `TxHonest.NeedlessSponsorNeverCompletes` | src/tx/transaction.rs:928-984 | with the checks on, a sponsored transaction whose sponsor needs no signature never completes |
| `TxSigner.NumSignatures` | src/tx/auth.rs:832-864 | the counting loop gives the number of signature fields |
| `TxSigner.StacksTransactionSigner.constructor` | src/tx/transaction.rs:844-852 | the object starts in the state of a new signer, and in step |
| `TxSigner.StacksTransactionSigner.SignOrigin` | src/tx/transaction.rs:883-915 | does what the step function says, errors included, and stays in step |
| `TxSigner.StacksTransactionSigner.AppendOrigin` | src/tx/transaction.rs:917-926 | does what the step function says, errors included, and stays in step |
| `TxSigner.StacksTransactionSigner.SignSponsor` | src/tx/transaction.rs:928-946 | does what the step function says, errors included, and stays in step |
| `TxSigner.StacksTransactionSigner.AppendSponsor` | src/tx/transaction.rs:948-950 | does what the step function says, errors included, and stays in step |
| `TxSigner.StacksTransactionSigner.GetTx` | src/tx/transaction.rs:972-996 | gives the transaction exactly when it is complete, and then it verifies if the addresses own the keys |
| `TxLimits.ConditionPrefixFree` | src/tx/auth.rs:637-651 | no encoded condition is a prefix of another: equal bytes mean equal conditions |
| `TxLimits.AuthPrefixFree` | src/tx/auth.rs:1135-1149 | the same for whole auths |
| `TxTexts.InitialAuthIs` | src/tx/auth.rs:1280-1294 | field by field, the auth of the first sighash: the origin's fee and nonce are 0, its signature zeros or its fields empty, the rest kept, and the sponsor's place holds the all-zero condition |
| `TxTexts.FirstTextIff` | src/tx/transaction.rs:612-626 | the text behind the first sighash by position, with zeros for fee, nonce, signature and sponsor, and no other text |
| `TxTexts.VerificationBegins` | src/tx/transaction.rs:620-626 | verification begins from the hash of that text |
| `TxLimits.FirstSighashCommits` | src/tx/transaction.rs:612-626 | two transactions have the same first preimage if and only if they agree in version, chain, body, presence of a sponsor, and the origin's kind, hash mode, signer and key encoding or required count |
| `TxLimits.VerifiedSurvivesTheWire` | src/tx/auth.rs:1151-1173 | an auth that verifies decodes back to itself exactly when it fits |
| `TxLimits.SinglesigAgreesExactly` | src/tx/auth.rs:1043-1101 | after signing a single-signature condition the verifier reaches the signer's sighash if and only if the key has the recorded encoding |
| `TxLimits.MismatchedKeyBreaksSponsor` | src/tx/transaction.rs:883-946 | with a lawful scheme, a complete and correctly addressed run with the other encoding that fails to verify |
| `TxOrderIndependent.AssembledReplays` | src/tx/auth.rs:432-502 | whichever keys sign and whichever are only listed, the replay recovers the same key list |
| `TxOrderIndependent.AnySignersSuffice` | src/tx/auth.rs:432-502 | a set of signers is accepted exactly when it is large enough and the address is that of all the keys |
| `TxOrderIndependent.MoreSignersNeverHurt` | src/tx/auth.rs:432-502 | acceptance is monotone in the set of signers up to the u16 count |
| `TxOrderIndependent.TooManySignersRefused` | src/tx/auth.rs:432-502 | past the u16 count it is refused |
| `TxOrderIndependent.SignatureIgnoresHistory` | src/tx/transaction.rs:657-667 | after any run an origin key contributes the field it would have contributed first |
| `TxOrderIndependent.SponsorSignatureIgnoresHistory` | src/tx/transaction.rs:657-667 | so does a sponsor key, whose field depends only on where the origin's record ends |
| `PodSlices.PutRefines` | src/storage/wrbpod.rs:60-98 | a put changes the map at its id or nothing, keeps the index a bijection onto positions, and keeps true size <= accounted size <= maximum |
| `PodOutcomes.PutDecided` | src/storage/wrbpod.rs:60-98 | in bytes: a put is accepted if and only if the accounted size and 28 more than a new slice, or 4 more than a known one, stay within the limit; then it reads back and no other slice changes |
| `PodSlices.RunRefinesMap` | src/storage/wrbpod.rs:80-98 | after any run of puts the store is the map its accepted puts make |
| `PodSlices.ExpectedIsLastAccepted` | src/storage/wrbpod.rs:80-105 | in that map every id has the bytes last accepted for it |
| `PodSlices.DriftsIffRewritten` | src/storage/wrbpod.rs:60-98 | over any run the accounted size keeps its distance from the true size if and only if no accepted put hit an id already there |
| `PodSlices.ExactWhileNoRewrite` | src/storage/wrbpod.rs:60-98 | so it stays the true size with ids new to the store and to the run |
| `PodSlices.WrbpodSlices.constructor` | src/storage/wrbpod.rs:48-58 | a new store is empty, valid and has the size of an empty encoding |
| `PodSlices.WrbpodSlices.PutSlice` | src/storage/wrbpod.rs:80-98 | succeeds exactly when the slice fits and then has the whole new state of the put |
| `PodSlicesCodec.EncodedLength` | src/storage/mod.rs:374-393 | the encoding has the true size, byte for byte |
| `PodSlicesCodec.ReadStore` | src/storage/mod.rs:395-441 | the decoder's loops compute the decoding function, duplicate ids and bad positions refused |
| `PodSlicesCodec.EntriesRoundTrip` | src/storage/mod.rs:374-441 | the index decodes from its sorted entries |
| `PodSlicesCodec.StoreRoundTrip` | src/storage/mod.rs:373-441 | a valid store decodes to itself with its exact length accounted, trailing bytes unread |
| `PodSlicesCodec.ReloadKeepsMeaningAndCapacity` | src/storage/mod.rs:395-441 | whatever fitted before a reload fits after it |
| `PodTexts.StoreTextIff` | src/storage/mod.rs:373-393 | the encoded store by position: version, count, the ids in ascending order with their positions, each slice after its length |
| `PodTexts.StoreDecodesIff` | src/storage/mod.rs:395-441 | a byte string decodes to a store and a rest if and only if it starts with a text of that store, its ids in any order and each once |
| `PodSuperblock.FindAvailableSlots` | src/storage/wrbpod.rs:274-287 | the loop finds exactly the slots of this key |
| `PodSuperblock.FormatPartition` | src/storage/wrbpod.rs:326-345 | formatting succeeds exactly when the superblock's slot is ours, and offers exactly our other slots |
| `PodSuperblock.AllocateKeepsPartition` | src/storage/wrbpod.rs:173-226 | allocation keeps every filled slot owned once |
| `PodSuperblock.DeleteKeepsPartition` | src/storage/wrbpod.rs:228-243 | deletion frees exactly the app's slots |
| `PodSuperblock.AllocationGives` | src/storage/wrbpod.rs:173-226 | an allocation gives the app the first free slots in order after those it had, records a new app's code hash, and changes no other slot or app |
| `PodSuperblock.DeletionFrees` | src/storage/wrbpod.rs:228-243 | a deletion frees the slots of the app and changes no other slot or app |
| `PodSuperblock.FormattedRunsStaySound` | src/storage/wrbpod.rs:149-243 | over every run from a formatted superblock the apps' lists partition the filled slots, no slot is foreign or the superblock's own, and requests succeed exactly when enough slots are free |
| `PodSuperblock.WrbpodSuperblock.FillFreeSlot` | src/storage/wrbpod.rs:149-170 | fills the first free slot, or changes nothing when there is none |
| `PodSuperblock.WrbpodSuperblock.RollBack` | src/storage/wrbpod.rs:188-196 | undoes the fills of a failed allocation exactly |
| `PodSuperblock.WrbpodSuperblock.AllocateSlots` | src/storage/wrbpod.rs:173-226 | succeeds exactly when enough slots are free and otherwise restores the superblock |
| `PodSuperblock.WrbpodSuperblock.DeleteSlots` | src/storage/wrbpod.rs:228-243 | has the new state of the deletion |
| `PodSuperblockCodec.SuperblockOnTheWire` | src/storage/mod.rs:443-482 | a superblock decodes to itself with trailing bytes unread exactly when it has at most 4096 slots and ASCII names |
| `PodSuperblockCodec.AppRoundTrip` | src/storage/mod.rs:339-357 | an app's state decodes to itself |
| `PodSuperblockCodec.SlotRoundTrip` | src/storage/mod.rs:161-191 | a slot decodes to itself |
| `PodSuperTexts.SuperblockTextIff` | src/storage/mod.rs:443-456 | the encoded superblock by position: version, slots of five bytes, names after their lengths, and the apps' states |
| `PodSuperTexts.SuperblockDecodesIff` | src/storage/mod.rs:458-482 | a byte string decodes to a superblock and a rest if and only if it starts with a text of it, with at most 4096 slots and ASCII names, the last state under a name counting |
| `PodNode.InterleavingSafety` | src/storage/mock.rs:414-503 | whatever writers do, hashes match data, versions never fall, every write accepted by a non-empty slot raises its version, and other slots are untouched |
| `PodNode.FreshRetryStops` | src/storage/wrbpod.rs:536-570 | starting above the stored version the loop stops within k + 1 puts |
| `PodNode.RetryStops` | src/storage/wrbpod.rs:536-570 | from any version, if k other writes land meanwhile, the loop stops within k + 2 puts with the caller's bytes stored |
| `PodNode.StoredVersion` | src/storage/wrbpod.rs:536-570 | the version stored is the caller's if the first put was accepted, and else one above the slot's just before the last burst of other writes |
| `PodOutcomes.UnsignableIsNotWritten` | src/storage/wrbpod.rs:536-545 | a key that cannot sign ends the loop before anything is written |
| `PodOutcomes.MissingSlotIsRefused` | src/storage/mock.rs:424-448 | a slot the node does not have is refused at the first put |
| `PodOutcomes.LastVersionOverflows` | src/storage/wrbpod.rs:560-565 | a written slot at the last version takes no write, and the next version the client would try overflows |
| `PodOutcomes.WriteDecided` | src/storage/mock.rs:414-503 | a write is taken if and only if the slot is there and was never written, or holds something older that verifies for its owner; what a refusal shows, and that it changes nothing |
| `PodNode.StuckForever` | src/storage/wrbpod.rs:536-570 | on a slot that does not verify no write is accepted and the loop never stops |
| `PodNode.BadSignatureSticks` | src/storage/mock.rs:462-468 | how a slot gets there |
| `PodNode.LocalStackerDBClient.constructor` | src/storage/mock.rs:240-288 | the creation loops number the slots signer by signer |
| `PodNode.LocalStackerDBClient.PutChunk` | src/storage/mock.rs:414-503 | the reply and the whole new table of a put |
| `PodNode.PutWithRetry` | src/storage/wrbpod.rs:536-570 | the retry loop against other writers has the outcome of the retry function, with the node it leaves in every case |
| `PodSession.StoredShape` | src/storage/wrbpod.rs:536-570 | a finished write left the caller's bytes, their hash and a signature by the key |
| `PodSession.FetchGivesContents` | src/storage/wrbpod.rs:711-781 | fetching a slot that holds a store reads that store |
| `PodOutcomes.FetchDecided` | src/storage/wrbpod.rs:711-781 | a written slot enters the cache if and only if its signature verifies for the listed signer, or not for that one but for the current one, its bytes have the signed hash and they decode; when the fetch succeeds and what it returns |
| `PodOutcomes.FetchIsAuthentic` | src/storage/wrbpod.rs:746-768 | on every input, nothing is cached or reported as fetched that the resulting list's signer did not sign; with the current list anyone else's signature is refused |
| `PodOutcomes.FetchOfNothing` | src/storage/wrbpod.rs:717-744 | an empty slot gives version 0, a missing slot, signer or app an error, and the cache stays |
| `PodOutcomes.DownloadDecided` | src/storage/wrbpod.rs:382-446 | a superblock is taken from a written slot if and only if that is slot 0, the listed signer signed it, and its bytes have the signed hash and decode |
| `PodOutcomes.FirstPutDecided` | src/storage/wrbpod.rs:821-845 | a session accepts the first slice of a slot if and only if 37 bytes and the slice fit |
| `PodOutcomes.CanFitSliceIsRightIff` | src/storage/wrbpod.rs:797-817 | the question asked beforehand is answered as the put decides, except for a first slice that fills its slot exactly |
| `PodSession.SyncHolds` | src/storage/wrbpod.rs:847-879 | a successful sync leaves the slot holding the session's store |
| `PodOutcomes.SyncSucceeds` | src/storage/wrbpod.rs:847-879 | against entitled writers a sync of a slot in order succeeds, uploads the whole store under a newer version and clears its dirty mark |
| `PodOutcomes.QuietSyncIsNext` | src/storage/wrbpod.rs:847-879 | with no other write to the slot the first put stores it under the version after the listed one |
| `PodOutcomes.FailedSyncKeepsSession` | src/storage/wrbpod.rs:847-879 | a sync that fails leaves the session as it was |
| `PodSession.SyncedSlicesAreFetched` | src/storage/wrbpod.rs:711-879 | end to end: after puts and a sync, any session with the same superblock reads for every slice id the bytes last accepted for it, until another write lands |
| `PodSession.SuperblockReloadsOnlyFromSlotZero` | src/storage/wrbpod.rs:382-446 | the outcome of reloading a written superblock, slot by slot |
| `PodClient.Wrbpod.PutSlice` | src/storage/wrbpod.rs:821-845 | the session after a put, errors included |
| `PodClient.Wrbpod.SyncSlot` | src/storage/wrbpod.rs:847-879 | the session, the node and the result of a sync against other writers, failed or not |
| `PodClient.Wrbpod.FetchChunk` | src/storage/wrbpod.rs:711-781 | the session and the result of a fetch, failed or not: a stale signer list is refreshed once, and the store is cached before the signer's key is recovered |
| `PodShared.UploadedIsHeld` | src/storage/wrbpod.rs:448-492 | a finished upload of the superblock holds its slot, whichever it is, until another write lands |
| `PodShared.UploadSucceeds` | src/storage/wrbpod.rs:448-492 | an upload to a slot in order, against entitled writers, succeeds and holds the slot |
| `PodShared.AllocationsCollideIff` | src/storage/wrbpod.rs:173-226 | two allocations from one superblock give some slot to both apps if and only if both give any |
| `PodShared.OverlappingRoundsCollide` | src/storage/wrbpod.rs:504-518 | of two download, allocate, upload rounds that start from the same superblock both allocations and both uploads succeed, only the second's superblock stays, and the apps share a slot exactly when each was given any |
| `PodWitness.TwoAppsGetOneSlot` | src/storage/wrbpod.rs:504-518 | a node of two slots and two sessions on which that happens |
| `PodShared.SuccessiveRoundsDoNotCollide` | src/storage/wrbpod.rs:504-518 | a round that begins after another's upload keeps every slot with one app |
| `Scanline.CompileRowsLoop` | src/ui/scanline.rs:45-149 | the compiling and filtering loops emit the compiled rows |
| `Scanline.CompileRowsPaints` | src/ui/scanline.rs:45-149 | running a slice of the program paints exactly its rows, for a slice without row 0 from any colours |
| `Scanline.PaintedIsShown` | src/ui/scanline.rs:45-149 | painting shows every cell of the range with its own character and colours, clears the rest of its rows and leaves other rows alone |
| `Scanline.CompilePaintsGrid` | src/ui/scanline.rs:152-154 | the whole program shows the whole grid and ends with default colours |
| `Scanline.SliceShowsItsRows` | src/ui/scanline.rs:60-79 | a slice shows the cells the whole program shows for those rows |
| `Scanline.ProgramText` | src/ui/scanline.rs:179-185 | the text of the program is the rows joined by newlines |
| `KvStore.TipsDiffer` | src/vm/storage/util.rs:32-36 | different heights have different tips |
| `KvStore.TipIsHeight` | src/vm/storage/util.rs:32-36 | a tip is its height in eight bytes and then zeros |
| `KvStore.ReadsAreLookups` | src/vm/storage/db.rs:156-164 | whatever row the query offers first, a read gives the value last written at or below its height |
| `KvRuns.LoadBeginsAbove` | src/vm/clarity_vm.rs:201-219 | on an initialised table a page load begins in exactly one way, one above the last height |
| `KvRuns.LoadPuts` | src/vm/storage/db.rs:391-444 | a load's writes land at its own tip and height and nowhere else |
| `KvRuns.InitPuts` | src/vm/storage/db.rs:400-444 | an initialisation's writes land under the boot tip at height 0 |
| `KvRuns.BootClashes` | src/vm/storage/db.rs:647-651 | renaming the boot rows breaks the primary key exactly when a key was already initialised |
| `KvRuns.InitCommits` | src/vm/storage/db.rs:636-655 | otherwise the boot rows become the rows of height 0 |
| `KvTheorems.RunsAreFiled` | src/vm/storage/db.rs:324-354 | over every run of initialisations and page loads, committed or abandoned, the table holds exactly what was committed |
| `KvTheorems.TipsFollowHeights` | src/vm/storage/util.rs:32-83 | every committed row's tip is the tip of its height |
| `KvTheorems.CommittedReads` | src/vm/storage/db.rs:543-566 | every read at every height is determined and gives the value last committed at or below it |
| `KvLast.LastCommittedWriteIsRead` | src/vm/storage/db.rs:543-566 | over any run, reading a key at the current height gives what the last item for it wrote in the last committed step that writes it |
| `KvLast.UnwrittenIsNotRead` | src/vm/storage/db.rs:543-566 | a key that no committed step writes is found at no height |
| `KvTheorems.PastIsKept` | src/vm/storage/db.rs:156-164 | page loads, however many, never change a read at a height below them |
| `KvTheorems.LoadReadsItsWrites` | src/vm/storage/db.rs:693-719 | inside a load a read gives the load's own last write of the key, and otherwise what was committed |
| `KvTheorems.InitReadsItsWrites` | src/vm/storage/db.rs:693-719 | the same inside an initialisation, unless the key was already initialised: then either value may come and the commit is rolled back |
| `KvTheorems.WrittenIsLast` | src/vm/storage/db.rs:793-802 | a batch holds for each key the value last given for it |
| `KvLimits.LoadNeedsInitialisation` | src/vm/storage/db.rs:636-655 | a committed load files rows under the tip of their height if and only if the app was initialised; otherwise no load can begin again |
| `KvLimits.SwitchedReads` | src/vm/storage/db.rs:668-687 | moved to a block it can see, a load reads what that block read |
| `KvLimits.SwitchingBack` | src/vm/storage/db.rs:668-687 | moving back succeeds exactly from the starting block or the load's own, and then one height too low |
| `KvLimits.WritesAreLostOnceBack` | src/vm/storage/db.rs:335-345 | a load that moved back reads what was committed before it |
| `KvLimits.UndrainedReadIsOff` | src/vm/storage/db.rs:382-398 | what a read of an undrained buffer gives, and exactly when that is right |
| `WrbStore.WriteBuffer.Put` | src/vm/storage/db.rs:391-398 | the buffer after a put, its off-by-one index included |
| `WrbStore.WriteBuffer.Get` | src/vm/storage/db.rs:382-389 | the read of a pending key, out of range included |
| `WrbStore.WriteBuffer.Dump` | src/vm/storage/db.rs:400-444 | draining writes every pending row and value at one tip and height and empties the buffer |
| `WrbStore.WrbDB.GetWrbChainTip` | src/vm/storage/util.rs:39-61 | gives the tip of the one row the query asks for, or the boot tip |
| `KvRuns.TipIsLast` | src/vm/storage/util.rs:39-61 | on every initialised table, boot rows or not, that is the tip of the last height |
| `KvStore.TipIsUnique` | src/vm/storage/util.rs:39-61 | there is only one such tip |
| `WrbStore.WrbDB.Begin` | src/vm/storage/db.rs:324-354 | a transaction opens as the relation allows, with an empty buffer, or the height is missing |
| `WrbStore.WrbDB.BeginPageLoad` | src/vm/clarity_vm.rs:201-219 | a page load opens as the relation allows |
| `WrbStore.WritableWrbStore.PutAllData` | src/vm/storage/db.rs:793-802 | the transaction after a batch, with the buffer empty again |
| `WrbStore.WritableWrbStore.GetData` | src/vm/storage/db.rs:693-719 | with an empty buffer a read never panics and gives what the table allows |
| `WrbStore.WritableWrbStore.CommitTo` | src/vm/storage/db.rs:636-655 | what is still buffered is drained, and then the committed table, or the old one when a height or the renaming fails |
| `WrbStore.WritableWrbStore.SetBlockHash` | src/vm/storage/db.rs:668-687 | moves to a block at or below the transaction's height, and otherwise changes nothing |
| `Scene.ChainIsUnique` | src/ui/root.rs:63-74 | a viewport has one chain of ancestors |
| `Scene.Walk` | src/ui/root.rs:81-124 | the memoised walk terminates and gives the sum of positions to the root, in any list order, and the depth it records |
| `Scene.WalkedIsNeverDeeper` | src/ui/root.rs:90-105 | the recorded depth is at most the true one |
| `Scene.DepthsAreExactIff` | src/ui/root.rs:90-105 | all recorded depths are true if and only if no viewport is listed after an ancestor but before its parent |
| `Scene.ParentsFirstIsExact` | src/ui/root.rs:90-105 | so with parents listed first |
| `Scene.SkippedDepth` | src/ui/root.rs:100-104 | three viewports for which they are not |
| `Scene.NewSceneGraph` | src/ui/root.rs:57-146 | the table, offsets and hierarchy of any forest |
| `Scene.LevelsAreDepthsIff` | src/ui/root.rs:129-135 | each hierarchy level holds exactly the viewports of its depth under the same condition |
| `SceneFrame.OrderHoldsAll` | src/ui/root.rs:129-135 | the hierarchy lists every viewport |
| `SceneFrame.OrderAscends` | src/ui/root.rs:129-135 | and each once, by recorded depth and then by place in the list |
| `SceneFrame.ViewportAt` | src/ui/root.rs:157-185 | the search gives the last viewport in that order that covers the position |
| `SceneFrame.PlaceIsBelowStart` | src/ui/root.rs:333-340 | an offset is never less than the viewport's own position, so the saturating subtraction never saturates |
| `SceneFrame.FrontMostIsPainted` | src/ui/root.rs:317-350 | the cell taken from the front-most viewport is the one back-to-front painting leaves on top |
| `SceneFrame.EntryShowsComposite` | src/ui/root.rs:273-287 | so for every entry of a fresh z-buffer |
| `SceneFrame.Root.MakeZbuff` | src/ui/root.rs:273-287 | the loops fill the z-buffer position by position |
| `SceneFrame.Root.MakeCharbuff` | src/ui/root.rs:305-361 | every cell is read through the kept z-buffer or a new one; if that is current, the frame equals painting every visible viewport back to front, cell for cell |
| `SceneFrame.FrameReachesTheScreen` | src/ui/scanline.rs:45-154 | compiled and run, that frame shows on the terminal the cell painting leaves at every position |
| `SceneCells.OneIsInFront` | src/ui/root.rs:157-185 | wherever a visible viewport covers a position exactly one is in front: the deepest, and of those the last listed |
| `SceneCells.FrameShowsFrontMost` | src/ui/viewport.rs:356-362 | every position of a frame holds the cell of the front viewport's own buffer at the row and column its place and scrolling give, and Blank where there is none |
| `SceneCells.TextStandsInFrame` | src/ui/charbuff.rs:301-306 | a character printed at a row and column of a pane stands in the frame at the pane's place plus that, less the scrolling, in its own colours |
| `SceneCells.TextReachesTheScreen` | src/ui/root.rs:305-361 | and on the terminal once the frame is compiled and run |
| `SceneFrame.RedrawKeepsZBuffer` | src/ui/root.rs:403-419 | redrawing contents keeps the z-buffer current |
| `SceneFrame.HiddenPaneStillCovers` | src/ui/root.rs:435-442 | an instance: an update that hides a viewport leaves its blank cells in the frame |
| `SceneUpdate.UpdatesKeepZBufferIff` | src/ui/root.rs:434-442 | after any viewports are updated the z-buffer is current if and only if, at every position of the pane, each viewport that covers it in just one of the two graphs is followed by one that covers it in both |
| `SceneUpdate.UpdateKeepsZBufferIff` | src/ui/root.rs:434-442 | for a single viewport: the z-buffer is current if and only if every position of the pane in just one of its old and new visible rectangles is covered by a visible viewport painted later |
| `SceneUpdate.OffsetsStayIff` | src/ui/viewport.rs:381-387 | the kept offsets place the updated forest if and only if no viewport was given another position |
| `SceneUpdate.GraphStaysIff` | src/ui/root.rs:434-442 | and then, table and levels included, the kept graph is the updated viewports' graph |
| `SceneUpdate.UpdatedFrameIsPainted` | src/ui/root.rs:305-361 | when no viewport was moved and every change is hidden, the frame read through the kept z-buffer paints the updated viewports |
| `SceneUpdate.MovedPaneIsLost` | src/ui/viewport.rs:381-387 | an instance: a moved pane shows blank at its old place and nothing at its new one, where painting shows its cell, even with a new z-buffer |
| `GapText.ValidIsPair` | src/ui/forms/textarea.rs:30-45 | a valid buffer is exactly its two texts around a gap of zeros |
| `GapText.LeftRefines` | src/ui/forms/textarea.rs:220-234 | left moves one character across the gap and keeps the text |
| `GapText.RightRefines` | src/ui/forms/textarea.rs:238-253 | right does the same the other way |
| `GapText.LeftUndoesRight` | src/ui/forms/textarea.rs:220-253 | left undoes right to the last cell |
| `GapText.BackspaceRefines` | src/ui/forms/textarea.rs:178-192 | backspace takes the last character before the cursor, and panics exactly when the gap is used up at the end |
| `GapText.DeleteRefines` | src/ui/forms/textarea.rs:195-198 | delete takes the character after the cursor, at the end the one before it, and exactly when it panics |
| `GapText.ReallocKeeps` | src/ui/forms/textarea.rs:141-159 | where reallocation keeps the text and makes a gap of zeros |
| `GapText.ReallocLoses` | src/ui/forms/textarea.rs:141-159 | everywhere else, whatever the text, it panics or changes the text after the cursor |
| `GapText.InsertRefinesIff` | src/ui/forms/textarea.rs:162-175 | inserting acts on the pair if and only if there is a gap or growing keeps the text |
| `GapText.ReplaceRefinesIff` | src/ui/forms/textarea.rs:201-205 | replacing acts on the pair if and only if there is a gap, or at least two characters follow the cursor, or the text is empty and can grow |
| `GapText.OverwriteRefinesIff` | src/ui/forms/textarea.rs:209-216 | overwriting acts on the pair under the condition of inserting at the end and of replacing elsewhere |
| `GapText.ApplyRefinesIff` | src/ui/forms/textarea.rs:162-253 | the exact condition of every edit |
| `GapText.RunRefinesIff` | src/ui/forms/textarea.rs:162-253 | a run of edits of any length acts on the pair throughout, without a panic and with the gap zero, if and only if every edit meets its condition in its turn |
| `GapText.TypingAtTheEndFits` | src/ui/forms/textarea.rs:141-175 | typing at the end of a text meets it for ever, growing the buffer as it must |
| `GapBuffers.LineStartIsStartIff` | src/ui/forms/textarea.rs:286-310 | going to the line start goes there except from the empty line after a last newline |
| `GapBuffers.GapBuffer.constructor` | src/ui/forms/textarea.rs:51-69 | a new buffer holds the text, padded with zeros when it has multi-byte characters |
| `GapBuffers.GapBuffer.SetText` | src/ui/forms/textarea.rs:366-379 | the state is valid only without a gap |
| `GapBuffers.GapBuffer.ToString` | src/ui/forms/textarea.rs:431-439 | reads back the text |
| `GapBuffers.GapBuffer.Realloc` | src/ui/forms/textarea.rs:141-159 | the loop computes the reallocated vector, or panics |
| `GapBuffers.GapBuffer.FindLineStart` | src/ui/forms/textarea.rs:95-113 | finds the start of the cursor's line |
| `GapBuffers.GapBuffer.Left` | src/ui/forms/textarea.rs:220-234 | the new buffer; the recorded line start stays right |
| `GapBuffers.GapBuffer.Right` | src/ui/forms/textarea.rs:238-253 | the new buffer; the recorded line start stays right |
| `GapBuffers.GapBuffer.Insert` | src/ui/forms/textarea.rs:162-175 | the new buffer, or a panic; the recorded line start stays right |
| `GapBuffers.GapBuffer.Backspace` | src/ui/forms/textarea.rs:178-192 | the new buffer, or a panic; the recorded line start stays right if and only if no newline goes unnoticed |
| `GapBuffers.GapBuffer.Replace` | src/ui/forms/textarea.rs:201-205 | the new buffer, or a panic, and exactly when the recorded line start stays right |
| `GapBuffers.GapBuffer.Overwrite` | src/ui/forms/textarea.rs:209-216 | the new buffer, or a panic, and exactly when the recorded line start stays right |
| `GapBuffers.GapBuffer.LeftWord` | src/ui/forms/textarea.rs:257-271 | terminates, keeps the text, and ends one past the white space before the word, or at the second position when there is none |
| `GapLandings.LeftWordLandsIff` | src/ui/forms/textarea.rs:255-271 | that is the first character of the current or last word if and only if white space comes before it |
| `GapBuffers.GapBuffer.RightWord` | src/ui/forms/textarea.rs:274-282 | terminates, keeps the text, and ends on the first character that is not white space |
| `GapBuffers.GapBuffer.LineStart` | src/ui/forms/textarea.rs:286-310 | terminates, keeps the text, where it ends and what flag it returns |
| `GapBuffers.GapBuffer.LineEnd` | src/ui/forms/textarea.rs:313-321 | terminates, keeps the text, and ends on the line's newline or the end of the text |
| `GapBuffers.GapBuffer.Up` | src/ui/forms/textarea.rs:328-344 | terminates, keeps the text, and ends where `UpLandsIff` says, or stays when the recorded line start is 0, which while it is right means the first line |
| `GapBuffers.GapBuffer.Down` | src/ui/forms/textarea.rs:351-362 | terminates, keeps the text, and ends where `DownLandsIff` and `DownOnLastLine` say |
| `GapLandings.UpLandsIff` | src/ui/forms/textarea.rs:323-344 | going up lands at the same column of the line before, or its end, if and only if it does not start from the empty last line with more than one line before it |
| `GapLandings.UpOnFirstLine` | src/ui/forms/textarea.rs:323-344 | on the first line it stays on it |
| `GapLandings.DownLandsIff` | src/ui/forms/textarea.rs:346-362 | going down lands at the same column of the next line, or its end, if and only if that is not the empty last line |
| `GapLandings.DownOnLastLine` | src/ui/forms/textarea.rs:346-362 | on the last line it goes along the line, and when exactly it does nothing |
| `WordWrap.PrintAt` | src/ui/charbuff.rs:125-161 | the cells after printing at a position, padding included, and the cursor returned |
| `WordWrap.Split` | src/ui/charbuff.rs:239-263 | the split gives the text back, and its words are runs without white space that are as long as they can be |
| `WordWrap.TrackedIsPastWord` | src/ui/charbuff.rs:268-287 | after a word the tracked row and column are just past it and equal the cursor returned |
| `WordWrap.WordStaysOnRow` | src/ui/charbuff.rs:271-280 | a word of at most a row's length is on one row: the tracked one if it ends before the last column there, and otherwise the next |
| `WordWrap.WordsAscend` | src/ui/charbuff.rs:268-293 | each word is printed past the end of the ones before it |
| `WrapLayout.WrapRule` | src/ui/charbuff.rs:271-280 | a word is printed at the tracked position if it leaves the last column free, and otherwise at column 0 of the next row |
| `WrapLayout.FirstWordStarts` | src/ui/charbuff.rs:265-293 | where the first word goes, after any newlines |
| `WrapLayout.NextWordStarts` | src/ui/charbuff.rs:265-293 | a word after a word starts exactly where that one stopped if it ends before the last column there, and otherwise starts the next row |
| `WrapLayout.WordAfterBreaksStarts` | src/ui/charbuff.rs:265-293 | a word after newlines starts the row that many rows down, or the next if it is as long as a row |
| `WrapLayout.ReturnedIsLastStop` | src/ui/charbuff.rs:265-299 | the cursor returned is where the last word stopped, whatever newlines follow |
| `WrapLayout.SplitIsUnique` | src/ui/charbuff.rs:239-263 | no other split into words as long as they can be gives the text back |
| `WordWrap.InnerPrint` | src/ui/charbuff.rs:229-299 | every character but newlines is in the buffer once, at the place `WrapLayout` gives its word, nothing else has changed, and there are as many cells as before or as the last word needs |
| `Zonefile.UnescapeUndoesEscape` | src/runner/site.rs:270-298 | unescaping undoes escaping for every ASCII text, and only ASCII texts escape |
| `ZonefileLines.UnescapePlain` | src/runner/site.rs:279-298 | what unescaping gives of a text without backslashes, quoted or not |
| `ZonefileLines.AsciiIff` | src/runner/site.rs:271-318 | a text can be escaped, and a zonefile decoded, exactly when it has no character above 127 |
| `ZonefileLines.LinesGiveBack` | src/runner/site.rs:320-324 | the lines are what lies between the newlines |
| `ZonefileLines.TokensIff` | src/runner/site.rs:325-334 | the tokens of a line are the runs between its spaces and tabs |
| `ZonefileLines.TrimmedIs` | src/runner/site.rs:325 | trimming takes spaces and the characters 9 to 13 off both ends, and all of them |
| `ZonefileLines.LineHasShape` | src/runner/site.rs:320-355 | a line without tokens is no record, and every other has a first token after the name that is no number, or none |
| `ZonefileLines.LineParsesIff` | src/runner/site.rs:320-372 | exactly which record any line parses to, token by token |
| `Zonefile.DecodeZonefile` | src/runner/site.rs:309-374 | the loops over lines and tokens compute the decoded records |
| `Zonefile.DecimalParses` | src/runner/site.rs:338-341 | a printed lifetime parses to itself |
| `ZonefileLines.LifetimeIff` | src/runner/site.rs:336-341 | a token is a lifetime if and only if it is the decimal of a 64-bit number, behind any noughts and an optional plus sign |
| `ZonefileAppend.PrintedTokens` | src/runner/site.rs:227-243 | the tokens of a printed record are its fields |
| `ZonefileAppend.ParsedIsClean` | src/runner/site.rs:320-372 | whatever a line parses to has fields without separators |
| `ZonefileAppend.PrintParsesIff` | src/runner/site.rs:227-243 | a printed record with clean fields parses to itself if and only if its name does not start with white space and its class looks like one |
| `ZonefileAppend.AppendedRecordParsesIff` | src/runner/site.rs:309-374 | appending a newline and a printed record to any ASCII zonefile adds exactly that record if and only if it is proper |

## Left out

- secp256k1, SHA-512/256, base64, LZMA and SQLite: function values or maps with the laws named above.
- The payload, post conditions and remaining fields of a transaction: one byte string after the auth, since signing only hashes them.
- Signer `pop_*`, `resume` and `disable_checks`: they change fields or checks without rewinding the sighash, so no run invariant holds of them.
- The check the codec library makes of a vector's item count against its own message limit; the byte limit this repository passes for auth fields, and the slot limit it passes for superblocks, are modelled (the first as a parameter, since the library defines its value).
- Overflow of u64 and usize positions, sizes and heights in the user interface and the storage accounting: those are unbounded here; u16 signature counts, u32 versions, big-endian widths, u64 lifetimes and the signed 64-bit height column are modelled.
- `PodNode.PutWithRetry`: follows the loop for as many puts as there are bursts of other writers given; the bursts are arbitrary.
- The name order in which the sorted map lists a superblock's apps: the lemmas hold for every order.
- Read-only sessions, contract metadata and the headers database of the key-value store: reads at a height are covered, the metadata table is not.
- The line number kept by the text area: it moves the wrong way in the source, and nothing outside the text area reads it.
- `WrbStore.WritableWrbStore.SetBlockHash`: the assertion that only genesis has height 0 is a precondition.
- The text iterator, the cursor location and the other forms: layout code that repeats the same arithmetic.
- Focus order, events, rendering of forms, and the Clarity interpreter glue.
- `src/cli`, `src/core`, `src/viewer`, `src/net`, and `src/runner` other than zonefile records: input, output and straight-line codecs.
- Control characters inside cells, when the scanline text is written to a terminal: printing replaces them before they reach a cell.
