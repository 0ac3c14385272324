# whatsmeow-lib: the protocol core, modelled and proved in Dafny

This project models the stateful core of the vendored `whatsmeow-lib` and proves what its callers rely on. `dafny verify dfyconfig.toml` checks all of it.

| modules | what they model |
|---|---|
| `LtHash`, `AppState`, `AppStateStore`, `AppStateDecode`, `AppStateAuth`, `AppStateProofs`, `AppStateSql`, `AppStateEncode`, `AppStateSync`, `AppStatePages` | app state sync: the summation hash, decoding and encoding of patches and snapshots, what is accepted as authentic, the SQL tables behind the store, the fetch loop and the sending of patches |
| `BinaryNode`, `BinaryParse`, `BinaryRoundTrip`, `BinaryWire`, `BinaryEncoder`, `BinaryDecoder` | the binary XML codec and its wire form |
| `Varint`, `ReportingToken`, `ReportingFields`, `ReportingIndex`, `ReportingExtract` | the reporting token extractor over protobuf bytes |
| `EventBuffer`, `EventReplay`, `SessionCache`, `RecentMessages`, `ResponseWaiters`, `GroupCache` | decryption under redelivery, the session cache, the ring of recent messages, the table of response waiters, the group member cache |
| `Framing`, `FramingExact`, `FrameSocket` | the frame socket and the noise transport |
| `Jid`, `JidText` | JIDs, their domains and their text form |
| `Bytes` | byte strings, results, big-endian and decimal numbers |

Code that changes objects is a class whose methods do it step by step. A method is proved against a specification function of the old state, and the main results are lemmas about these functions, for all inputs and all runs.

## Conventions

- A Go string is a sequence of bytes. Integer widths are explicit: `uint16`, `uint32` and `uint64` are ranges of `int`, and wrap-around is written out.
- Cryptography and serialisation are functions in a record (`Crypto`, `Cipher`, `Aead`, `Serializer`). A law such as "decryption undoes encryption" is a `requires` of the lemmas that need it (`Lawful`, `Mirrored`). `lthash` itself is modelled exactly: 64 little-endian 16-bit words, added modulo 2^16.
- The token dictionaries are a parameter (`Tokens`). `ValidTokens` holds of the tables in binary/token/token.go: 236 single tokens, four times 256 double tokens, all distinct.
- Go's panics (failed type assertions, slices out of range) are errors of the model. What the network answers, faults of the store and crashes are parameters.
- What a specification function and the method proved against it share is also said without them: in literal bytes and numbers (`AppStateAuth`, `BinaryWire`, `ReportingFields`), as a replay of the log (`EventReplay`), or over the lists and answers of the server (`AppStatePages`).
- A property that is false of the code as written is stated with its exact condition, as an if-and-only-if.

## What the code does and its comments do not say

- `processData` counts the header in `receivedLength` (socket/framesocket.go:172) before it drops it (line 173). A body that arrives in two pieces is therefore cut three bytes short. `EarlyDeliversExactly` gives the exact condition on the pieces; `LateDeliversAll` proves that a count taken after line 173 is right for every chunking. In both, `late` is the parameter that tells the two apart.
- `EncodePatch` looks up earlier values in the database only, `validatePatch` also in the patch. `StatesAgree` gives the exact condition under which both compute one hash, in terms of the repeated indexes alone; distinct indexes meet it, and `RepeatedIndexDiffers` shows what a repeated index does.
- `decodeSnapshot` subtracts nothing, so whatever a snapshot overwrites, in the database or by a second record of one index, stays in the hash. A mutation whose operation is neither SET nor REMOVE is subtracted by `updateHash` and ignored by `decodeMutations`, so what it names stays stored and is lost to the hash (`UnknownMutationDrifts`, `LossHappens`). `Trace` records the sums of these values and the versions stored; `ListKeepsHash`, `FetchKeepsValidStart`, `SendKeepsValidStart` and `HistoryIsValid` give the exact condition for every list, fetch, send and history.
- The conflict path of `sendAppState` hands a patch list to the decoder without the two guards on snapshots that `fetchAppState` has (appstate.go:77-81). `ConflictSnapshotDrifts` and `DriftHappens` show what a snapshot on that path does.
- The SQL store refuses to read a stored version 0 (store/sqlstore/store.go:510-528), and nothing stops a patch of version 0 from being stored (`VersionZeroLocksOut`).
- The SQL store inserts MAC rows under a key of version and index, after the version row and the deletions and outside their transaction, and reads the highest version of an index. A patch that sets one index twice fails there with its hash already stored (`DoubledSetBreaksHash`); a patch of a version below a stored row goes in and stays hidden (`LowerVersionIsHidden`). The theorems about lists, fetches, sends and histories are about the store interface as a map; `StoresPatch` says exactly when these tables implement it for a patch, and `GrowingListStores` that they do for lists of growing versions unless an index is doubled.
- The loop of the reporting-token extractor adds `n` and `int(l)` to its index without checking their signs. `ValueMovesBack` says when that moves it back, `OverflowLoops` gives an input on which it never ends, and `ReadableEnds` that it always ends on well-formed bytes.
- A decrypted plaintext is cleared whenever the handler did not report failure, also when it was never called. `PlaintextsAccounted` says when, over whole runs.
- A frame that is refused or whose write fails has already used up a counter value (socket/noisesocket.go:98-99). `CountersAgree` and `DriftedDeliversNothing` say what follows.
- `writeNode` treats the tag "0" as the end of the stream, and `readNode` refuses an empty tag. Sizes of 65536 and more are cut to 16 bits. `MarshalRoundTrip` holds exactly for elements without these two tags and sizes.
- A response that was taken off the table is sent without the lock. When its caller gives up in between, the send goes to a closed channel and panics (`CancelRacePanics`); `EveryRunIsSafe` proves that nothing else panics.
- A record in the session cache is shared with its holders; a change that is not stored is seen by later loads, and written back if the record was stored before (`ChangesMustBeStored`).
- The ring of recent messages takes a slot with an empty message ID for an unused one, so such entries are never taken out and pile up (`LookupAfterSends`, `EmptyIDsPileUp`).

## Model

The main results come first; below them, file by file, the methods, the steps of the proofs and the witnesses.

| member | source | states |
|---|---|---|
| `AppState.HashTracksMap` | whatsmeow-lib/appstate/hash.go:39-65 | for every list of mutations, unknown operations included, the updated hash is the sum over the map that results from applying them one by one, less the entries whose last mutation in the list has an unknown operation |
| `AppState.BatchRefinesSequence` | whatsmeow-lib/appstate/decode.go:191-242 | deleting all removed MACs and then putting the added ones in order leaves the map that applying the mutations one by one leaves, whatever the map and the operations are |
| `AppStateAuth.ListStopsAtForgery` | whatsmeow-lib/appstate/decode.go:357-406 | DecodePatches with validation succeeds if and only if snapshot and patches are authentic one after the other; a forged snapshot leaves the collection as it was, and the patches stored are exactly those before the first forged one |
| `AppStateProofs.ListKeepsHash` | whatsmeow-lib/appstate/decode.go:357-406 | DecodePatches on any list, finished or stopped, keeps the invariant if and only if the values a decoded snapshot overwrites and the values the decoded patches keep under unknown operations sum to the same |
| `AppStateSync.FetchKeepsValidStart` | whatsmeow-lib/appstate.go:42-97 | a fetch from a valid start, however it ends, leaves a valid start if and only if what its snapshot overwrites and what its patches keep under unknown operations sum to the same and the last version it stores is not 0 |
| `AppStateSync.SendKeepsValidStart` | whatsmeow-lib/appstate.go:499-589 | the same for sending, with the snapshots and patches in all the answers |
| `AppStateSync.HistoryIsValid` | whatsmeow-lib/appstate.go:42-97 | the same for a history of fetches and sends from nothing, since its last full sync |
| `AppStateSync.SnapshotAndReplayAgree` | whatsmeow-lib/appstate/hash.go:39-65 | two histories of snapshots, patches and sends that end in the same map end in the same hash if and only if they drift by the same |
| `AppStateSync.HeadsInStep` | whatsmeow-lib/appstate.go:73-89 | at every head of the loop, for any replies, the state in memory is the stored version and hash, and the database is what the rounds so far left |
| `AppStatePages.FetchAppliesPages` | whatsmeow-lib/appstate.go:42-97 | a fetch does nothing if and only if the collection is synced and that is enough; otherwise it succeeds if and only if the stored version can be read and the replies start with pages that all apply, up to the first one without more |
| `AppStatePages.ConflictIsRetried` | whatsmeow-lib/appstate.go:499-589 | a second patch leaves if and only if the first one met a conflict that applies and can be sent from; a send succeeds if and only if its last patch is accepted and the fetch after it succeeds, and leaves what that fetch leaves |
| `AppStatePages.SentPatchComesBack` | whatsmeow-lib/appstate.go:499-589 | a patch of distinct indexes that the server accepts and returns: the collection ends one version later with the mutations applied, valid again |
| `AppStateSync.SendsAtMostTwo` | whatsmeow-lib/appstate.go:499-589 | however many answers come: at most two patches leave per call; the second follows a conflict and is encoded against the database with the conflicting patches applied; success means the last one was accepted |
| `AppStateSql.StoresPatch` | whatsmeow-lib/appstate/decode.go:228-242 | storing the mutations of a patch in the tables replaces the version row in any case; the MACs go in exactly under the condition of the INSERT; the rows then show the map with the mutations applied if and only if every MAC added is of the highest version of its index or is shown already; and they show the map without the removed indexes when the MACs do not go in |
| `AppStateSql.GrowingListStores` | whatsmeow-lib/appstate/decode.go:357-406 | for a list whose versions grow above all stored ones: storing fails if and only if a snapshot or patch that decodes has an index twice; otherwise the tables end as the collection of the specification does |
| `AppStateEncode.EncodedPatchDecodes` | whatsmeow-lib/appstate/encode.go:263-337 | with pairwise distinct index MACs an encoded patch always validates and decodes to the indexes and values sent |
| `AppStateEncode.StatesAgree` | whatsmeow-lib/appstate/encode.go:312-330 | both sides compute the same state if and only if, over the mutations whose index occurs earlier in the patch, what the patch set for them and what the database holds for them sum to the same |
| `BinaryRoundTrip.MarshalRoundTrip` | whatsmeow-lib/binary/node.go:123-139 | for every element that is encoded, Unmarshal of Marshal gives the normal form if and only if no element has the tag "" or "0" and every element and list has fewer than 65536 parts |
| `BinaryWire.WritesPacked` | whatsmeow-lib/binary/encoder.go:223-250 | the packed form in literal bytes: 255 or 251, the number of bytes with the top bit for an odd length, then 16 times the code of one character plus that of the next, or 15 |
| `BinaryWire.ReadsTokens` | whatsmeow-lib/binary/decoder.go:168-224 | what the first byte of a value means below 245: nothing, a token, two bytes of a token, an error |
| `BinaryParse.ReadNode` | whatsmeow-lib/binary/decoder.go:352-384 | on any bytes a successful read of an element uses at least one byte and never passes the end, so decoding ends on every input |
| `ReportingExtract.Extract` | whatsmeow-lib/reportingtoken.go:94-176 | on bytes readable along the configuration the result holds, as a recursive multiset, exactly the configured fields with empty sub-messages dropped, in non-decreasing order of numbers, and is no longer than the input; on any bytes it returns a result if and only if no loop goes on forever and no slice fails, at any depth |
| `ReportingFields.FieldsComeOut` | whatsmeow-lib/reportingtoken.go:94-176 | a top-level field that is not taken apart comes out as often as it goes in when an entry of the configuration has its number, and not at all when none has |
| `ReportingFields.InnerScalarComesOut` | whatsmeow-lib/reportingtoken.go:141-161 | a configured scalar inside a configured message comes out inside a message with the same tag |
| `ReportingToken.ExtractionIsIdempotent` | whatsmeow-lib/reportingtoken.go:94-176 | extracting again gives another extract of the first bytes, and the same bytes when no field number repeats |
| `ReportingIndex.ReadableEnds` | whatsmeow-lib/reportingtoken.go:94-176 | on readable bytes neither the loop nor that of any message inside goes on forever |
| `EventBuffer.DeliveriesAreSafe` | whatsmeow-lib/message.go:487-537 | over any deliveries with failures and crashes anywhere, a ciphertext hash commits at most one ratchet advance, all handler calls for it and one version get one message, the unpadded plaintext of that advance, and none follows a successful clear |
| `EventReplay.RatchetIsReplay` | whatsmeow-lib/message.go:518-530 | over any run the stored ratchet is the replay of the log: the decryptions of the advances, the stored sender keys and the changes from outside, in order; and each advance is the decryption of its ciphertext at that moment |
| `EventReplay.DeliveryIsHandled` | whatsmeow-lib/message.go:298-470 | a delivery without faults, of fresh and repeated ciphertexts in any order: the handler gets the message of each fresh one, once and in order, and every row is cleared |
| `EventBuffer.PlaintextsAccounted` | whatsmeow-lib/message.go:413-447 | over any run each committed plaintext is still buffered or was cleared once, and every clear directly follows a handler call for that hash and version that reported no failure, or is of a plaintext that unpads and can be skipped |
| `SessionCache.CacheRefinesStore` | whatsmeow-lib/store/sessioncache.go:47-125 | from any prefetch, any run returns the loads of the plain path and its final flush leaves the same store |
| `SessionCache.ChangesMustBeStored` | whatsmeow-lib/store/sessioncache.go:47-125 | with records changed in place by their holders: every load and the flushed store are those of the plain path if and only if each load, and the flush for each record ever stored, finds the changes stored |
| `RecentMessages.LookupAfterSends` | whatsmeow-lib/retry.go:78-97 | after any sends, with or without IDs, a lookup finds the last send of the key exactly unless the ID is not empty and a send of that key left the ring since |
| `ResponseWaiters.EveryRunIsSafe` | whatsmeow-lib/request.go:43-97 | over every interleaving, with ids in use twice and cancels at any time: a channel in the table is open, empty and held by no delivery, each channel ever gets at most one node, addressed to its id, and a step panics if and only if it sends a response to a channel that was cancelled after the response was taken |
| `ResponseWaiters.ResponseArrives` | whatsmeow-lib/request.go:71-97 | a response to an id in the table takes it off, and its delivery puts it into the open channel of that id |
| `GroupCache.UpdateIsSetUpdate` | whatsmeow-lib/group.go:978-1007 | from a list without repeats: no repeats afterwards, and the set is (members and joins) without leaves |
| `FramingExact.EarlyDeliversExactly` | whatsmeow-lib/socket/framesocket.go:161-200 | the code delivers exactly the payloads if and only if no piece ends inside a body |
| `Framing.LateDeliversAll` | whatsmeow-lib/socket/framesocket.go:161-200 | counting after line 173, every chunking delivers the payloads and nothing is left |
| `FrameSocket.SentIsDelivered` | whatsmeow-lib/socket/noisesocket.go:91-120 | what a run of sends writes arrives unchanged and in order for every chunking that splits no body |
| `JidText.TextRoundTrip` | whatsmeow-lib/types/jid.go:158-226 | parsing the text of a JID gives it back if and only if the integrator is 0, the user has no '@' or '.', the server no '@', and the user no ':' unless an agent is written |
| `LtHash.PlusAssociates` | whatsmeow-lib/appstate/lthash/lthash.go:45-58 | word-wise sums modulo 2^16 may be grouped in any way |
| `LtHash.MinusInverts` | whatsmeow-lib/appstate/lthash/lthash.go:39-58 | subtraction and addition undo each other, so the words form a group |
| `LtHash.Cancels` | whatsmeow-lib/appstate/lthash/lthash.go:45-58 | equal sums with one equal term have the other term equal |
| `LtHash.WordsOfBlock` | whatsmeow-lib/appstate/lthash/lthash.go:45-58 | storing the 64 words as 128 bytes loses nothing |
| `LtHash.CombinedBytes` | whatsmeow-lib/appstate/lthash/lthash.go:45-58 | bytes 2j and 2j+1 of the result are the sum or difference modulo 2^16 of the numbers in bytes 2j and 2j+1, the low byte first |
| `LtHash.PerformAt` | whatsmeow-lib/appstate/lthash/lthash.go:46-55 | one round rewrites two bytes in place with the 16-bit sum or difference and leaves the other 126 alone |
| `LtHash.PerformPointwiseWithOverflow` | whatsmeow-lib/appstate/lthash/lthash.go:45-58 | in place, the array becomes the word-wise sum or difference |
| `LtHash.MultipleOp` | whatsmeow-lib/appstate/lthash/lthash.go:39-43 | adding or subtracting the items one by one adds or subtracts the sum of their expansions |
| `LtHash.SubtractThenAddInPlace` | whatsmeow-lib/appstate/lthash/lthash.go:34-37 | the hash loses the total of one list and gains the total of the other |
| `LtHash.MapTotalPut` | whatsmeow-lib/appstate/hash.go:39-65 | setting a key of a map changes the sum over its values by the new value less the old one |
| `LtHash.MapTotalRemove` | whatsmeow-lib/appstate/hash.go:39-65 | removing a key takes its value out of the sum, and nothing when the key is missing |
| `AppState.RemovalsOfNothing` | whatsmeow-lib/appstate/decode.go:276-284 | the callback of the snapshot path subtracts nothing |
| `AppState.SeenIsStored` | whatsmeow-lib/appstate/hash.go:43-53 | the map updateHash reckons with is the stored one without the entries kept under an unknown operation |
| `AppState.StoredFor` | whatsmeow-lib/appstate/decode.go:204-212 | stored for an index are the last 32 bytes of the value of its last SET, and nothing after a REMOVE |
| `AppState.StoredBefore` | whatsmeow-lib/appstate/decode.go:204-212 | and what was stored before when no mutation sets or removes it |
| `AppState.BatchedRemove` | whatsmeow-lib/appstate/decode.go:121-127 | RemoveMAC has the effect of removing the index after everything collected so far |
| `AppState.BatchedAdd` | whatsmeow-lib/appstate/decode.go:129-134 | AddMAC has the effect of setting the index after everything collected so far |
| `AppState.DecodeMutation` | whatsmeow-lib/appstate/decode.go:136-182 | a decoded mutation carries the index MAC of its record and the last 32 bytes of its blob |
| `AppStateAuth.DecodesAuthentic` | whatsmeow-lib/appstate/decode.go:136-182 | with validation a mutation decodes if and only if the key is known, its last 32 bytes are the HMAC-SHA512 over operation, key id, content and length, and the index of what it decrypts to has the index MAC; what is handed out |
| `AppStateAuth.ForgedMutation` | whatsmeow-lib/appstate/decode.go:150-176 | a forged content and a forged index end in their own errors |
| `AppStateAuth.DecodesAllAuthentic` | whatsmeow-lib/appstate/decode.go:191-226 | a list decodes if and only if each mutation is authentic, and hands out all of them in order |
| `AppState.DecodeMutations` | whatsmeow-lib/appstate/decode.go:191-226 | success yields one mutation per record, each with a blob long enough to hold a MAC |
| `AppState.DecodeSnoc` | whatsmeow-lib/appstate/decode.go:191-226 | one more mutation extends the decoded list and the two batches as the operation switch says, or stops with its error |
| `AppStateStore.Store.GetAppStateVersion` | whatsmeow-lib/store/sqlstore/store.go:510-528 | the stored pair; version 0 with a zero hash when there is no row; refused when the stored version is 0 |
| `AppStateStore.Store.DeleteAppStateVersion` | whatsmeow-lib/store/sqlstore/store.go:530-533 | empties the collection, its MACs included |
| `AppStateStore.Store.GetAppStateMutationMAC` | whatsmeow-lib/store/store.go:73-81 | the value MAC stored for the index, if any |
| `AppStateStore.Store.DeleteAppStateMutationMACs` | whatsmeow-lib/store/store.go:73-81 | removes exactly the named indexes |
| `AppStateStore.Store.PutAppStateMutationMACs` | whatsmeow-lib/store/store.go:73-81 | the interface as a map: sets the MACs in list order, so the last one of an index stays; the tables behind it are those of AppStateSql |
| `AppStateStore.PatchOutput.RemoveMAC` | whatsmeow-lib/appstate/decode.go:121-127 | appends the index to the removals and takes its additions out |
| `AppStateStore.PatchOutput.DeleteFunc` | whatsmeow-lib/appstate/decode.go:124-126 | keeps exactly the additions of other indexes, in their order |
| `AppStateStore.PatchOutput.Record` | whatsmeow-lib/appstate/decode.go:191-226 | the operation decides which list grows; the mutation is appended either way |
| `AppStateSql.InsertSucceeds` | whatsmeow-lib/store/sqlstore/store.go:535-570 | the INSERT of a batch succeeds if and only if both columns have 32 bytes, no index repeats in it and no row of its version holds one of them |
| `AppStateSql.AddedRepeat` | whatsmeow-lib/appstate/decode.go:121-134 | the additions of a patch repeat an index if and only if two SETs of it have no REMOVE of it after the first |
| `AppStateSql.InsertShows` | whatsmeow-lib/store/sqlstore/store.go:502-598 | the rows afterwards show each MAC of the batch whose index has no row of a higher version, and are unchanged for the others |
| `AppStateSql.NewestIsAll` | whatsmeow-lib/store/sqlstore/store.go:502-502 | that is the map with the batch put in if and only if every MAC is of the highest version of its index or is shown already |
| `AppStateSql.ShowsOne` | whatsmeow-lib/store/sqlstore/store.go:502-502 | rows show one map only |
| `AppStateSql.DecodedSized` | whatsmeow-lib/appstate/decode.go:136-182 | with MAC validation on, whatever decodes has MACs of 32 bytes |
| `AppStateSql.NewVersionStores` | whatsmeow-lib/appstate/decode.go:228-242 | a decoded patch with a version above every stored one is stored, and shown, if and only if it sets no index twice without a REMOVE after the first |
| `AppStateSql.GrowingVersionsStore` | whatsmeow-lib/appstate/decode.go:380-405 | the same for the patch loop, patch after patch |
| `AppStateSql.ListTablesShow` | whatsmeow-lib/store/sqlstore/store.go:502-502 | for any list, whatever its versions, the rows show the map that the specification of the tables says |
| `AppStateSql.DoubledSetBreaksHash` | whatsmeow-lib/appstate/decode.go:228-242 | two SETs of a new index store the hash and not the MACs, which is inconsistent unless the value expands to zero |
| `AppStateSql.LowerVersionIsHidden` | whatsmeow-lib/store/sqlstore/store.go:502-502 | a SET under a lower version goes in without an error, and the rows go on showing the old value under the new hash |
| `AppStateDecode.ConcatAndHMAC` | whatsmeow-lib/appstate/hash.go:73-79 | the MAC of the concatenation of the parts |
| `AppStateDecode.GeneratePatchMAC` | whatsmeow-lib/appstate/hash.go:85-95 | the MAC over the snapshot MAC, all value MACs in order, the version and the name; fails when a blob is too short to slice |
| `AppStateDecode.Processor.GetPrevSetValueMAC` | whatsmeow-lib/appstate/decode.go:322-335 | the backward scan with the database behind it finds the value the index holds after the mutations before it were applied in sequence |
| `AppStateDecode.Processor.UpdateHash` | whatsmeow-lib/appstate/hash.go:39-65 | the hash after the loop over the mutations, for each of the three callbacks |
| `AppStateDecode.Processor.DecodeMutationsInto` | whatsmeow-lib/appstate/decode.go:191-226 | the loop fills the output with the batches and the mutations of the whole list, or returns the first error |
| `AppStateDecode.Processor.StoreMACs` | whatsmeow-lib/appstate/decode.go:228-242 | the version row is replaced, and the MACs are the batched update of the old ones |
| `AppStateDecode.Processor.ValidateSnapshotMAC` | whatsmeow-lib/appstate/decode.go:244-255 | accepts exactly when the MAC of version, hash and name is the expected one |
| `AppStateDecode.Processor.ValidatePatchMACs` | whatsmeow-lib/appstate/decode.go:312-354 | the state after the patch, once the snapshot MAC and the patch MAC agree with it |
| `AppStateAuth.ValidatesSigned` | whatsmeow-lib/appstate/decode.go:312-354 | the outcome of validatePatch in terms of the HMAC-SHA256 over hash, version and name and the one over snapshot MAC, value MACs, version and name, written out |
| `AppStateAuth.PatchDecodesAuthentic` | whatsmeow-lib/appstate/decode.go:380-404 | a patch decodes if and only if all its MACs hold, and what it then leads to |
| `AppStateAuth.SnapshotDecodesAuthentic` | whatsmeow-lib/appstate/decode.go:257-310 | the same for a snapshot |
| `AppStateAuth.PatchesStopAtForgery` | whatsmeow-lib/appstate/decode.go:380-405 | the patch loop stores exactly the patches before the first forged one, and hands out all mutations in order when there is none |
| `AppStateDecode.Processor.DecodeAndStoreSnapshot` | whatsmeow-lib/appstate/decode.go:257-310 | the snapshot's state and the map with all its records set are stored, or nothing is |
| `AppStateDecode.Processor.DecodeAndStorePatch` | whatsmeow-lib/appstate/decode.go:380-404 | the patch's state and the map with its mutations applied in sequence are stored, or nothing is |
| `AppStateDecode.Processor.DecodePatches` | whatsmeow-lib/appstate/decode.go:357-406 | snapshot and patches one after the other; an error at patch k leaves what the earlier ones stored |
| `AppStateDecode.Processor.DecodePatchLoop` | whatsmeow-lib/appstate/decode.go:380-405 | the loop over the patches, against the run of the specification |
| `AppStateProofs.DistinctOverwritesNothing` | whatsmeow-lib/appstate/decode.go:276-284 | records of distinct indexes overwrite nothing in an emptied collection |
| `AppStateProofs.DistinctListIsClean` | whatsmeow-lib/appstate/decode.go:257-310 | no snapshot, or one of distinct records into an emptied collection, overwrites nothing; patches of SETs and REMOVEs keep nothing |
| `AppStateProofs.RepeatedRecordBreaksHash` | whatsmeow-lib/appstate/decode.go:257-310 | two records of one index overwrite the first value |
| `AppStateEncode.EncodePatch` | whatsmeow-lib/appstate/encode.go:263-337 | the patch with the encrypted mutations and both MACs for the current database; fails only for a missing key |
| `AppStateProofs.PatchMovesOffset` | whatsmeow-lib/appstate/decode.go:312-354 | a decoded patch changes the difference between the stored hash and the sum over the stored MACs by exactly the values it keeps under an unknown operation |
| `AppStateProofs.PatchesMoveOffset` | whatsmeow-lib/appstate/decode.go:357-406 | so does any list of patches, finished or stopped, and a finished run returns the stored state |
| `AppStateProofs.UnknownMutationDrifts` | whatsmeow-lib/appstate/hash.go:43-53 | one mutation of an unknown operation on a stored index leaves the hash inconsistent unless the value expands to zero |
| `AppStateProofs.VersionRowAlone` | whatsmeow-lib/appstate/decode.go:228-242 | after a crash between the version row and the MACs: consistent if and only if what the patch takes out and adds sum to the same |
| `AppStateProofs.SnapshotMovesOffset` | whatsmeow-lib/appstate/decode.go:257-310 | a snapshot changes that difference by exactly the values it overwrites |
| `AppStateProofs.ExplainedEnd` | whatsmeow-lib/appstate/decode.go:357-406 | from a valid start: consistent iff the overwritten and the kept values sum to the same, readable iff the last version stored is not 0 |
| `AppStateProofs.ListExplained` | whatsmeow-lib/appstate/decode.go:357-406 | every list, finished or stopped, moves the difference and the stored version exactly as its trace says |
| `AppStateEncode.DistinctNeverAgain` | whatsmeow-lib/appstate/encode.go:312-315 | with distinct indexes no index occurs again |
| `AppStateEncode.RemovalsSplit` | whatsmeow-lib/appstate/encode.go:312-315 | both callbacks find the same at the first occurrence of an index; at a later one the sender finds the database value and the receiver the value set in the patch |
| `AppStateEncode.EncodedMutationDecodes` | whatsmeow-lib/appstate/encode.go:274-310 | an encoded mutation passes the content and index MAC checks and yields its index and value |
| `AppStateEncode.EncodedMutationsDecode` | whatsmeow-lib/appstate/encode.go:263-337 | so does every prefix of the encoded mutations |
| `AppStateEncode.EncodedPatchAccepted` | whatsmeow-lib/appstate/encode.go:263-337 | an encoded patch stamped with the next version decodes to what was sent exactly when both sides' snapshot MACs agree, and is otherwise refused as a hash mismatch |
| `AppStateEncode.RepeatedIndexDiffers` | whatsmeow-lib/appstate/encode.go:312-330 | a repeated new index makes the two sides disagree unless its first value expands to zero |
| `AppStateEncode.ArchivePatchDecodes` | whatsmeow-lib/appstate/encode.go:98-122 | the patch that archives and unpins a chat is accepted against any database, and both actions come back, when the MACs of its two indexes differ |
| `AppStateSync.FetchAppState` | whatsmeow-lib/appstate.go:42-97 | the result and the database after a fetch, for any replies |
| `AppStateSync.FetchLoop` | whatsmeow-lib/appstate.go:73-89 | the loop runs the rounds of the specification |
| `AppStatePages.RoundsSucceed` | whatsmeow-lib/appstate.go:73-89 | the loop succeeds if and only if the replies start with pages that all apply, up to the first one that does not announce more |
| `AppStatePages.FetchedPages` | whatsmeow-lib/appstate.go:73-89 | and the collection is then the fold of the lists of these pages |
| `AppStateSync.FetchRound` | whatsmeow-lib/appstate.go:73-89 | one round: the next head, or the end of the call with its error |
| `AppStateSync.ApplyAppStatePatches` | whatsmeow-lib/appstate.go:152-168 | decodes the list into the database, and fails afterwards when the events cannot be collected |
| `AppStateSync.RoundKeepsInStep` | whatsmeow-lib/appstate.go:73-89 | for any reply: a round leaves the state in memory equal to the stored pair, and the database where its trace says |
| `AppStateSync.RoundsExplained` | whatsmeow-lib/appstate.go:73-89 | for any replies: the rounds end where their trace says, and success returns the stored pair |
| `AppStateSync.DistinctFetchIsClean` | whatsmeow-lib/appstate.go:73-89 | from a valid start only a repeated index in the first reply's snapshot can overwrite anything, and only an unknown operation keeps anything |
| `AppStateSync.VersionZeroLocksOut` | whatsmeow-lib/store/sqlstore/store.go:510-528 | a patch of version 0 that is stored stops every later fetch but a full sync |
| `AppStateSync.SendAppState` | whatsmeow-lib/appstate.go:499-589 | the result, the database and the patches sent, for any list of answers, with the retry after a conflict |
| `AppStateSync.SendPatch` | whatsmeow-lib/appstate.go:499-541 | one pass: the patch is encoded against the database of that moment |
| `AppStateSync.HandleAnswer` | whatsmeow-lib/appstate.go:542-589 | what follows each answer of the server; a conflict asks for another pass only while a retry is allowed |
| `AppStateSync.PassSendsOne` | whatsmeow-lib/appstate.go:499-589 | a pass sends at most one patch, and asks for another only after an applied conflict |
| `AppStateSync.SendExplained` | whatsmeow-lib/appstate.go:499-589 | for any answers: a send moves the difference and the stored version exactly as its trace says |
| `AppStateSync.ConflictSnapshotDrifts` | whatsmeow-lib/appstate.go:558-574 | a conflict whose snapshot repeats a stored record leaves the hash inconsistent unless the old value expands to zero |
| `AppStateSync.DriftHappens` | whatsmeow-lib/appstate.go:558-574 | a concrete valid start and conflict after which the hash is inconsistent |
| `AppStateSync.LossHappens` | whatsmeow-lib/appstate/decode.go:204-212 | a concrete valid start and fetch of one patch with an unknown operation: it succeeds, and the hash is inconsistent |
| `BinaryEncoder.ValidateNibble` | whatsmeow-lib/binary/encoder.go:256-266 | true exactly for short strings of digits, '-' and '.' |
| `BinaryEncoder.ValidateHex` | whatsmeow-lib/binary/encoder.go:285-295 | true exactly for short strings of upper-case hexadecimal digits |
| `BinaryEncoder.CountWritten` | whatsmeow-lib/binary/encoder.go:201-209 | the number of attributes that are not dropped |
| `BinaryEncoder.Encoder.PushIntN` | whatsmeow-lib/binary/encoder.go:32-42 | appends the low n bytes, most significant first |
| `BinaryEncoder.Encoder.PushInt20` | whatsmeow-lib/binary/encoder.go:44-46 | appends the low 20 bits of any number as three big-endian bytes |
| `BinaryEncoder.Encoder.WriteByteLength` | whatsmeow-lib/binary/encoder.go:64-79 | the three length forms, and failure from 2^31 - 1 on |
| `BinaryEncoder.Encoder.WriteRaw` | whatsmeow-lib/binary/encoder.go:151-159 | a length and the bytes |
| `BinaryEncoder.Encoder.WriteListStart` | whatsmeow-lib/binary/encoder.go:211-221 | the three forms of a list size |
| `BinaryEncoder.Encoder.WritePackedBytes` | whatsmeow-lib/binary/encoder.go:223-250 | two characters per byte, with padding after an odd number |
| `BinaryWire.PackTable` | whatsmeow-lib/binary/encoder.go:268-309 | the code of every packed character, and of the padding, as a table |
| `BinaryWire.PackedByte` | whatsmeow-lib/binary/encoder.go:223-254 | byte k holds the codes of characters 2k and 2k+1 |
| `BinaryEncoder.Encoder.WriteString` | whatsmeow-lib/binary/encoder.go:135-149 | token, packed or raw form, the first that fits |
| `BinaryEncoder.Encoder.WriteJID` | whatsmeow-lib/binary/encoder.go:161-188 | the four JID forms |
| `BinaryEncoder.Encoder.Write` | whatsmeow-lib/binary/encoder.go:101-133 | appends the encoding of any value, or fails where the source panics |
| `BinaryEncoder.Encoder.WriteNodes` | whatsmeow-lib/binary/encoder.go:125-129 | appends the elements of a list in order |
| `BinaryEncoder.Encoder.WriteAttributes` | whatsmeow-lib/binary/encoder.go:190-199 | appends the attributes that are not dropped, in the order of iteration |
| `BinaryEncoder.Encoder.WriteNode` | whatsmeow-lib/binary/encoder.go:81-99 | appends the encoding of an element |
| `BinaryEncoder.Encoder.WriteElement` | whatsmeow-lib/binary/encoder.go:88-98 | the part of writeNode for tags other than "0" |
| `BinaryEncoder.Marshal` | whatsmeow-lib/binary/node.go:123-127 | a zero byte and the encoding of the element |
| `BinaryWire.WritesToken` | whatsmeow-lib/binary/encoder.go:135-149 | one byte for a single token, 236 to 239 and an index for a double one |
| `BinaryWire.WritesLength` | whatsmeow-lib/binary/encoder.go:64-79 | 252 and one byte, 253 and three, 254 and four |
| `BinaryWire.WritesRaw` | whatsmeow-lib/binary/encoder.go:151-159 | the length and the bytes |
| `BinaryWire.WritesListSize` | whatsmeow-lib/binary/encoder.go:211-221 | 0, 248 and one byte, 249 and two |
| `BinaryWire.WritesJID` | whatsmeow-lib/binary/encoder.go:161-188 | the literal form of every JID: 247 with its domain number, 246, 245 or 250 |
| `BinaryWire.WritesValue` | whatsmeow-lib/binary/encoder.go:101-133 | which form each kind of value takes |
| `BinaryWire.WritesAttribute` | whatsmeow-lib/binary/encoder.go:190-209 | key and value, unless the value is empty |
| `BinaryWire.WritesElement` | whatsmeow-lib/binary/encoder.go:81-99 | size, tag, attributes, content, in this order |
| `BinaryWire.WritesMessage` | whatsmeow-lib/binary/node.go:123-128 | a zero byte first |
| `BinaryParse.ReadValue` | whatsmeow-lib/binary/decoder.go:168-223 | on any bytes a successful read uses at least one byte and never passes the end |
| `BinaryParse.ReadAttributes` | whatsmeow-lib/binary/decoder.go:306-330 | reading attributes never passes the end |
| `BinaryParse.ReadNodes` | whatsmeow-lib/binary/decoder.go:332-350 | reading a list of elements never passes the end |
| `BinaryParse.ReadPairs` | whatsmeow-lib/binary/decoder.go:83-116 | unpacking uses one byte for each two characters |
| `BinaryDecoder.Decoder.ReadOneByte` | whatsmeow-lib/binary/decoder.go:29-38 | the byte at the index, or an error at the end |
| `BinaryDecoder.Decoder.ReadIntN` | whatsmeow-lib/binary/decoder.go:40-59 | the big-endian number in the next n bytes |
| `BinaryDecoder.Decoder.ReadInt20At` | whatsmeow-lib/binary/decoder.go:69-77 | the low 20 bits of the next three bytes |
| `BinaryDecoder.Decoder.ReadPacked8` | whatsmeow-lib/binary/decoder.go:83-116 | the unpacked characters, one less when the length byte says so |
| `BinaryDecoder.Decoder.ReadListSizeOf` | whatsmeow-lib/binary/decoder.go:155-166 | the list size for its tag |
| `BinaryDecoder.Decoder.ReadBytesOrString` | whatsmeow-lib/binary/decoder.go:386-406 | the next bytes as bytes or as a string |
| `BinaryDecoder.Decoder.Read` | whatsmeow-lib/binary/decoder.go:168-223 | the cursor decoder reads what the parser specifies and leaves the index where its rest begins |
| `BinaryDecoder.Decoder.ReadPair` | whatsmeow-lib/binary/decoder.go:225-239 | a user and a server |
| `BinaryDecoder.Decoder.ReadInterop` | whatsmeow-lib/binary/decoder.go:241-266 | a user, device, integrator and the interop server |
| `BinaryDecoder.Decoder.ReadFB` | whatsmeow-lib/binary/decoder.go:268-288 | a user, device and the messenger server |
| `BinaryDecoder.Decoder.ReadAD` | whatsmeow-lib/binary/decoder.go:290-304 | an agent, device and user |
| `BinaryDecoder.Decoder.ReadAttrs` | whatsmeow-lib/binary/decoder.go:306-330 | the attributes, a repeated key replacing the earlier value |
| `BinaryDecoder.Decoder.ReadNodeList` | whatsmeow-lib/binary/decoder.go:332-350 | a list of elements |
| `BinaryDecoder.Decoder.ReadElement` | whatsmeow-lib/binary/decoder.go:352-384 | an element, against the parser |
| `BinaryDecoder.Unmarshal` | whatsmeow-lib/binary/node.go:130-139 | the element, a decoding error, or an error naming the bytes left over |
| `BinaryWire.UnpackTable` | whatsmeow-lib/binary/decoder.go:118-153 | what each half byte is read as in the two packed forms, as a table |
| `BinaryWire.ReadsLengths` | whatsmeow-lib/binary/decoder.go:168-224 | 252, 253 and 254 with their lengths |
| `BinaryWire.ReadsLists` | whatsmeow-lib/binary/decoder.go:155-224 | 248 and 249 with their numbers of elements |
| `BinaryWire.ReadsPackedForms` | whatsmeow-lib/binary/decoder.go:168-224 | 255 and 251 |
| `BinaryWire.ReadsJIDForms` | whatsmeow-lib/binary/decoder.go:168-224 | 245, 246, 247 and 250 |
| `BinaryWire.ReadsADParts` | whatsmeow-lib/binary/decoder.go:290-304 | domain number, device and user, with the server of each domain number |
| `BinaryWire.ReadsPackedByte` | whatsmeow-lib/binary/decoder.go:83-116 | one packed byte is read as its high and then its low half |
| `BinaryWire.ReadsElementOf` | whatsmeow-lib/binary/decoder.go:352-384 | size, tag, attributes, and a content for an even size |
| `BinaryWire.LeftoverIsRefused` | whatsmeow-lib/binary/node.go:130-139 | bytes after the element are an error that counts them |
| `BinaryRoundTrip.ListSizeRoundTrip` | whatsmeow-lib/binary/encoder.go:211-221 | a list size reads back if and only if it is below 65536 |
| `BinaryRoundTrip.ReadsPairs` | whatsmeow-lib/binary/encoder.go:223-250 | unpacking gives the packed characters back, of even and of odd number |
| `BinaryRoundTrip.ReadsPacked` | whatsmeow-lib/binary/decoder.go:83-116 | a packed string reads back exactly, without its padding |
| `BinaryRoundTrip.ReadsBytes` | whatsmeow-lib/binary/encoder.go:151-159 | raw bytes read back for all three length forms |
| `BinaryRoundTrip.ReadsString` | whatsmeow-lib/binary/encoder.go:135-149 | a string reads back in every form, as bytes only where it was written raw and bytes were asked for |
| `BinaryRoundTrip.ReadsADJID` | whatsmeow-lib/binary/decoder.go:290-304 | the AD form reads back |
| `BinaryRoundTrip.ReadsFBJID` | whatsmeow-lib/binary/decoder.go:268-288 | the messenger form reads back |
| `BinaryRoundTrip.ReadsInteropJID` | whatsmeow-lib/binary/decoder.go:241-266 | the interop form reads back |
| `BinaryRoundTrip.ReadsJIDPair` | whatsmeow-lib/binary/decoder.go:225-239 | the plain form reads back, with an empty user too |
| `BinaryRoundTrip.ReadsJID` | whatsmeow-lib/binary/encoder.go:161-188 | every JID reads back as what its form carries |
| `BinaryRoundTrip.CarriedJIDs` | whatsmeow-lib/binary/encoder.go:161-188 | exactly which JIDs the wire carries unchanged |
| `BinaryRoundTrip.ReadsValue` | whatsmeow-lib/binary/encoder.go:101-133 | every value reads back as its normal form, or fails if an element in it has the tag "" or "0" |
| `BinaryRoundTrip.ReadsNodes` | whatsmeow-lib/binary/decoder.go:332-350 | a list of elements reads back as the list of their normal forms |
| `BinaryRoundTrip.ReadsAttributes` | whatsmeow-lib/binary/decoder.go:306-330 | attributes read back in any order of iteration, without the dropped ones |
| `BinaryRoundTrip.ReadsNode` | whatsmeow-lib/binary/decoder.go:352-384 | an element reads back as its normal form and exactly its bytes are used, whatever follows, if and only if no element in it has the tag "" or "0" or the size 65536 |
| `BinaryRoundTrip.EndMarkerFails` | whatsmeow-lib/binary/encoder.go:82-86 | the end-of-stream marker is never read as an element |
| `BinaryRoundTrip.NodeIsBounded` | whatsmeow-lib/binary/decoder.go:332-384 | whatever the bytes are, an element that is read has fewer than 65536 parts, and so has every list and element in it |
| `Varint.AcceptedFits` | whatsmeow-lib/reportingtoken.go:105-108 | an accepted varint has 64 bits and is rewritten in no more bytes |
| `Varint.UvarintRoundTrip` | whatsmeow-lib/reportingtoken.go:148-153 | reading a written varint gives it back, for every 64-bit value and whatever follows |
| `Varint.UvarintLocal` | whatsmeow-lib/reportingtoken.go:105-108 | reading depends on no byte after the varint |
| `Varint.UvarintIs` | whatsmeow-lib/reportingtoken.go:103-106 | the value, the length and the overflows of a varint byte by byte |
| `ReportingToken.GetConfigForField` | whatsmeow-lib/reportingtoken.go:76-83 | the first configuration with the number, if any |
| `ReportingFields.FindsFirst` | whatsmeow-lib/reportingtoken.go:76-83 | the search finds the first entry with the number, and nothing if and only if no entry has it |
| `ReportingToken.FirstField` | whatsmeow-lib/reportingtoken.go:103-165 | a complete field is a prefix of the bytes and longer than its payload |
| `ReportingFields.VarintField` | whatsmeow-lib/reportingtoken.go:86-92 | wire type 0 is a varint |
| `ReportingFields.Fixed64Field` | whatsmeow-lib/reportingtoken.go:86-92 | wire type 1 is eight bytes |
| `ReportingFields.BytesField` | whatsmeow-lib/reportingtoken.go:86-92 | wire type 2 is a length and its bytes |
| `ReportingFields.Fixed32Field` | whatsmeow-lib/reportingtoken.go:86-92 | wire type 5 is four bytes |
| `ReportingFields.MessageComesOut` | whatsmeow-lib/reportingtoken.go:141-161 | a configured message of which something is kept comes out with its tag, and inside is its extract |
| `ReportingFields.CompleteIsReadable` | whatsmeow-lib/reportingtoken.go:94-176 | complete fields are readable |
| `ReportingFields.RefusedVoids` | whatsmeow-lib/reportingtoken.go:101-167 | a tag of a refused wire type voids everything before it |
| `ReportingToken.FirstFieldLocal` | whatsmeow-lib/reportingtoken.go:103-165 | the first field depends on its own bytes only |
| `ReportingIndex.ValueMovesBack` | whatsmeow-lib/reportingtoken.go:112-129 | exactly which values move the index back |
| `ReportingIndex.RepeatedForever` | whatsmeow-lib/reportingtoken.go:101-167 | an index that comes again comes forever |
| `ReportingIndex.OverflowLoops` | whatsmeow-lib/reportingtoken.go:113-118 | a concrete input of 22 bytes on which the loop never ends |
| `ReportingIndex.ReadableMovesOn` | whatsmeow-lib/reportingtoken.go:101-167 | on readable bytes every round moves the index on |
| `ReportingToken.WrappedIsField` | whatsmeow-lib/reportingtoken.go:146-156 | a re-encoded message is read back as one field with its tag and payload |
| `ReportingToken.NormalReads` | whatsmeow-lib/reportingtoken.go:168-175 | what the extractor writes can be read again, and is empty only if nothing is kept |
| `ReportingToken.Permuted` | whatsmeow-lib/reportingtoken.go:168-169 | sorting changes neither what is kept nor the length |
| `ReportingToken.JoinedIsNormal` | whatsmeow-lib/reportingtoken.go:168-175 | the concatenation of sorted fields is normal and reads back as their items |
| `ReportingToken.SortByNumber` | whatsmeow-lib/reportingtoken.go:168-169 | sorted by number and a permutation; the order of equal numbers is open |
| `ReportingExtract.SkipValue` | whatsmeow-lib/reportingtoken.go:112-129 | the next index, as the int arithmetic of the source gives it: back if and only if a varint or a length overflows, or the length converts to an int below the negated length of its varint or takes the sum out of range; and past every complete value |
| `ReportingExtract.TakeRaw` | whatsmeow-lib/reportingtoken.go:130-166 | a configured field is kept byte for byte |
| `ReportingExtract.TakeMessage` | whatsmeow-lib/reportingtoken.go:141-161 | a configured message is kept as its extract, or dropped when the extract is empty; a payload that is never done is reported as such |
| `ReportingExtract.ReadField` | whatsmeow-lib/reportingtoken.go:103-166 | one round: what is kept of a complete field in no more bytes, the next index, or how the loop ends |
| `ReportingExtract.Collect` | whatsmeow-lib/reportingtoken.go:101-167 | the loop, on any bytes: the pieces of its rounds, and whether it ends or comes back to an index it has seen and so never ends |
| `ReportingToken.Concatenate` | whatsmeow-lib/reportingtoken.go:171-174 | the bytes of the fields in order |
| `ReportingToken.NormalUnique` | whatsmeow-lib/reportingtoken.go:168-175 | what is kept determines the bytes when no field number repeats |
| `ReportingToken.EqualNumbersMaySwap` | whatsmeow-lib/reportingtoken.go:168-169 | two fields of one number may come out in either order |
| `EventBuffer.Client.DecryptBuffered` | whatsmeow-lib/message.go:487-537 | bufferedDecrypt with the buffer enabled, for any failing store call or crash |
| `EventBuffer.Client.DecryptMessages` | whatsmeow-lib/message.go:298-470 | the loop over the children of a delivery, with its early exits |
| `EventBuffer.Client.DecryptChild` | whatsmeow-lib/message.go:330-458 | one round: decrypt, unpad, decode by version, call the handler, clear; also when the handler is not called |
| `EventReplay.FreshIsHandled` | whatsmeow-lib/message.go:330-458 | a fresh ciphertext that decrypts, unpads and is dispatched: exactly an advance, the sender keys, the handler call and the clear, and the stored ratchet after them |
| `EventReplay.FailureKeepsPlaintext` | whatsmeow-lib/message.go:430-447 | when the handler fails or the process dies after the commit the plaintext stays in the buffer |
| `EventReplay.NothingCommitted` | whatsmeow-lib/message.go:496-530 | a failing lookup or transaction, and a crash before the commit, change nothing |
| `EventReplay.UndecryptableChangesNothing` | whatsmeow-lib/message.go:360-404 | an old counter is skipped, any other failure to decrypt ends the delivery |
| `EventBuffer.Client.HandleArmadillo` | whatsmeow-lib/armadillomessage.go:26-46 | version 3: nothing when it does not decode, the sender keys when it does, and the handler only when it holds something to dispatch |
| `EventBuffer.ChildKeepsSafe` | whatsmeow-lib/message.go:330-458 | one round keeps buffer and log in step |
| `EventBuffer.RunKeepsSafe` | whatsmeow-lib/message.go:298-537 | so does any run |
| `EventBuffer.RedeliveryFinishes` | whatsmeow-lib/message.go:501-516 | a committed plaintext that was not cleared reaches the handler on a redelivery without a second advance if and only if it unpads and the handler is called for it |
| `EventBuffer.ClearedUnhandled` | whatsmeow-lib/message.go:413-447 | exactly which committed plaintexts a redelivery clears without a handler call |
| `EventBuffer.ClearedStaysCleared` | whatsmeow-lib/message.go:502-510 | a cleared hash is never handed out or advanced again |
| `SessionCache.Device.WithCachedSessions` | whatsmeow-lib/store/sessioncache.go:72-104 | the cache holds what a load returns for every wanted address that deserialises, and the result says which exist; a failing store leaves the context as it was |
| `SessionCache.Device.LoadSession` | whatsmeow-lib/store/signal.go:85-103 | the cached record if there is one, else the stored, blank or failing load |
| `SessionCache.Device.StoreSession` | whatsmeow-lib/store/signal.go:109-120 | with a cache only the cache changes, without one only the store, or nothing when it fails |
| `SessionCache.Device.PutCachedSessions` | whatsmeow-lib/store/sessioncache.go:106-125 | a successful flush writes the dirty entries and empties the cache; a failed one changes nothing |
| `SessionCache.PrefetchedIs` | whatsmeow-lib/store/sessioncache.go:81-100 | what the prefetch leaves for each address |
| `SessionCache.LoadsAgree` | whatsmeow-lib/store/sessioncache.go:47-57 | a cached load returns what a plain load from the flushed store would |
| `SessionCache.LoadsSeeStores` | whatsmeow-lib/store/sessioncache.go:47-70 | a load after a store of the address returns the stored record, whatever happens in between |
| `SessionCache.RunRefines` | whatsmeow-lib/store/sessioncache.go:47-125 | every run of loads, stores and flushes refines the plain one |
| `SessionCache.UnflushedStore` | whatsmeow-lib/store/sessioncache.go:106-125 | without the flush the stores agree if and only if no dirty entry differs from its row |
| `RecentMessages.Client.AddRecentMessage` | whatsmeow-lib/retry.go:78-90 | the slot, the map and the pointer after a send |
| `RecentMessages.MapWithinRing` | whatsmeow-lib/retry.go:78-90 | of the entries with an ID there are at most 256, and each of their keys is in the ring |
| `RecentMessages.IdentifiedMapIsBounded` | whatsmeow-lib/retry.go:78-90 | with an ID in every send the map has at most 256 entries |
| `RecentMessages.QueueFinds` | whatsmeow-lib/retry.go:78-97 | without a repeat within 256 sends each of the last 256 messages is found |
| `RecentMessages.QueueForgets` | whatsmeow-lib/retry.go:78-97 | a key that is not among the last 256 sends is found if and only if its ID is empty and it was ever sent |
| `RecentMessages.EmptyIDsPileUp` | whatsmeow-lib/retry.go:80-83 | sends without an ID to n users leave n entries, for every n |
| `ResponseWaiters.NextKeepsInv` | whatsmeow-lib/request.go:43-97 | every step of wait, cancel, take, deliver, drop, clear and receive keeps the invariant |
| `ResponseWaiters.ClosedMeansCancelled` | whatsmeow-lib/request.go:43-69 | a channel is closed if and only if its caller cancelled it |
| `ResponseWaiters.DisconnectReachesAll` | whatsmeow-lib/request.go:43-54 | a disconnect is put into the channel of everyone who waits and of no one else |
| `ResponseWaiters.OthersPass` | whatsmeow-lib/request.go:71-82 | any other node leaves the table alone |
| `ResponseWaiters.CancelRacePanics` | whatsmeow-lib/request.go:64-97 | a response taken, its caller gone, and the response sent: a run that ends in a panic |
| `ResponseWaiters.ClearNeverCloses` | whatsmeow-lib/request.go:45-51 | every channel in the table has room, so the closing branch is never taken |
| `ResponseWaiters.RequestIDsDiffer` | whatsmeow-lib/request.go:19-21 | ids of one client are equal if and only if their counters are |
| `ResponseWaiters.Waiters.GenerateRequestID` | whatsmeow-lib/request.go:19-21 | the counter is advanced, wrapping at 2^64, and printed after the unique prefix |
| `ResponseWaiters.Waiters.WaitResponse` | whatsmeow-lib/request.go:56-62 | a new empty channel is entered for the id |
| `ResponseWaiters.Waiters.CancelResponse` | whatsmeow-lib/request.go:64-69 | the channel is closed and the id removed |
| `ResponseWaiters.Waiters.TakeWaiter` | whatsmeow-lib/request.go:71-85 | a response with a waiter takes it off the table |
| `ResponseWaiters.Waiters.ClearResponseWaiters` | whatsmeow-lib/request.go:43-54 | every waiter gets the node, in any order of iteration, and the table is empty |
| `GroupCache.Client.UpdateGroupParticipantCache` | whatsmeow-lib/group.go:978-1007 | the members after the append loop and the swap-with-last loop; nothing changes for an unknown group |
| `GroupCache.Client.RemoveFirst` | whatsmeow-lib/group.go:998-1006 | the first occurrence is overwritten with the last member and the list cut |
| `GroupCache.LeaveAllMultiset` | whatsmeow-lib/group.go:998-1006 | for any list each leave takes out one occurrence |
| `GroupCache.GoneWhenNamedOften` | whatsmeow-lib/group.go:998-1006 | with repeats a member is gone if and only if it is named to leave often enough |
| `Framing.FramesAppend` | whatsmeow-lib/socket/framesocket.go:161-200 | the frames of a stream can be read in pieces: first those of a prefix, then those of its rest with what follows |
| `FrameSocket.FrameBytes` | whatsmeow-lib/socket/framesocket.go:137-147 | a frame is its length in three literal bytes and the data |
| `Framing.StreamParses` | whatsmeow-lib/socket/framesocket.go:120-150 | the frames in the stream sent are the payloads sent |
| `Framing.LateProcessAll` | whatsmeow-lib/socket/framesocket.go:161-200 | counting after line 173, any pieces hand out exactly the frames of their bytes and hold the rest |
| `FramingExact.EarlyAgrees` | whatsmeow-lib/socket/framesocket.go:161-200 | until a piece ends inside a body the two counts cannot be told apart |
| `FramingExact.SplitBodyIsLost` | whatsmeow-lib/socket/framesocket.go:172-173 | any piece that ends inside a body spoils the run |
| `FramingExact.OpenBodyCosts` | whatsmeow-lib/socket/framesocket.go:172-173 | after a body that was left open the count exceeds the bytes that came in |
| `FrameSocket.Socket.SendFrame` | whatsmeow-lib/socket/framesocket.go:120-150 | writes the header once, a 3-byte length and the data; refuses 2^24 bytes and more; a failing write still uses up the header |
| `FrameSocket.Socket.ProcessData` | whatsmeow-lib/socket/framesocket.go:161-200 | the receiver after a message, against the specification with the early count |
| `FrameSocket.Socket.ProcessRound` | whatsmeow-lib/socket/framesocket.go:162-199 | one round of the loop, with a slice out of range as a panic |
| `FrameSocket.Socket.FrameComplete` | whatsmeow-lib/socket/framesocket.go:152-159 | hands the frame out and clears the receiver |
| `FrameSocket.IVsRepeat` | whatsmeow-lib/socket/noisesocket.go:73-77 | two sends share an initialisation vector if and only if their numbers are equal modulo 2^32 |
| `FrameSocket.IVBytes` | whatsmeow-lib/socket/noisesocket.go:73-77 | bytes 0 to 7 are 0, bytes 8 to 11 the counter, the high byte first |
| `FrameSocket.NoiseSocket.SendFrame` | whatsmeow-lib/socket/noisesocket.go:91-110 | a context cancelled before sealing changes nothing; otherwise the counter advances, whether or not the frame is written |
| `FrameSocket.RunWritesStream` | whatsmeow-lib/socket/noisesocket.go:91-110 | a run of sends that all go out writes the header that is due and then exactly the stream of the sealed payloads |
| `FrameSocket.CountersAgree` | whatsmeow-lib/socket/noisesocket.go:91-120 | after any run of sends the counters of both sides agree if and only if the number of frames sealed but not written is a multiple of 2^32 |
| `FrameSocket.DriftedDeliversNothing` | whatsmeow-lib/socket/noisesocket.go:112-120 | once the counters differ nothing sent later is delivered |
| `FrameSocket.NoiseSocket.ReceiveEncryptedFrame` | whatsmeow-lib/socket/noisesocket.go:112-120 | advances the counter and hands on what opens |
| `FrameSocket.NoiseSocket.ConsumeFrames` | whatsmeow-lib/socket/noisesocket.go:55-71 | opens the frames in order |
| `FrameSocket.OpensWhatWasSealed` | whatsmeow-lib/socket/noisesocket.go:91-120 | from equal counters the sealed payloads open to the payloads |
| `FrameSocket.TransportIsIdentity` | whatsmeow-lib/socket/noisesocket.go:91-120 | framed and sealed payloads arrive in order and unchanged for every chunking that splits no body |
| `FrameSocket.LateTransportIsIdentity` | whatsmeow-lib/socket/framesocket.go:161-200 | with the later count the same holds for every chunking |
| `Jid.DomainRoundTrip` | whatsmeow-lib/types/jid.go:76-90 | the domain number of a server leads back to it through the constructor of AD JIDs |
| `Jid.DomainNumbers` | whatsmeow-lib/types/jid.go:132-156 | the server of each of the numbers 0, 1, 128 and 129 |
| `JidText.SafeTextParses` | whatsmeow-lib/types/jid.go:158-200 | the direction a caller uses, over all agents and devices and with an empty user |
| `JidText.TextForms` | whatsmeow-lib/types/jid.go:216-226 | the four text forms in literal characters |
| `JidText.WideNumbersAreCut` | whatsmeow-lib/types/jid.go:158-200 | agents and devices that are too wide keep their low bits |
| `JidText.TooManyParts` | whatsmeow-lib/types/jid.go:158-200 | a second dot or colon is refused |
| `JidText.ParsedShape` | whatsmeow-lib/types/jid.go:158-200 | whatever is parsed has the shape the text can carry |
| `Bytes.BigEndianRoundTrip` | whatsmeow-lib/binary/encoder.go:32-42 | n big-endian bytes keep exactly the numbers below 256^n |
| `Bytes.BigEndianAt` | whatsmeow-lib/binary/encoder.go:32-42 | byte i of n is the number divided by 256^(n-i-1), cut to 8 bits |
| `Bytes.DigitsParse` | whatsmeow-lib/types/jid.go:216-226 | decimal digits parse back |
| `Bytes.DigitsAre` | whatsmeow-lib/types/jid.go:216-226 | each digit, in base 10 |

## Left out

- The application around the library (HTTP, ORM, event forwarding), the websocket itself, media, history sync, connection lifecycle and keepalive, QR login: nothing of the protocols above depends on them.
- Real cryptography, libsignal, protobuf code generation, JSON, zlib: functions with laws. A zlib-compressed frame (binary/unpack.go:24-29) is not modelled.
- Log messages, time stamps and clocks; the periodic deletion of old buffered hashes and old outgoing events.
- AppStateStore.Store.PutAppStateMutationMACs: the class is the store interface as a map, and its put does not fail; the INSERT of the SQL store, which can, is in `AppStateSql`.
- AppStateDecode.Processor.StoreMACs: the three store calls do not fail here; the one that can fail on its input is `AppStateSql.StoreAll`. Of a database that goes away between them only the first gap is treated (`VersionRowAlone`), and of the collections that share the tables the model has one.
- AppStateSql.InsertSucceeds: an index that is absent altogether is bound as NULL, which SQLite lets pass and only unvalidated patches can have; a version of 2^63 and more, which drivers may refuse.
- AppStateEncode.EncodePatch: marshalling, encryption and the database lookup do not fail in the model; in the source such a failure ends the call before anything is sent.
- The `fakeIndexesToRemove` branch of decodeMutations: its map is always nil here.
- ProcessRecovery installs a hash from a blob unchecked, so there is nothing to prove about it; the Build constructors other than BuildArchive build one mutation each, which is the easy case of `EncodedPatchDecodes`; dispatching app state events.
- Attributes are a list with distinct keys in the order in which the map is iterated; the attribute getters, XML printing and JSON of nodes are left out.
- BinaryEncoder.Encoder.WriteJID: the source writes to a byte slice; the model's field is a sequence, so aliasing of that slice is not captured.
- ReportingExtract.Extract: a slice expression beyond the length of the data is a fault; the source panics there, or reads on in the array behind the slice when that is longer. What is collected from bytes that are not readable along the configuration is not specified, only whether the call returns.
- ReportingToken.Insert: the source calls sort.Slice; any sort would do, and no more is promised than it promises.
- EventBuffer.Client.DecryptBuffered: the path with the buffer disabled and the bot messages that bypass the buffer are left out, and so is the expiry of hashes; deliveries are handled one at a time. What the protocol parts of a message do is a fault flag.
- SessionCache.Device.LoadSession: records are values here; a change in place is a step of its own in the runs of `ChangesMustBeStored`, which end at their first flush, and no record is shared by two addresses. ContainsSession and other writers are excluded, and runs have no failing loads and stores, only failing flushes.
- RecentMessages.Client.AddRecentMessage: the optional retry store in front of the ring is left out.
- ResponseWaiters.EveryRunIsSafe: a caller cancels its own channel, and at most once, as every caller in the source does (`Allowed`). The disconnect node of the end of the stream is told by its tag, not by its address.
- FrameSocket.NoiseSocket.SendFrame: the goroutine around the socket's send is one step; a context cancelled while it runs, which leaves open whether the frame goes out, is not modelled.
- The signal address, the AD string and the SQL form of a JID.
