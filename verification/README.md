# Verified models of a WhatsApp client library

Dafny models of the stateful, arithmetic and parsing cores of the library, with
proofs of what they promise over every input and every run.

`dafny verify dfyconfig.toml` checks the whole project.

| file | models |
|---|---|
| `CredentialRecord.dfy`, `AuthClient.dfy` | the credentials record, the auth client as a class over a store, and the same client as a transition system |
| `AuthRuns.dfy` | whole runs: no lost update, counters, merged attributes, one-shot overrides, the rotation that is not atomic |
| `AuthStoreRuns.dfy`, `AuthStoreOrder.dfy` | the store following memory with late and failing writes; skipping unchanged writes refines saving always; writes that settle out of order |
| `CommsConfig.dfy` | connection settings, version validation and precedence |
| `CredentialLoad.dfy` | loading or creating credentials when any step can fail, the process can die, and writes left running land at any moment |
| `CredentialRecovery.dfy`, `CredentialKeys.dfy` | what attempts leave in the stores over whole runs; when keys stay behind whose credentials were never saved |
| `WebpAnimation.dfy`, `ByteOrder.dfy`, `Slices.dfy` | the WebP animation scanner and the byte arithmetic below it |
| `PlaintextUpload.dfy` | temporary files of the plaintext media upload |
| `AppstateIndex.dfy`, `IndexText.dfy`, `EnumLookup.dfy`, `Text.dfy` | the app-state index builder and decoder and the index text, the enum and action-name maps, splitting and decimal text |
| `SyncKeys.dfy` | choosing the active app-state sync key |
| `BinaryTokens.dfy`, `BinaryWire.dfy`, `BinaryRead.dfy` | the binary stanza format: token tables, the form a node is written in, and reading it back |
| `BinaryEncoder.dfy`, `BinaryDecoder.dfy`, `Utf8.dfy` | the encoder over its growing buffer, the decoder over its moving offset, and the text encoding's length bound |
| `BinaryGrammar.dfy`, `BinaryExact.dfy`, `BinaryForms.dfy` | the wire grammar in literal codes, and the reader accepting exactly that grammar with its meaning |
| `BinaryBytes.dfy`, `BinaryContent.dfy` | the bytes the encoder chooses for every string, address and header; content and addresses only the reader knows |
| `BinaryRoundTrip.dfy`, `BinaryPrefix.dfy`, `BinaryCodec.dfy`, `BinaryReencode.dfy` | decoding inverts encoding, prefixes and trailing bytes, when a round trip loses nothing, when encoding again gives the same bytes |
| `SampleFeed.dfy`, `CallRecording.dfy`, `WavEncoder.dfy`, `AutoAccept.dfy` | the voice-call example: sample reassembly, the capped recorder, the WAV encoder, the auto-accept guard |

## Conventions

`null` and `undefined` are `None`; a thrown error is `Thrown`. A function such
as `Step` or `Walk` specifies a class method or a loop, which is proved to do
what the function says; the lemmas are about the function. An `async` method of
the auth client is one step up to its first suspension, because nothing is
awaited between reading the credentials and handing the new ones to the store.

## What the proofs show about the code

The models follow the code where it departs from its documentation, and where
it loses something a caller might expect it to keep.

- A version override does reach a mobile session when no app-version override
  is pending (`CommsConfig.VersionOverrideReachesMobile`), although the comment
  at src/auth/WaAuthClient.ts:228-230 says it has no effect there.
- An unchanged routing value is compared with memory, not with the value on
  disk as src/auth/WaAuthClient.ts:289-292 says; after a failed save the two
  differ (`AuthStoreRuns.SkipAfterFailureLeavesStoreStale`; exactly when,
  `AuthStoreRuns.SkippedRoutingExactly`).
- The index builder writes a participant's JID even when `fromMe` is true, and
  refuses a null participant when it is not, where spec/appstate/index.d.ts:18-19
  and 166-168 promise `'0'` (`AppstateIndex.BuilderVersusDocumentation`).
- Rotating the ADV secret replaces the whole record after a wait, so whatever
  happened during the wait is undone, a completed pairing included
  (`AuthRuns.RotationKeepsUpdatesExactly`, `AuthRuns.RotationUndoesPairing`).
- Ordered key writes do not keep a partial commit from splitting the bootstrap
  state, which src/signal/registration/utils.ts:20-22 says they do
  (`CredentialKeys.SplitBootstrapExactly`).
- The key creation commits keys before their credentials are saved, so the
  comment at src/auth/credentials-flow.ts:302 holds of the restore only
  (`CredentialKeys.KeysCommittedExactly`). Key writes an attempt abandons can
  land after a retry, or inside it, and break the agreement of the stores
  (`CredentialRecovery.LateKeyWriteBreaksAgreement`,
  `CredentialRecovery.LateKeyWriteInsideRetry`).
- A call that ends and comes in again overwrites its first recording
  (`CallRecording.FileConservesExactly`).
- Encoding an address with a device drops the device on any server but the four
  that carry one, and a leading zero of a device number
  (`BinaryCodec.ValueExact`, `BinaryCodec.GroupDeviceDropped`). Encoding the
  decoded node again still gives the same bytes, unless an address has no user
  (`BinaryReencode.ReencodingIsIdentical`).
- A call that ends with an accept outstanding and comes in again gets a second
  outstanding accept (`AutoAccept.EndWithOutstandingAccept`).

## Model

| member | source | states |
|---|---|---|
| AuthClient.WaAuthClient.PatchCredentials | src/auth/WaAuthClient.ts:495-513 | a patch reads memory, and either changes memory and queues exactly that value, or changes nothing; without credentials it throws and changes nothing |
| AuthClient.WaAuthClient.UpdateCredentials | src/auth/WaAuthClient.ts:524-538 | memory takes the new record and the store is asked for the same record, in one step |
| AuthClient.WaAuthClient.PersistServerStaticKey | src/auth/WaAuthClient.ts:261-269 | refines the model's step for a static key, which is always written |
| AuthClient.WaAuthClient.PersistServerHasPreKeys | src/auth/WaAuthClient.ts:272-287 | refines the model's step for the pre-key flag |
| AuthClient.WaAuthClient.PersistRoutingInfo | src/auth/WaAuthClient.ts:293-312 | refines the model's step for routing info |
| AuthClient.WaAuthClient.ClearRoutingInfo | src/auth/WaAuthClient.ts:315-328 | refines the model's step; the record it resolves to is memory and has no routing info |
| AuthClient.WaAuthClient.PersistSuccessAttributes | src/auth/WaAuthClient.ts:340-403 | refines the model's step: the attempt count moves before the patch, the merge keeps what is undefined |
| AuthClient.WaAuthClient.ClearStoredCredentials | src/auth/WaAuthClient.ts:254-258 | memory is emptied and a clearing write queued behind the earlier ones |
| AuthClient.WaAuthClient.BuildConfig | src/auth/WaAuthClient.ts:186-212 | the returned settings come from the state before the call, and both overrides are gone afterwards, also when it throws |
| AuthClient.AuthStore.SettleOldest | src/auth/credentials-flow.ts:66-74 | the assumption on the store: the oldest write in flight takes effect or fails without effect |
| CredentialRecord.SkipMeansUnchanged | src/auth/WaAuthClient.ts:261-403 | a call skips its write only when its patch leaves the whole record equal, and a counted login never skips |
| CredentialRecord.PersistsExactly | src/auth/WaAuthClient.ts:261-403 | apart from the static key, which is always written, a call persists if and only if its patch changes the record |
| AuthRuns.NoLostUpdate | src/auth/WaAuthClient.ts:254-403 | in every interleaving of calls and settling writes, memory is the fold of the patches in start order, as if nothing were ever skipped |
| AuthRuns.FieldsAfterRun | src/auth/WaAuthClient.ts:340-403 | from a load on, after any interleaving of calls, settling writes and builds, every success attribute is its last defined value, the login counter has grown by exactly the counted calls, and identity fields never change |
| AuthRuns.LastDefinedIs | src/auth/WaAuthClient.ts:371-384 | a later call that leaves a field undefined never clears it |
| AuthRuns.AttemptsCounted | src/auth/WaAuthClient.ts:75-79 | the process-local count grows by every counted call of the run, credentials or not |
| AuthRuns.CountedCallIsSaved | src/auth/WaAuthClient.ts:340-403 | a counted call that finds credentials always queues a write carrying the incremented counter |
| AuthRuns.LoginCounterCounts | src/auth/WaAuthClient.ts:340-403 | in numbers: the first counted login gives one when there was no counter, each further one adds one, and no other call touches it |
| AuthRuns.RotationKeepsUpdatesExactly | src/auth/pairing/WaPairingFlow.ts:632-639 | over any run during its wait, other rotations, pairings and clears included, a rotation changes only the secret if and only if memory then differs from what it captured in the secret at most |
| AuthRuns.RotationOverCalls | src/auth/pairing/WaPairingFlow.ts:632-639 | when only calls overlap it, if and only if none counts a login and each field's last defined value is the captured one |
| AuthRuns.RotationUndoesPairing | src/auth/pairing/WaPairingFlow.ts:340-348 | a pairing completed during the wait is undone and the client ends up unregistered, in memory and in what is queued for the store |
| AuthRuns.PairingKeepsUpdatesExactly | src/auth/pairing/WaPairingFlow.ts:328-348 | completing a pairing amounts to setting its five fields if and only if memory differs from what it read in those at most |
| AuthRuns.RotationLosesPreKeyFlag | src/auth/pairing/WaPairingFlow.ts:632-639 | a concrete run in which the rotation undoes a saved pre-key flag |
| AuthRuns.RotationRevivesCleared | src/auth/pairing/WaPairingFlow.ts:632-639 | a rotation pending over a clear brings the cleared record back |
| AuthRuns.PairingStores | src/auth/pairing/WaPairingFlow.ts:340-348 | after a pairing memory holds its identity, JID, LID and platform and a login counter of 0, and the keys, secret, flag and routing it read |
| AuthRuns.RotationStores | src/auth/pairing/WaPairingFlow.ts:632-639 | after a rotation memory holds the new secret beside the captured keys and JID |
| AuthRuns.OverridesPending | src/auth/WaAuthClient.ts:221-235 | the pending overrides are those set last since the last build |
| AuthRuns.BuildUsesPendingOverrides | src/auth/WaAuthClient.ts:186-235 | over every run, a successful build advertises the last override set since the previous build, by precedence and validated for its transport, and leaves none pending |
| AuthRuns.BuildOfRun | src/auth/WaAuthClient.ts:186-212 | in every run a build is made from memory, the pending overrides and the number of counted calls; its handshake is memory's, field by field, and without credentials it throws |
| AuthRuns.FailedBuildConsumesOverrides | src/auth/WaAuthClient.ts:193-197 | a build that throws for lack of credentials has used up the override |
| AuthStoreRuns.LogIsMemory | src/auth/WaAuthClient.ts:524-538 | the values written in a run are the values memory held at the recorded moments |
| AuthStoreRuns.StoreHoldsPastMemory | src/auth/credentials-flow.ts:66-74 | whatever fails, the store holds a value memory held earlier in the run, and only moves to later ones |
| AuthStoreRuns.StoreCatchesUp | src/auth/credentials-flow.ts:66-74 | with nothing in flight the store holds the newest value if and only if the last write to settle succeeded, and then it equals memory |
| AuthStoreRuns.SkippedRoutingReachesStore | src/auth/WaAuthClient.ts:289-312 | in any run, replacements and clears included, a skipped routing value is in the store or bound for it whenever a write is in flight or the last one to settle succeeded |
| AuthStoreRuns.SkippedRoutingExactly | src/auth/WaAuthClient.ts:289-312 | in any run, a skipped routing value is in the store, now or once drained, if and only if a write is in flight, or the last to settle succeeded, or memory had that value at the moment whose value the store holds |
| AuthStoreRuns.StoredRoutingOfCalls | src/auth/WaAuthClient.ts:289-328 | with calls only, that moment's routing is the last one the calls up to it define |
| AuthStoreRuns.SkipAfterFailureLeavesStoreStale | src/auth/WaAuthClient.ts:289-312 | after a failed write the repeated call is skipped although the store never got the value |
| AuthStoreRuns.CorrespondsStep | src/auth/WaAuthClient.ts:495-513 | every step of the skipping client matches the step of the always-saving client |
| AuthStoreRuns.SkippingRefinesSaving | src/auth/WaAuthClient.ts:495-513 | for every run of the skipping client in which writes succeed there is a run of the client that saves on every call, with the same calls, after which memory and stored record are the same |
| AuthStoreRuns.SavingRunIsMatched | src/auth/WaAuthClient.ts:495-513 | the other direction: every run of the saving client is matched by the skipping client on the schedule without the writes it never asked for |
| AuthStoreRuns.ScheduleKeepsCalls | src/auth/WaAuthClient.ts:495-513 | the refinement's schedule makes the same calls in the same order |
| AuthStoreRuns.SavingRepairsAFailure | src/auth/WaAuthClient.ts:495-513 | without the success of writes the refinement fails: saving always repairs the store where skipping does not |
| AuthStoreOrder.AnyOrderHoldsPastMemory | src/auth/credentials-flow.ts:66-74 | with writes settling in any order, store and writes in flight still hold values memory had |
| AuthStoreOrder.OutOfOrderEndsStale | src/auth/credentials-flow.ts:66-74 | the first-in-first-out assumption is needed for the store to end up with the newest value |
| CommsConfig.ValidVersionExactly | src/auth/credentials-flow.ts:107-123 | the accepted versions are exactly the dotted decimal texts of four safe integers on mobile, of three to five on the web |
| CommsConfig.OnePayload | src/auth/credentials-flow.ts:177-271 | returned settings carry exactly one payload, a login if and only if the credentials are registered, with the counters as given |
| CommsConfig.AdvertisedVersion | src/auth/credentials-flow.ts:167-207 | precedence of app-version override, version override, option and device, and every text taken from the first three is valid for the transport |
| CommsConfig.InvalidWinnerRefused | src/auth/credentials-flow.ts:167-190 | an invalid winning text is always refused |
| CommsConfig.VersionOverrideReachesMobile | src/auth/WaAuthClient.ts:204-205 | a version override is what a mobile session advertises when no app-version override is pending |
| CommsConfig.BuildReturnsExactly | src/auth/credentials-flow.ts:151-272 | a build returns if and only if the own JID, when present, parses, the winning version text resolves and is valid, and on mobile the proxy suits, there is an own JID and the login encodes; a web session needs no registration |
| CommsConfig.ReturnedConfigFields | src/auth/credentials-flow.ts:192-271 | the credential field behind each part of a returned configuration: handshake keys, routing info, certificate flag, identity, registration bundle, address; an explicit mobile transport wins over the stored device |
| CommsConfig.MobileLoginUnique | src/auth/credentials-flow.ts:160-212 | the transport and the login of a mobile session are determined by those properties |
| CredentialLoad.Stores.LoadOrCreateCredentials | src/auth/credentials-flow.ts:31-64 | the stores and the outcome after an attempt with any step failing, crashing or completing, and any writes landing while it waits |
| CredentialLoad.Stores.CreateFreshAndPersistCredentials | src/auth/credentials-flow.ts:294-306 | keys, then the save, then the restore, each of which may cut the attempt off and lets earlier writes land |
| CredentialLoad.Stores.CreateAndStoreInitialKeys | src/signal/registration/utils.ts:33-38 | the key writes land in their order, between them whatever was running; a failure may leave the rest running |
| CredentialKeys.SplitBootstrapExactly | src/signal/registration/utils.ts:18-38 | over stores with other keys and no earlier key write running, the new registration is left beside an old signed pre-key if and only if the creation ends early after exactly one of its writes, and never the other way round |
| CredentialKeys.SplitBootstrap | src/signal/registration/utils.ts:32-34 | an instance: a crash after the first write over an older set |
| CredentialLoad.Stores.RestoreSignalStore | src/auth/credentials-flow.ts:329-339 | the three parallel writes land in any order among writes left running; on failure any of them may be lost or go on running |
| CredentialRecovery.CompletedLoadAgrees | src/auth/credentials-flow.ts:31-64 | after any sequence of attempts and landings, an attempt that completes leaves all four stores agreeing with its result if and only if the last write to land on each store during its restore agrees with it |
| CredentialRecovery.CrashRecovery | src/auth/credentials-flow.ts:31-64 | after crashes at any steps, and failures that leave nothing running, the first attempt that completes leaves all stores in agreement |
| CredentialRecovery.LateAgreementSuffices | src/auth/credentials-flow.ts:329-339 | with only agreeing writes running, no landing inside a restore can hurt |
| CredentialRecovery.RegisteredNeverReplaced | src/auth/credentials-flow.ts:50-57 | credentials with a non-empty own JID survive every sequence of attempts and are what each completed attempt returns |
| CredentialRecovery.ReturnedExactly | src/auth/credentials-flow.ts:31-64 | when an attempt completes and what it returns, after any run: new credentials, each key in its field, unregistered, flag false, if and only if nothing is stored or what is stored has no own JID, a bad signature and no skipped check; the stored ones otherwise |
| CredentialRecovery.BadSignatureNeverReturned | src/auth/credentials-flow.ts:48-57 | with the check on, unregistered credentials with a bad signature are never returned as stored, after any run |
| CredentialRecovery.StoredExactly | src/auth/credentials-flow.ts:31-64 | an attempt replaces the stored credentials exactly when it creates new ones and their save takes effect |
| CredentialRecovery.RestoreOnlyWritesSaved | src/auth/credentials-flow.ts:302-304 | the restore only ever writes credentials that are in the auth store at that moment; anything else that lands meanwhile was running before |
| CredentialKeys.KeysCommittedExactly | src/auth/credentials-flow.ts:294-304 | over all stores and plans, an attempt that creates leaves its registration behind unsaved if and only if it ends before the save takes effect and its registration is the last to land |
| CredentialKeys.KeysCommittedUndisturbed | src/auth/credentials-flow.ts:294-304 | with no earlier registration running, if and only if some key landed before the creation ended early, or the save failed without effect |
| CredentialKeys.KeysCommittedUnsaved | src/signal/registration/utils.ts:33-35 | an instance: the process dies right after the first key has landed |
| CredentialRecovery.AgreementLastsExactly | src/auth/credentials-flow.ts:334-338 | the agreement outlasts all late writes if and only if each write still running agrees with the returned credentials |
| CredentialRecovery.LateStaysSaved | src/auth/credentials-flow.ts:42-64 | attempts that leave no key write running, regenerating ones included, only ever leave writes of saved credentials running |
| CredentialRecovery.CleanRecoveryIsFinal | src/auth/credentials-flow.ts:31-64 | over all such attempts, with landings between and inside them, a completed attempt leaves the stores in agreement for good |
| CredentialRecovery.LateKeyWriteBreaksAgreement | src/auth/credentials-flow.ts:280-284 | a concrete run in which a key write of an abandoned attempt lands after the retry and undoes the agreement |
| CredentialRecovery.LateKeyWriteInsideRetry | src/auth/credentials-flow.ts:280-284 | the same write landing inside the retry, which then returns with the stores disagreeing |
| WebpAnimation.ParseWebpAnimation | src/client/media.ts:65-107 | the loop computes the recursive walk over whole chunks on every byte string, and its two defensive guards cannot fire |
| WebpAnimation.ChunkEndBounds | src/client/media.ts:96-99 | a chunk's end lies at least eight and at most 2^32 + 8 bytes on, at an even distance: padding never overflows and the offset always grows |
| WebpAnimation.ScannerExact | src/client/media.ts:65-107 | it reports an end if and only if the bytes up to there are a head and well-formed chunks of which the last, and no other, is a frame |
| WebpAnimation.RoundTripFrame | src/client/media.ts:65-107 | any serialized chunk list with a frame, followed by any bytes, is reported to end its first frame exactly where its serialization ends |
| WebpAnimation.RoundTripStill | src/client/media.ts:65-107 | a serialized chunk list without a frame is reported as not animated |
| WebpAnimation.RoundTripFile | src/client/media.ts:65-107 | both for whole files whose first chunk is a ten-byte VP8X, as RFC 9649 sections 2.3 and 2.7 prescribe |
| WebpAnimation.WalkDecomposes | src/client/media.ts:79-105 | the bytes the scanner walked over are the serialization of the chunks it saw |
| WebpAnimation.HeadExact | src/client/media.ts:44-53 | the answer on the first k bytes is the whole-file answer when the frame ends by k, and nothing otherwise, for every k |
| WebpAnimation.FoundFrameIsStable | src/client/media.ts:65-107 | an answer survives appended bytes and any cut at or after the frame's end, and no earlier cut |
| WebpAnimation.PathVersusBuffer | src/client/media.ts:564-573 | a path and a buffer of the same content get the same fields if and only if there is no frame or it ends within the bytes read; a path only ever misses frames |
| WebpAnimation.FrameBytes | src/client/media.ts:55-107 | in literal bytes: any head with "VP8X" in its place, then "ANMF" and four size bytes, end the first frame behind that many bytes and a padding byte when odd, if and only if the file holds them |
| WebpAnimation.NoVp8xNoFrame | src/client/media.ts:65-75 | a file under twenty bytes, or with other bytes in the place of "VP8X", has no frame |
| ByteOrder.ReadUint32LE | src/client/media.ts:90-95 | the shift, or and unsigned-shift expression is the base-256 value and stays below 2^32 |
| ByteOrder.LittleEndianInverseBytes | src/client/media.ts:90-95 | reading then writing a size gives its bytes back |
| PlaintextUpload.TempFiles.StreamToTempFileWithSha256 | src/client/media.ts:167-183 | on success one new file holds the whole stream with its length and digest; on failure no file is left, provided the removal works |
| PlaintextUpload.TempFiles.PreparePlaintextUploadSource | src/client/media.ts:194-219 | succeeds exactly for supported, readable sources that copy through; the body then holds the media |
| PlaintextUpload.PreparedExactly | src/client/media.ts:194-219 | which sources can be prepared and which make a file, fault by fault: a stream if and only if the file opens and no chunk meets the fault |
| PlaintextUpload.TempFiles.PerformPlaintextMediaUpload | src/client/media.ts:280-318 | for every source and every failing step the files on exit are those on entry, except exactly when one was made and could not be removed; every use of the body finds the complete media |
| AppstateIndex.DecodeIndexArgsFromSchema | src/appstate-spec.ts:124-156 | the loop computes the slot-by-slot decoding |
| AppstateIndex.DecodeFailsExactly | src/appstate-spec.ts:128-141 | decoding fails if and only if the length differs or a boolean slot is neither '0' nor '1' |
| AppstateIndex.DecodedArgsExactly | src/appstate-spec.ts:124-156 | every decoded argument, slot by slot: true for '1', null for a participant '0', other texts as they are |
| AppstateIndex.EnumSlotExactly | src/appstate-spec.ts:145-151 | an enum slot along a whole path: the first key of the object there that holds the number, else the raw text |
| AppstateIndex.LiteralsIgnored | src/appstate-spec.ts:135-137 | the text in literal slots never changes the result |
| AppstateIndex.BuildMutationIndexFromSchema | src/client/coordinators/WaAppStateMutationCoordinator.ts:75-135 | the loop builds the text of the tuple of slot texts, and throws exactly when some slot refuses its argument |
| AppstateIndex.BuildsExactly | src/client/coordinators/WaAppStateMutationCoordinator.ts:75-135 | the builder returns if and only if every argument is acceptable for its slot, and each part is then its argument's text |
| AppstateIndex.SlotRoundTrip | src/client/coordinators/WaAppStateMutationCoordinator.ts:81-133 | a slot's built text always decodes, to the given argument if and only if that argument is reproducible |
| AppstateIndex.BuildThenDecode | src/appstate-spec.ts:124-156 | for every schema with distinct names and all accepted arguments, decoding the built index succeeds, and gives the arguments back if and only if each is reproducible |
| AppstateIndex.BuildThenDecodeText | src/client/events/appstate-mutation.ts:14-25 | the same through the text that travels |
| IndexText.ReadsBackArray | src/client/events/appstate-mutation.ts:128-151 | every tuple of strings, controls, quotes and backslashes included, is read back from its text |
| IndexText.PlainText | src/client/events/appstate-mutation.ts:128-151 | texts without quotes, backslashes and controls stand in the index as they are |
| AppstateIndex.DocumentedThenDecode | spec/appstate/index.d.ts:13-32 | decoding the documented encoding gives the arguments back, with every participant written as '0' null, if and only if each other argument is reproducible |
| AppstateIndex.BuilderVersusDocumentation | spec/appstate/index.d.ts:163-189 | for a participant slot, builder and documentation agree if and only if a JID comes with fromMe not true and a null with fromMe true |
| AppstateIndex.ParticipantKeptBesideFromMe | src/client/coordinators/WaAppStateMutationCoordinator.ts:91-107 | a concrete index on which they differ |
| EnumLookup.ResolveEnumObject | src/appstate-spec.ts:97-108 | the loop follows a dotted path through objects, or finds nothing |
| EnumLookup.ResolveNested | src/appstate-spec.ts:97-108 | a dotted path resolves in two stages, the object at its front and the rest from there |
| EnumLookup.ResolveOne | src/appstate-spec.ts:97-108 | a name without a dot resolves to the object stored under it in the root, and to nothing when no object is |
| EnumLookup.ResolveExactly | src/appstate-spec.ts:97-108 | every path resolves to an object if and only if following its names from the root one by one arrives there |
| EnumLookup.EnumsAtPath | src/appstate-spec.ts:110-122 | decoding and encoding along a whole path: the first key with the number or nothing, the key's number or nothing |
| EnumLookup.UnknownNames | src/appstate-spec.ts:110-115 | a key the object does not hold, or any key behind a path without an object, encodes to nothing |
| EnumLookup.EncodeDecode | src/appstate-spec.ts:110-122 | encoding the name a number decodes to gives the number; decoding fails exactly when no key holds the number |
| EnumLookup.DecodeEncode | src/appstate-spec.ts:110-122 | decoding the number of a name gives the name if and only if the name is the first key with that number, reverse-mapping text entries notwithstanding |
| EnumLookup.DecodeEnumValue | src/appstate-spec.ts:117-122 | the loop finds the first key holding the number |
| EnumLookup.BuildActionNameIndex | src/appstate-spec.ts:77-80 | the loop's index agrees with a scan from the end of the table on every name |
| EnumLookup.LastMatchIs | src/appstate-spec.ts:77-80 | the scan gives the key of the row with the name that no later row overrides |
| EnumLookup.UniqueNamesInvert | src/appstate-spec.ts:77-83 | with distinct names the index inverts the table row by row |
| Text.SplitJoin | src/appstate-spec.ts:98 | splitting a join of separator-free parts gives the parts |
| Text.IntegerLiteralShow | src/appstate-spec.ts:146-149 | a decimal print is read back as the same integer |
| SyncKeys.PickActiveSyncKey | src/appstate/utils.ts:36-58 | the loop computes the fold |
| SyncKeys.PickedIsFirstOptimal | src/appstate/utils.ts:36-58 | the fold returns the first key that none beats and that beats all before it |
| SyncKeys.FirstOptimalUnique | src/appstate/utils.ts:36-58 | there is only one such position, so the previous row determines the result |
| SyncKeys.OptimalMeans | src/appstate/utils.ts:32-35 | it is a member with the largest epoch and, within that, the smallest device id |
| SyncKeys.PickConcat | src/appstate/utils.ts:36-58 | picking from two batches is picking between the picks of the batches |
| SyncKeys.OrderIrrelevant | src/appstate/utils.ts:36-58 | any permutation of the keys gives the same epoch and device |
| SyncKeys.EpochOrderIsLexicographic | src/appstate/utils.ts:26-30 | epochs compare as bytes 2 to 5 compare lexicographically |
| BinaryEncoder.EncodeBinaryNode | src/transport/binary/encoder.ts:363-367 | the bytes are the format's form of the node, or it throws exactly when a list or byte string of the tree is too long |
| BinaryEncoder.EncodeBinaryNodeStanza | src/transport/binary/encoder.ts:373-378 | the framed form: an uncompressed flag byte and the node |
| BinaryEncoder.WriteNodeInternal | src/transport/binary/encoder.ts:323-360 | appends exactly the node's form behind what the buffer held |
| BinaryEncoder.TryWriteJid | src/transport/binary/encoder.ts:248-305 | appends the address form exactly for the values that have one, and nothing for the others |
| BinaryEncoder.ParseDevice | src/transport/binary/encoder.ts:258-277 | the digit loop yields the number of a decimal text up to 255, and refuses every other text |
| BinaryEncoder.ClassifyPackedString | src/transport/binary/encoder.ts:102-123 | the one-pass classification agrees with the two alphabets, digits alone counting as nibbles |
| BinaryEncoder.WritePackedString | src/transport/binary/encoder.ts:144-161 | appends the token, the length with its odd flag, and two characters a byte |
| BinaryEncoder.WriteUtf8WithLength | src/transport/binary/encoder.ts:186-197 | writing a short text in place behind a length filled in later gives the same bytes as encoding it first |
| Utf8.Utf8IsBounded | src/transport/binary/encoder.ts:186-193 | UTF-8 meets the encoder's demand of at most three bytes a unit, pairs of units included |
| BinaryEncoder.ByteWriter.Ensure | src/transport/binary/encoder.ts:83-95 | growing by doubling makes room and keeps everything written |
| BinaryTokens.MergedTokenMap | src/transport/binary/constants.ts:81-100 | the merged lookup holds exactly the texts of all tables, each under a token that stands for it: the single-byte one, else that of the first dictionary holding the text |
| BinaryBytes.TokensWritten | src/transport/binary/encoder.ts:199-209 | a text with a single-byte token is written as its place counted from 1, any other in a dictionary as 236 and on for the first dictionary that holds it and its place there |
| BinaryBytes.TextsWritten | src/transport/binary/encoder.ts:211-222 | a text without a token is 255 or 251, its length byte and two characters a byte if and only if it has 1 to 127 characters of one alphabet, digits alone taking 255, and otherwise its bytes behind the shortest length |
| BinaryBytes.DigitsWritten | src/transport/binary/encoder.ts:211-215 | a short text of digits opens with 255 |
| BinaryBytes.HeadersWritten | src/transport/binary/encoder.ts:163-184 | the bytes of every list size (248, 249) and of every byte-string length (252, 253, 254) |
| BinaryBytes.ContentWritten | src/transport/binary/encoder.ts:341-359 | text content is always a byte string with the shortest length, never a token or packed |
| BinaryBytes.DeviceAddressWritten | src/transport/binary/encoder.ts:257-304 | the bytes of every value `user:digits@server`: 247, the domain byte, the device and the user on the four device servers, 250 without the device otherwise, and a text when the digits are no byte |
| BinaryBytes.DeviceWritten | src/transport/binary/encoder.ts:278-295 | for every user and every device from 1 to 255, the domain byte is 0, 1, 0x80 or 0x81 |
| BinaryBytes.PairWritten | src/transport/binary/encoder.ts:297-304 | `user@server` is 250, the user and the server |
| BinaryBytes.OthersWritten | src/transport/binary/encoder.ts:249-255 | a value with no '@', with one at either end, or with two is written as a text |
| BinaryBytes.SmallStanza | src/transport/binary/encoder.ts:373-378 | one whole stanza with a device address, both packed alphabets, tokens and a child, byte by byte |
| BinaryDecoder.DecodeBinaryNode | src/transport/binary/decoder.ts:312-315 | on every byte string it ends, and returns or throws as the format's reading does |
| BinaryDecoder.DecodeBinaryNodeStanza | src/transport/binary/decoder.ts:334-345 | a lone end marker and an empty stanza throw, a compressed body is inflated first, anything else is read as a node |
| BinaryDecoder.DecodeNodeInternal | src/transport/binary/decoder.ts:243-309 | reads one node from the offset on, leaving the offset at its end |
| BinaryDecoder.DecodeValue | src/transport/binary/decoder.ts:212-241 | reads any value, all four address forms included |
| BinaryDecoder.ParsePacked | src/transport/binary/decoder.ts:102-117 | the table-driven loop unpacks two characters a byte and drops the padding of an odd length |
| BinaryDecoder.ByteReader.ReadUint32 | src/transport/binary/decoder.ts:58-67 | the shift expression is the big-endian value |
| BinaryForms.ReaderExact | src/transport/binary/decoder.ts:243-309 | on every byte string: the reader returns if and only if the bytes open with a node of the wire grammar, and it returns what that node means, all token, packed, address and length forms included |
| BinaryExact.NodeReads | src/transport/binary/decoder.ts:243-309 | any node form, at any position, is read as its meaning, and the reader stops at its end |
| BinaryForms.AcceptedNode | src/transport/binary/decoder.ts:243-309 | whatever the reader accepts is the bytes of a well-formed node |
| BinaryExact.ContentReads | src/transport/binary/decoder.ts:280-302 | content in each of its forms: nothing, a byte string as its bytes, any other value as the bytes of its text, a list as its nodes |
| BinaryExact.AssignedNext | src/transport/binary/decoder.ts:265-278 | attributes are assigned one by one: every name once, where it first stood, with its last value |
| BinaryExact.TextReads | src/transport/binary/decoder.ts:134-162 | every text form is read as its meaning: token tables, packed symbols, byte strings of each length form |
| BinaryContent.StringAsContent | src/transport/binary/decoder.ts:292-300 | content written as a token, a packed string or a byte string is read as the bytes of that string, up to its end |
| BinaryContent.AddressAsContent | src/transport/binary/decoder.ts:292-300 | content written as an address is read as the bytes of the address as read |
| BinaryContent.InteropAddress | src/transport/binary/decoder.ts:197-203 | 245, a user, a device, an integrator and a server, in literal bytes, give the address with each part in its place, as a value and as content |
| BinaryContent.MessengerAddress | src/transport/binary/decoder.ts:205-210 | 246, a user, a device and a server, likewise |
| BinaryRoundTrip.StringReadsBack | src/transport/binary/encoder.ts:199-222 | a written string is read back at any position, token and packed strings as they were, others through the text encoding |
| BinaryRoundTrip.ValueReadsBack | src/transport/binary/encoder.ts:248-305 | a written attribute value is read back as its address form says |
| BinaryRoundTrip.UnpackPack | src/transport/binary/encoder.ts:144-161 | unpacking packed characters gives them back |
| BinaryRoundTrip.NodeReadsBack | src/transport/binary/decoder.ts:243-309 | for every node the encoder accepts, at any position and before any bytes, reading returns the node as read and stops at the end of its encoding, or throws if and only if some tag reads as empty |
| BinaryPrefix.NodeCut | src/transport/binary/decoder.ts:243-309 | on any bytes, cut anywhere: the first k bytes give the node of all bytes when it ends by k, and throw otherwise |
| BinaryCodec.DecodeEncode | src/transport/binary/decoder.ts:312-315 | decoding an encoding with anything behind it |
| BinaryCodec.TruncatedThrows | src/transport/binary/decoder.ts:80-84 | an encoded node cut short anywhere is refused |
| BinaryCodec.PrefixFree | src/transport/binary/encoder.ts:363-367 | one node's encoding opens another's only if they are the same bytes and read as the same node |
| BinaryCodec.ValueExact | src/transport/binary/encoder.ts:248-305 | an attribute value survives the round trip if and only if it is no address, or one without a device, or one with a device without leading zeros behind a user on a device server |
| BinaryCodec.GroupDeviceDropped | src/transport/binary/encoder.ts:289-304 | a concrete address that loses its device |
| BinaryCodec.DeviceTextExact | src/transport/binary/decoder.ts:191-194 | a device number prints as it was written if and only if it has no leading zero |
| BinaryCodec.AttrsExact | src/transport/binary/decoder.ts:268-279 | attributes come back in place if and only if each name and value survives |
| BinaryCodec.NodeExact | src/transport/binary/decoder.ts:243-309 | a tree comes back as it was, texts as bytes, if and only if every tag, name and value of it survives |
| BinaryReencode.NodeExactByAddress | src/transport/binary/decoder.ts:243-309 | for strings that survive the text encoding, if and only if every attribute value is no address, or one with no device or a plain device |
| BinaryCodec.FaithfulReencodes | src/transport/binary/__tests__/codec-golden.test.ts:47-53 | every node that comes back as it was encodes again to the same bytes |
| BinaryReencode.ReencodingIsIdentical | src/transport/binary/__tests__/codec-golden.test.ts:47-53 | for every node whose strings survive the text encoding, decoding and encoding again gives the same bytes if and only if no attribute value is an address without a user; each one costs two bytes, and the encoder accepts the decoded node |
| BinaryReencode.ValueReencodes | src/transport/binary/encoder.ts:248-305 | a value read back encodes to its own bytes, lost devices and zeros notwithstanding, except an address without a user |
| BinaryReencode.EmptyUserDropped | src/transport/binary/encoder.ts:292-304 | a concrete address of which only the server comes back |
| BinaryCodec.StanzaRoundTrip | src/transport/binary/decoder.ts:334-345 | a stanza survives framing, plain or compressed |
| BinaryCodec.StanzaFlags | src/transport/binary/decoder.ts:334-345 | for every flag byte and body, the second-lowest bit alone decides whether the body is inflated; an empty stanza and a bare end marker are refused |
| SampleFeed.AudioStream.OnData | examples/voip-example.ts:303-311 | the handler feeds the whole samples of kept bytes and chunk, and keeps the rest |
| SampleFeed.FeedIsGrouping | examples/voip-example.ts:300-311 | for every split into chunks the fed samples are the four-byte groups of the whole stream |
| SampleFeed.ChunkingIrrelevant | examples/voip-example.ts:300-311 | two splits of the same bytes feed the same samples and keep the same rest |
| SampleFeed.FeedConserves | examples/voip-example.ts:300-311 | fed samples and kept bytes together are the stream, and less than a sample is kept |
| CallRecording.Recorder.RecordInbound | examples/voip-example.ts:161-179 | refines the model's step for a frame and keeps the records consistent |
| CallRecording.Recorder.FlushRecording | examples/voip-example.ts:181-197 | removes the record and writes its frames in order to the file of the call, or nothing when it holds no sample |
| CallRecording.Recorder.FillBuffer | examples/voip-example.ts:188-193 | the buffer sized from the sample count is filled exactly, no frame reaching past its end |
| CallRecording.RunConsistent | examples/voip-example.ts:159-179 | in every run each sample count is the sum of its frame lengths and was below the cap before the last frame |
| CallRecording.RecordingConserves | examples/voip-example.ts:159-197 | over every interleaving of frames and flushes, what a call's flushes output followed by what it buffers is its accepted audio in order |
| CallRecording.KeptAndSavedExactly | examples/voip-example.ts:159-197 | in every run a frame is kept if and only if fewer than 9600000 samples are buffered for its call, a flush saves exactly what is buffered, and other calls are untouched |
| CallRecording.FileIsLastFlush | examples/voip-example.ts:194-196 | in every run a call's file holds its last flush that had audio |
| CallRecording.FileConservesExactly | examples/voip-example.ts:194-196 | file and buffer are the accepted audio if and only if the call was flushed with audio at most once |
| CallRecording.RunBounded | examples/voip-example.ts:43-45 | buffered and saved recordings exceed the cap by less than one frame |
| CallRecording.SavedFileReadsBack | examples/voip-example.ts:181-229 | with that bound no size field wraps: every saved file reads back as the quantised recording |
| WavEncoder.EncodeWav | examples/voip-example.ts:200-229 | the buffer written is the header and the samples of the file form, byte for byte |
| WavEncoder.WavRoundTrip | examples/voip-example.ts:200-229 | a strict reader gets back the rate and the quantised samples if and only if the 32-bit size and byte-rate fields do not wrap |
| WavEncoder.ParsedIsWritten | examples/voip-example.ts:200-229 | every file the reader accepts is, byte for byte, what the encoder writes for the audio it plays |
| WavEncoder.HeaderBytes | examples/voip-example.ts:209-221 | the header of every file in literal bytes: identifiers, sizes and format fields |
| WavEncoder.SmallFile | examples/voip-example.ts:200-229 | one whole file, byte by byte |
| WavEncoder.QuantizeRange | examples/voip-example.ts:224-225 | every sample fits sixteen bits |
| WavEncoder.QuantizeMonotone | examples/voip-example.ts:224-225 | quantisation never reverses the order of two samples |
| WavEncoder.QuantizeError | examples/voip-example.ts:224-225 | the played amplitude is within one step of the clamped sample and never louder |
| WavEncoder.QuantizeAmplitude | examples/voip-example.ts:224-225 | playing a stored sample and encoding it again stores the same sample |
| WavEncoder.QuantizeScale | examples/voip-example.ts:224-225 | full scale is 32767 up and 32768 down, and anything beyond is cut to it |
| AutoAccept.AutoAcceptor.TryAutoAccept | examples/voip-example.ts:425-435 | an accept starts exactly when enabled, possible and not attempted, and is then recorded as attempted |
| AutoAccept.AcceptStartsExactly | examples/voip-example.ts:424-459 | an event starts an accept if and only if the option is on, it is one of the two that can accept that call, and none is outstanding or done |
| AutoAccept.DisabledNeverAccepts | examples/voip-example.ts:425-427 | with the option off no run ever starts an accept |
| AutoAccept.AcceptOutcomes | examples/voip-example.ts:428-434 | a successful accept is not repeated while the call lasts, a failed one may be tried again |
| AutoAccept.OtherCallsUntouched | examples/voip-example.ts:424-459 | events of one call leave every other call as it was |
| AutoAccept.AtMostOneAccept | examples/voip-example.ts:424-459 | while no end finds an accept outstanding, a call has at most one accept outstanding or done, and the shared set says exactly whether it has one |
| AutoAccept.LiveCallsEndSettled | examples/voip-example.ts:424-459 | a call that has not ended has at most one accept outstanding, and none after a success, in every interleaving |
| AutoAccept.EndWithOutstandingAccept | examples/voip-example.ts:472-477 | after an end, until the next one, no continuation gives the call two outstanding accepts if and only if none was outstanding at that end |
| AutoAccept.LateFailureReopens | examples/voip-example.ts:431-433 | a leftover accept that fails lets another one start beside the second |

## Left out

- AuthClient.AuthStore.SettleOldest: that the store settles its writes first in, first out is an assumption about the store; `AuthStoreOrder` says what remains without it.
- AuthClient.WaAuthClient.PatchCredentials: the result is what the call resolves to once its write has settled well; the rejection of a failed write reaches the caller later and changes nothing.
- CredentialLoad.Stores.LoadOrCreateCredentials: loading is taken to finish before any patch starts, as src/auth/WaAuthClient.ts:159-162 requires of callers.
- CredentialLoad.Stores.CreateAndStoreInitialKeys: writes left running may land in any order, also the key writes of one attempt, which the source keeps in order; two overlapping loads are not modelled.
- CredentialRecovery.CleanRecoveryIsFinal: that freshly made credentials pass the signature check is an assumption on the cryptography; whether a check passes depends on the credentials alone.
- CommsConfig.OnePayload: proxies, timeouts, device strings, the trusted root and the encoding of the mobile payload are not modelled; whether they fail is a parameter.
- WavEncoder.QuantizeError: samples are exact reals; the rounding of 32-bit floats and NaN samples are not modelled.
- IndexText.ReadsBackArray: the reader is one for arrays of strings without white space, as the builder writes them; numbers and booleans turned to text, surrogate escapes and other JSON values are not modelled.
- AppstateIndex.DecodeIndexArgsFromSchema: what the language's number conversion gives for text that is not a plain decimal integer is a parameter, and enum numbers are mathematical integers.
- EnumLookup.ResolveEnumObject: properties inherited through the prototype chain are not modelled, and an enum tree is a finite value.
- EnumLookup.BuildActionNameIndex: the null answer of `getAppstateSchemaByActionName` for an unknown or empty key is a single branch and not modelled.
- PlaintextUpload.TempFiles.StreamToTempFileWithSha256: temporary names are taken to be new; a collision of the random name is not modelled, nor are file descriptors left open by an unread stream.
- CallRecording.Recorder.FlushRecording: a file is written at the moment of the flush; failing writes, and two writes to one file finishing out of order, are not modelled; frames are values, so a frame changed by its producer after it was recorded is not.
- BinaryRoundTrip.StringReadsBack: the text encoding is a parameter, bounded by three bytes a unit where the encoder relies on it; strings are sequences of Unicode scalar values, so lone surrogates cannot occur, and which texts decoding gives back (not those with a leading byte-order mark) is not modelled.
- BinaryTokens.MergedTokenMap: the token texts themselves are parameters; the shipped tables have 235 single-byte tokens and four dictionaries of 256, within the limits assumed.
- BinaryDecoder.DecodeNodeInternal: an attribute named `__proto__`, the order in which objects list integer-like names, and the depth of the call stack are not modelled.
- BinaryCodec.StanzaRoundTrip: decompression is a parameter.
- SampleFeed.AudioStream.OnData: pausing and resuming the decoder by buffer level is not modelled.
- Pairing flows other than the rotation of the secret, QR and passkey flows, the server connection, events and logging: input and output around the state modelled here.
- Signatures, key generation and digests: parameters of the models.
- The other `should*` guards, URL building and constant tables of src/client/media.ts: facts of a single branch.
