# Mindwtr: verified models

Dafny models of the parts of Mindwtr where a small slip loses or publishes something: the native Android host's codecs
and call table, the Google Play release scripts, the cloud server's attachment storage and document cache, and a few
schedulers and searches. Loops and objects that change in place are methods and classes proved against specification
functions; protocols are state machines whose theorems range over every run.

- `Utf8`, `TextCodec`, `Base64`, `UrlParams`: the host's hand-written codecs against RFC 3629 section 4, the WHATWG
  Encoding Standard section 8.1, RFC 4648 and the WHATWG URL Standard sections 5.1 and 5.2.
- `GraphClone`: the cycle-safe graph clone over a heap of objects.
- `HostCalls`: the open-call table behind fetch, secrets and file calls, with the host's answer queue.
- `PlayServer`, `PlayRollout`, `PlayPublish`, `PlaySafety`: Google Play edits, rollout control, publication, and the
  production track over any run of both.
- `AttachmentPaths`, `AttachmentGc`, `AttachmentGcReport`, `AttachmentPurge`, `Capture`: attachment keys, the orphan
  collector and its report, project purges, and captures that write a file and a document non-atomically.
- `Lru`, `DataCache`: the bounded caches guarded by stat identity.
- `AutomationStore`, `WidgetPublisher`, `Jpeg`, `AuditGraph`: the profile hand-off of the shared store, the throttled
  widget publisher, the JPEG marker scan, and the audit search.

`Wrappers` and `Seqs` hold an option, a result and a few facts about sequences.

## Where the code does less than its own words

Each of these is a lemma or method with a concrete case beside the exact condition under which the code does meet the claim.

- The graph clone throws on an object that is its own prototype by an own `__proto__` property, directly or round a cycle
  (`GraphClone.CyclicPrototypeThrows`; exactly then, `GraphClone.StructuredClone`). Any other own property of a plain object
  named `__proto__` it loses, because assigning it sets the prototype (`GraphClone.OwnProtoIsLost`; exactly then,
  `GraphClone.CloneIsIsomorphicIff`).
- A file call whose answered body is not whole base64 throws inside its `settle`; the pump logs it and the promise never
  settles, where the comment says a failure rejects. A fetch catches the same error and rejects
  (`HostCalls.UnreadableFileBodyNeverSettles`, `HostCalls.AnswerSettlesIff`).
- A commit that Play answers with an error status is reported as a plain failure, not as an unknown outcome. If Play applied
  it all the same, the committed store did change (`PlayPublish.RefusedCommitGoesLive`; exactly then,
  `PlayPublish.PublishRelease` and `PlayRollout.ControlRollout`).
- When the opening of an edit is not answered, no deletion is asked for, although Play may have opened it
  (`PlayPublish.LostOpeningLeavesEdit`; exactly then, `PlayPublish.PublishRelease`).
- A folder the orphan collector cannot read throws out of the whole walk, past the trailing syncs that its comment says are
  always attempted (`AttachmentGc.UnreadableFolderLosesSync`; exactly then, `AttachmentGc.ThrewIffUnreadable`; exactly
  those, `AttachmentGc.ThrowLeavesUnsynced`).
- An operation of the automation services awaits a flush before it answers, but the failure of the queue's own timer is only
  logged: when that has given up the newest snapshot by then, the operation succeeds with its edit neither saved nor queued
  (`AutomationStore.TimerLosesEdit`; exactly then, `AutomationStore.SuccessSavesIff`).
- `loadAppData` caches a fresh document under the identity of an unreadable one, so that `loadAppDataForWrite`, whose comment
  says a hit proves the file parsed, then answers writers with an empty document (`DataCache.UnreadableTurnsEmpty`; exactly
  when, `DataCache.Server.Load`). Only the server's tests call `loadAppData`: its routes load through
  `loadAppDataOrError` and `loadAppDataForWrite`, for which `DataCache.Run` needs no such exception.

## Model

| member | source | states |
|---|---|---|
| TextCodec.Encode | apps/android-native/bundle/host-polyfills.js:163-184 | The encoder's loop yields the UTF-8 of the text's scalars, each lone surrogate read as U+FFFD. |
| TextCodec.TextDecoder.Decode | apps/android-native/bundle/host-polyfills.js:195-258 | The decoder's byte automaton: a fatal one fails exactly on text that is not well-formed UTF-8 (RFC 3629 section 4), and otherwise yields the UTF-16 of the scalars of the lossy decoding; it ends although it reads a byte twice. |
| TextCodec.TextDecoder.constructor | apps/android-native/bundle/host-polyfills.js:191-194 | A decoder is fatal unless made with `fatal: false`; the platform's default is the other way round. |
| TextCodec.Consume | apps/android-native/bundle/host-polyfills.js:211-254 | One turn of the automaton, from any reachable state, leaves the same lossy decoding of what is still to come. |
| Utf8.CompleteIsChar | apps/android-native/bundle/host-polyfills.js:213-248 | The lead byte's `needed`, `lower` and `upper` admit exactly the characters of the ABNF of RFC 3629 section 4. |
| Utf8.CharsAreScalars | apps/android-native/bundle/host-polyfills.js:178-181 | The byte strings of that ABNF are exactly the encodings of the scalar values: no overlong form, surrogate or value past U+10FFFF. |
| Utf8.BytesOfIsChar | apps/android-native/bundle/host-polyfills.js:178-181 | Every scalar's encoding is one such character and decodes to the scalar. |
| Utf8.ScalarOfBytes | apps/android-native/bundle/host-polyfills.js:242-246 | Every such character is the encoding of the scalar it decodes to. |
| Utf8.ReplacedSubpartIsMaximal | apps/android-native/bundle/host-polyfills.js:230-238 | Where no character is whole, one U+FFFD stands for one maximal subpart of the ill-formed sequence, and decoding goes on right after it: no longer prefix begins a character. |
| Utf8.WellFormedIsEncoded | apps/android-native/bundle/host-polyfills.js:195-258 | Bytes are well-formed exactly when re-encoding their decoding gives them back. |
| Utf8.Utf16IsWellFormed | apps/android-native/bundle/host-polyfills.js:245-246 | The decoder's output never holds a lone surrogate. |
| Utf8.OnlyEmptyDecodesEmpty | apps/android-native/bundle/host-polyfills.js:186-189 | No non-empty input decodes to empty text. |
| Utf8.EncodedStringDecodes | apps/android-native/bundle/host-polyfills.js:163-258 | Decoding an encoded string returns it with each lone surrogate replaced by U+FFFD. |
| Utf8.DecodedTextEncodesBack | apps/android-native/bundle/host-polyfills.js:163-258 | Encoding the text a non-fatal decoder makes of bytes gives the bytes back exactly when they are well-formed. |
| Utf8.EncodedTextKeepsOrder | apps/android-native/bundle/host-polyfills.js:163-184 | Encoded texts sort bytewise exactly as their scalars do, which with the grammar fixes every byte of every encoding. |
| Utf8.DecodedTextKeepsOrder | apps/android-native/bundle/host-polyfills.js:195-258 | Well-formed bytes decode in their order. |
| Utf8.UnitsKeepOrder | apps/android-native/bundle/host-polyfills.js:245-246 | A scalar below U+10000 is its own unit, and those above have surrogate pairs in their order. |
| Utf8.EncodedPairsKeepOrder | apps/android-native/bundle/host-polyfills.js:173-181 | Surrogate pairs in order encode to four-byte sequences in order: the high half carries the high bits. |
| Utf8.DecodedPairsKeepOrder | apps/android-native/bundle/host-polyfills.js:239-246 | Four-byte sequences in order decode to surrogate pairs in order. |
| Utf8.Example | apps/android-native/bundle/host-polyfills.js:163-258 | U+233B4 is D84C DFB4 and F0 A3 8E B4, in both directions (RFC 3629 section 7). |
| Base64.ToBase64 | apps/android-native/bundle/host-polyfills.js:483-494 | The printer yields the RFC 4648 section 4 encoding. |
| Base64.FromBase64 | apps/android-native/bundle/host-polyfills.js:496-525 | The parser returns exactly on whole base64 texts, and then their decoding, written in place without running past the buffer; every other text is unreadable. |
| Base64.EncodedDecodes | apps/android-native/bundle/host-polyfills.js:483-525 | Every byte string's encoding is whole, decodes to the bytes, and its decoding has 3/4 of its length less its padding. |
| Base64.DecodedEncodes | apps/android-native/bundle/host-polyfills.js:496-525 | Re-encoding a decoded text returns the text exactly when its spare bits are zero (RFC 4648 section 3.5). |
| Base64.AlphabetIs | apps/android-native/bundle/host-polyfills.js:481-481 | The letters, by value, are those of table 1 of RFC 4648. |
| Base64.EncodedGroupAt | apps/android-native/bundle/host-polyfills.js:483-494 | Each four letters spell in base 64 the number that their three bytes spell in base 256, with one pad for each byte missing. |
| Base64.DecodedGroupAt | apps/android-native/bundle/host-polyfills.js:496-525 | Each four letters of a whole text are read as the whole bytes of the number they spell, spare bits dropped. |
| UrlParams.Parse | apps/android-native/bundle/host-polyfills.js:413-422 | The parser's loop yields the pairs of the query, skipping empty parts, or fails where decodeURIComponent does. |
| UrlParams.DecodesIff | apps/android-native/bundle/host-polyfills.js:412-412 | decodeURIComponent by its grammar: a text decodes exactly when it is characters other than the percent sign and escapes, in digits of either case, of whole UTF-8 sequences, and to just those. |
| UrlParams.PlusIsSpace | apps/android-native/bundle/host-polyfills.js:412-412 | A plus sign is read as a space, everything else as it is. |
| UrlParams.PartsOfQuery | apps/android-native/bundle/host-polyfills.js:416-422 | The parts between ampersands give their pairs in turn, an empty part none; one that does not decode fails the whole. |
| UrlParams.PartIsPair | apps/android-native/bundle/host-polyfills.js:418-421 | The first equals sign ends the name; a part without one is a name with no value. |
| UrlParams.PrintsBytes | apps/android-native/bundle/host-polyfills.js:467-471 | A name or value is printed byte by byte: unreserved characters as they are, a space as a plus sign, other bytes escaped in capitals. |
| UrlParams.QueryRoundTrip | apps/android-native/bundle/host-polyfills.js:412-467 | A name or value prints exactly when it has no lone surrogate, and its print decodes to it, with + and space told apart. |
| UrlParams.PairRoundTrip | apps/android-native/bundle/host-polyfills.js:412-471 | A pair's print holds no separator, starts with no question mark, is never empty and parses to the pair. |
| UrlParams.PrintedParses | apps/android-native/bundle/host-polyfills.js:410-472 | Printing fails only on a lone surrogate, and a printed list parses to the same pairs in order, duplicates kept. |
| UrlParams.QueryStringRoundTrip | apps/android-native/bundle/host-polyfills.js:410-472 | The same with or without a leading question mark put before the query. |
| GraphClone.StructuredClone | apps/android-native/bundle/host-polyfills.js:263-295 | On any finite graph with cycles and sharing the clone ends. It throws exactly when the own `__proto__` references of what is reachable go round in a cycle; otherwise exactly the reachable nodes are copied, each once, into fresh nodes. The input is untouched. |
| GraphClone.Cloner.Clone | apps/android-native/bundle/host-polyfills.js:266-293 | The recursion over the `seen` map: what was begun stays begun, everything a finished copy refers to has a copy, and it throws only on a graph with such a cycle. |
| GraphClone.Node.Put | apps/android-native/bundle/host-polyfills.js:273-291 | Pushing, Map.set, Set.add or assigning a property; assigning `__proto__` sets the prototype instead, and throws exactly when the new prototype is the object or has it above. |
| GraphClone.RefusedIffLooped | apps/android-native/bundle/host-polyfills.js:291-291 | A copy's prototype is refused exactly when the references linked so far lead back to its node. |
| GraphClone.FinishedHasNoCycle | apps/android-native/bundle/host-polyfills.js:266-293 | Whatever order the graph is walked in, a cycle of own `__proto__` references cannot be copied to the end. |
| GraphClone.CyclicPrototypeThrows | apps/android-native/bundle/host-polyfills.js:291-291 | A concrete object whose own `__proto__` is itself makes the clone throw. |
| GraphClone.CloneIsIsomorphicIff | apps/android-native/bundle/host-polyfills.js:263-295 | The clone is isomorphic to the input exactly when no reachable plain object owns a property named `__proto__`. |
| GraphClone.CopiedItemByItem | apps/android-native/bundle/host-polyfills.js:266-293 | A finished copy has, in order, each item with primitives themselves and references the copies of what they refer to; all but an own `__proto__`, in whose place an object or null is the prototype and anything else nothing. |
| GraphClone.OwnProtoIsLost | apps/android-native/bundle/host-polyfills.js:291-291 | A concrete object whose own `__proto__` property its clone does not have. |
| HostCalls.Calls.Call | apps/android-native/bundle/host-polyfills.js:63-67 | Starting a call: numbered, counted and entered in the table, unless refused or thrown out by the host. |
| HostCalls.Calls.Settle | apps/android-native/bundle/host-polyfills.js:679-750 | What each channel makes of each answer, case by case: one outcome, or none when a file call's body cannot be read. |
| HostCalls.Calls.PumpIo | apps/android-native/bundle/host-polyfills.js:68-86 | The pump is the run of its turns, for any place a host call throws, and counts the table entries it settled. |
| HostCalls.Calls.CancelHostCalls | apps/android-native/bundle/host-polyfills.js:93-96 | The deadline: new calls are refused and every cancellable call leaves the table rejected once, in any order. |
| HostCalls.Calls.Abort | apps/android-native/bundle/host-polyfills.js:672-678 | A fetch's abort listener rejects it once and takes it out of the table. |
| HostCalls.HostIo.Next | apps/android-native/android/app/src/main/java/tech/dongdongbh/mindwtr/pilot/core/HostIo.kt:215-221 | The host's next answer leaves its queue; its body, or none, replaces what was waiting. |
| HostCalls.StepKeeps | apps/android-native/bundle/host-polyfills.js:59-97 | Every event keeps the invariant: counts agree, calls are answered once, and a call in the table has no outcome. |
| HostCalls.EveryRunCounts | apps/android-native/bundle/host-polyfills.js:59-97 | Over every interleaving each promise settles at most once, both sides' open counts are the calls started minus the answers taken, and a call out of the table before its answer was cancelled. |
| HostCalls.BodyIsOwn | apps/android-native/bundle/host-polyfills.js:76-82 | Bytes reach a promise only from its own call's answer, whole, although cancelled calls' bodies are skipped and body reads may throw. |
| HostCalls.OutOfTheTableIsFinal | apps/android-native/bundle/host-polyfills.js:78-82 | Once a call has left the table its outcome never changes: a late answer settles nothing. |
| HostCalls.CancelledStaysRejected | apps/android-native/bundle/host-polyfills.js:672-677 | Whatever follows a cancel, the promise has the one rejection. |
| HostCalls.AnswerSettlesIff | apps/android-native/bundle/host-polyfills.js:735-753 | An answer to a call in the table settles it for good exactly when it is not a file call's unreadable body, whose promise never settles. |
| HostCalls.AnswerOutcome | apps/android-native/bundle/host-polyfills.js:679-750 | What a call in the table has for good once its answer is taken: an error rejects on every channel; a value resolves a file call and a read secret with it, a written or deleted secret with none; a fetch resolves exactly on a whole body with valid headers, with its bytes; a file call's whole body resolves with its bytes. |
| HostCalls.StartsIff | apps/android-native/bundle/host-polyfills.js:59-67 | A call starts exactly unless the host throws or, past the deadline, it is a fetch, a file call or a secret other than sync's; and is then one more under a new number. |
| HostCalls.UnreadableFileBodyNeverSettles | apps/android-native/bundle/host-polyfills.js:735-753 | A file call answered with the one-unit body `A` leaves the table and, whatever follows, its promise never settles. |
| HostCalls.PumpTakesEveryAnswer | apps/android-native/bundle/host-polyfills.js:68-86 | A pump the host does not fail leaves no answer waiting and no answered call in the table. |
| HostCalls.DeadlineDrains | apps/android-native/bundle/host-polyfills.js:87-97 | From the deadline's cancel to the resume only secret calls are in the table. |
| HostCalls.PumpIsRun | apps/android-native/bundle/host-polyfills.js:68-86 | A pump is a run of turns, so what holds over runs holds over pumps. |
| PlayServer.Play.Commit | scripts/ci/google-play-edit.py:471-479 | A commit is confirmed, refused or unknown; only then may the committed store change, and only to the edit. |
| PlayServer.PutKeepsOthers | scripts/ci/google-play-edit.py:732-735 | A track update replaces the release with its codes in place and keeps every other. |
| PlayServer.PutAdds | scripts/ci/google-play-edit.py:899-906 | A track update with new codes adds its release after the others. |
| PlayRollout.FindTarget | scripts/ci/google-play-edit.py:534-618 | The two scans find a target exactly when one release alone holds exactly the track's highest code, and it is the one asked for. |
| PlayRollout.ControlRollout | scripts/ci/google-play-edit.py:482-756 | For every list of faults, the exact outcome and the exact committed store: at most one commit, the fourth request, of the decided change only. It answers a change as done exactly when all four requests are answered, and as unknown exactly when the commit's answer is unreadable or lost. It fails with a changed store exactly when it decides on a change, the first three requests are answered and Play applies the commit it answers with an error status. Its failure asks for its edit's deletion. |
| PlayRollout.ChangeIsChange | scripts/ci/google-play-edit.py:657-735 | A decided change is never the track as it was. |
| PlayRollout.ReadMaxVersionCode | scripts/ci/google-play-edit.py:411-448 | The answer is the highest code any track's release holds, 0 when none does; nothing is committed and the edit is deleted once. |
| PlaySafety.ChangeTargetsHighest | scripts/ci/google-play-edit.py:575-735 | Every decided change puts one release in its old place: the only one holding exactly the highest code, its users never fewer; an automatic one was in progress. |
| PlaySafety.ControlKeeps | scripts/ci/google-play-edit.py:657-733 | A rollout change keeps the production track sound. |
| PlaySafety.PublishKeeps | scripts/ci/google-play-edit.py:759-819 | A publication keeps the production track sound, the staged check rejecting what would not. |
| PlaySafety.RunIsSafe | scripts/ci/google-play-edit.py:482-920 | From an empty track, over every run of built plans and rollout actions, at most one release is in progress, none while the newest is halted, fractions stay strictly between 0 and 1 and never decrease, and completed is never left. |
| PlaySafety.RunScripts | scripts/ci/google-play-edit.py:482-920 | The two scripts, run in any sequence against Play whatever their requests meet, make only such runs. |
| PlaySafety.StatusReports | scripts/ci/google-play-edit.py:619-656 | A status call reports exactly the newest release, its code, status and, unfinished, its percentage, and refuses any other code. |
| PlaySafety.HaltThenResume | scripts/ci/google-play-edit.py:712-723 | Halting the newest release in progress keeps its fraction, and resuming it gives the track back as it was. |
| PlaySafety.IncreaseExactly | scripts/ci/google-play-edit.py:701-711 | An increase commits exactly on a newest release in progress below the percentage, and sets only that fraction. |
| PlaySafety.FinalizeEnds | scripts/ci/google-play-edit.py:724-735 | Finalizing completes a newest release in progress or halted, and no action changes the track after it. |
| PlaySafety.AutoSchedule | scripts/ci/google-play-edit.py:684-704 | Automatic runs alone take the newest release from 5% to exactly 20%, exactly 50% and completion, and then never commit again. |
| PlaySafety.AutoCommitsIff | scripts/ci/google-play-edit.py:657-704 | On a sound track an automatic run commits exactly when the newest release is in progress within the tolerance of 5%, 20% or 50%; never on a halted one. |
| PlayPublish.ResolveTracks | scripts/ci/android-play-release-plan.py:42-79 | The exact answer: the names asked for once each in order, production when nothing is set, internal for the internal test, none for none, the three stable tracks for production and a stable tag; refused exactly on a bad name, nothing named, or none or production beside others. |
| PlayPublish.UniqueInOrder | scripts/ci/android-play-release-plan.py:124-124 | Of two tracks, the one asked for first comes first. |
| PlayPublish.BuildTracks | scripts/ci/android-play-release-plan.py:111-183 | A plan is built exactly for these arguments; each track has its release name; production comes only in a stable plan, staged at the fraction asked for or complete, and no track twice. |
| PlayPublish.BuiltIsValid | scripts/ci/android-play-release-plan.py:147-172 | What is built is what the publisher's own validation accepts. |
| PlayPublish.ValidateStagedProduction | scripts/ci/google-play-edit.py:759-819 | The check passes exactly when every production code is below the expected one and every release is completed or halted. |
| PlayPublish.PublishAssets | scripts/ci/google-play-edit.py:867-884 | The upload loop leaves each image group of the plan holding exactly the plan's assets in plan order, every other group as it was. |
| PlayPublish.PathsInOrder | scripts/ci/google-play-edit.py:867-884 | A group's paths are its assets' own, one after the other in plan order. |
| PlayPublish.PublishListings | scripts/ci/google-play-edit.py:886-892 | The listings of the plan and no others are put. |
| PlayPublish.PublishTracks | scripts/ci/google-play-edit.py:894-907 | Every track of the plan has the one release of the uploaded code put, every other track is as it was. |
| PlayPublish.PublishedOnTrack | scripts/ci/google-play-edit.py:894-907 | Each track of a published plan holds, after its releases as they were, one of the uploaded code alone with the plan's own name, status and fraction. |
| PlayPublish.PublishBuilt | scripts/ci/google-play-edit.py:822-920 | A plan built for these arguments and gone live leaves on each of its tracks one more release of the uploaded code, completed; or, on production of a staged plan, in progress at the percentage asked for. |
| PlayPublish.PublishRelease | scripts/ci/google-play-edit.py:822-920 | For every plan and list of faults, the exact outcome, and the committed store with the whole plan in place exactly when the plan is admissible, every request before the commit is answered and the commit is applied; else as it was. It is live exactly when the commit is answered too, and unknown exactly when that answer is unreadable or lost. It is unpublished with a changed store exactly when, all before the commit being answered, Play applies the commit it answers with an error status. One commit at most; one deletion of its own edit unless it goes live. |
| PlayPublish.PublishedIsChange | scripts/ci/google-play-edit.py:822-920 | A publication that lands always changes the store. |
| PlayPublish.LostOpeningLeavesEdit | scripts/ci/google-play-edit.py:822-920 | A concrete opening that Play carries out and whose answer is lost: the edit stays open and no deletion is asked for. |
| PlayPublish.RefusedCommitGoesLive | scripts/ci/google-play-edit.py:471-479 | A concrete plan and list of faults: reported unpublished, and live. |
| AttachmentPaths.StorableIsNormal | apps/cloud/src/server-storage.ts:437-451 | A path of plain names within the limits normalizes to itself, as a key and as a scanned path. |
| AttachmentPaths.NormalIsStorable | apps/cloud/src/server-storage.ts:437-451 | What normalization accepts is such a path, so normalizing again changes nothing. |
| AttachmentPaths.NormalizedIff | apps/cloud/src/server-storage.ts:437-451 | A raw path normalizes exactly when it decodes to at most 512 letters, digits, dots, underscores, hyphens and slashes making one to sixteen segments, none a dot or two, and then to those, extra slashes ignored. |
| AttachmentGc.CollectReferences | apps/cloud/src/server-attachments.ts:100-157 | The guarded set is exactly the places, current and historical, of the keys of live attachments whose owner is not purged. |
| AttachmentGc.ReferencedIsNormal | apps/cloud/src/server-attachments.ts:148-157 | A referenced key's place under the root is never refused by normalization, so it is always guarded. |
| AttachmentGc.Gc.Visit | apps/cloud/src/server-attachments.ts:164-235 | The recursive walk over any tree, clock and removal outcomes computes the walk of the specification. |
| AttachmentGc.RemovesExactly | apps/cloud/src/server-attachments.ts:196-217 | On every tree, a walk that throws included, only a file is removed whose path normalizes, which nothing live guards and which is past the grace period; when the walk ends by itself, every such file whose removal succeeds is. |
| AttachmentGc.EndsSynced | apps/cloud/src/server-attachments.ts:164-235 | On every tree scanned minus kept minus deleted counts the removals that failed or found nothing; when the walk ends by itself every removal is followed by a sync of its parent, done or reported, so with no errors all are durable. |
| AttachmentGc.ThrewIffUnreadable | apps/cloud/src/server-attachments.ts:164-178 | The walk throws exactly when it reaches a folder it cannot read. |
| AttachmentGc.UnreadableFolderLosesSync | apps/cloud/src/server-attachments.ts:164-235 | Such a folder throws past the trailing sync of a folder that already lost a file. |
| AttachmentGc.ThrowLeavesUnsynced | apps/cloud/src/server-attachments.ts:164-235 | A walk that throws leaves unsynced exactly what it removed from the folders above the one it could not read. |
| AttachmentGcReport.ReportsExactly | apps/cloud/src/server-attachments.ts:159-247 | On every tree: scanned is the number of files met, kept of those that are guarded, not normal or too recent, deleted of the removals done; errors holds only what failed, and, when the walk ends by itself, all that failed. |
| AttachmentGcReport.DoesExactly | apps/cloud/src/server-attachments.ts:164-235 | A walk that ends by itself does the file removals, folder removals and syncs that the tree calls for, all of them and nothing else. |
| AttachmentGcReport.MetIsFileAt | apps/cloud/src/server-attachments.ts:164-178 | The files met are those whose every entry above answers its stat. |
| AttachmentGcReport.Report | apps/cloud/src/server-attachments.ts:250-276 | The route answers those counts, as a success exactly when nothing failed. |
| AttachmentPurge.CollectRetained | apps/cloud/src/server-attachments.ts:43-60 | The retained keys are those of owners that are neither the purged project nor purged, deleted attachments included. |
| AttachmentPurge.DeletionFreesNoKey | apps/cloud/src/server-attachments.ts:38-60 | Deleting every attachment of an owner ends its references and frees none of the keys it holds; what it references, it holds. |
| AttachmentPurge.CollectPendingDeletes | apps/cloud/src/server-attachments.ts:62-76 | Exactly the project's keys nothing retains, each once. |
| AttachmentPurge.PurgeDeletesOnlyUnreferenced | apps/cloud/src/server-attachments.ts:43-117 | Once the project is purged the document references none of the keys scheduled, and each key of the project is scheduled unless an owner that is not purged holds it. |
| AttachmentPurge.AppendPendingDeletes | apps/cloud/src/server-attachments.ts:78-98 | The appended list has exactly both lists' keys, none twice, no entry of neither, and keeps existing entries first and unchanged. |
| Capture.CaptureIdIgnoresCase | apps/cloud/src/server-capture.ts:121-132 | Ids that differ in case only are one capture, in lower case, and a parsed id parses to itself. |
| Capture.Namespace.HandleCapture | apps/cloud/src/server-capture.ts:391-437 | The locked section, for every outcome of every write: audio first, then the document, then the cleanup. |
| Capture.AnswersExactly | apps/cloud/src/server-capture.ts:391-437 | Created exactly when the document loads, the id is new, the finalize passes, and the audio and then the document are written; each failure answered by the first thing that fails. |
| Capture.LeavesExactly | apps/cloud/src/server-capture.ts:391-507 | What each answer leaves: the document as it was or the finalized one, the audio's bytes at its name until a cleanup the stored document does not forbid, every other file untouched. |
| Capture.Namespace.RemoveOrphanedCaptureAudio | apps/cloud/src/server-capture.ts:440-507 | The audio goes only when the document as it stands is read and mentions its key nowhere. |
| Capture.TakeKeeps | apps/cloud/src/server-capture.ts:391-437 | A capture, failing anywhere, keeps every captured file a live attachment needs. |
| Capture.CollectKeeps | apps/cloud/src/server-attachments.ts:119-247 | A collector pass, whatever tree and clock it meets, keeps them. |
| Capture.RunIsSafe | apps/cloud/src/server-capture.ts:391-515 | Over any run of captures, collector passes and reference-dropping edits, every live attachment a capture put in the stored document has its bytes at its storage path. |
| Capture.RunAddsNoSecond | apps/cloud/src/server-capture.ts:396-404 | Over any such run no task id gains a second task. |
| Capture.RetryIsReplayed | apps/cloud/src/server-capture.ts:396-404 | A retry of a capture whose write landed, even if it was answered with an error, changes nothing. |
| Capture.Namespace.CollectOrphans | apps/cloud/src/server-attachments.ts:250-276 | The route removes what the collector removes, and nothing when the document cannot be read. |
| Lru.Cache.Insert | apps/cloud/src/server-data-cache.ts:72-83 | A promoted and trimmed cache holds the new entry, at most 64 entries, the most recently used ones. |
| Lru.Cache.Trim | apps/cloud/src/server-data-cache.ts:72-78 | Trimming removes the oldest entries only, down to 64. |
| Lru.NewestAfterUse | apps/cloud/src/server-data-cache.ts:80-83 | Using a key keeps the held keys a suffix of all keys by recency of use. |
| Lru.NewestAfterDrop | apps/cloud/src/server-data-cache.ts:111-136 | So does dropping one. |
| Lru.NewestAfterEviction | apps/cloud/src/server-data-cache.ts:72-78 | So does evicting the oldest. |
| DataCache.Server.RememberParsed | apps/cloud/src/server-data-cache.ts:111-124 | A copy is cached under the file's identity; the cache stays sound exactly when that file holds what is remembered. |
| DataCache.Server.LoadForWrite | apps/cloud/src/server-data-cache.ts:150-166 | A hit answers the cached document, a miss the uncached read; the answer is a fresh copy; when the cache stays sound is exactly stated. |
| DataCache.Server.Load | apps/cloud/src/server-data-cache.ts:126-141 | The same for the load that reads an unreadable document as a fresh one, which is what can poison the cache. |
| DataCache.Server.Write | apps/cloud/src/server-data-cache.ts:197-206 | A write, successful or failing before or after it lands, leaves the files as its fate says and keeps the cache sound. |
| DataCache.Server.IsTrusted | apps/cloud/src/server-data-cache.ts:85-95 | A trusted file is one remembered as validated under the identity it still has. |
| DataCache.Server.GetMetadata | apps/cloud/src/server-data-cache.ts:218-255 | The metadata is of the file as it is, cached or not. |
| DataCache.LoadsAsUncached | apps/cloud/src/server-data-cache.ts:150-166 | On a sound cache a load for a write answers as an uncached read and leaves the cache sound. |
| DataCache.Take | apps/cloud/src/server-data-cache.ts:49-206 | One load, write, replacement, removal, trust check, metadata read or change of a document by its caller is, cached, what it is without caches: same reply, same files, same documents with the callers. |
| DataCache.Run | apps/cloud/src/server-data-cache.ts:49-206 | So is any run of them, evictions and failing writes included: every load for a write answers what an uncached read would at that moment, and no caller's change of a document at any time changes another document or a reply. |
| DataCache.RunFromStart | apps/cloud/src/server-data-cache.ts:49-206 | The same from a new server, with nothing assumed of its caches. |
| DataCache.WrittenIsRead | apps/cloud/src/server-data-cache.ts:150-206 | What a landed write stored, every later load answers until the path is written, replaced or removed. |
| DataCache.RemovedIsRead | apps/cloud/src/server-data-cache.ts:126-166 | A removed document reads as an empty one, one that does not parse as unreadable, until then. |
| DataCache.UnreadableTurnsEmpty | apps/cloud/src/server-data-cache.ts:126-166 | An unreadable document, read once by `loadAppData`, is then answered to writers as empty. |
| AutomationStore.Store.FlushPendingSave | packages/core/src/store.ts:479-593 | The flush loop, over versions, attempts and task saves in flight, is the flush of the specification for any fate of each save. |
| AutomationStore.FlushSettles | packages/core/src/store.ts:479-593 | A flush that returns, and a throwing one with no task save in flight, leaves nothing queued. |
| AutomationStore.FlushSavesNewest | packages/core/src/store.ts:479-593 | A flush that returns has saved the newest snapshot that was waiting, or a newer one. |
| AutomationStore.FlushIsFew | packages/core/src/store.ts:540-593 | No flush tries a snapshot a sixth time, the flushes before it counted. |
| AutomationStore.TriesFiveTimes | packages/core/src/store.ts:516-593 | Fewer failures in a row than its attempts have left and a snapshot is saved; as many, and the flush throws with it dropped. |
| AutomationStore.EditIsQueued | packages/core/src/store.ts:387-413 | An edit's snapshot is the newest one queued, and of more than a hundred only the oldest goes. |
| AutomationStore.Store.SaveTask | packages/core/src/store-tasks.ts:2195-2230 | An edited task is saved by itself exactly where the adapter has `saveTask` and no snapshot is queued. |
| AutomationStore.Store.FetchData | packages/core/src/store-settings.ts:412-470 | A load consumes the replacement mark at entry, flushes what is pending before it reads, and throws where the flush does. |
| AutomationStore.LoadIsRecorded | packages/core/src/store-settings.ts:412-470 | A load that succeeds is of the adapter's profile, a replacement exactly if it was declared one, and leaves nothing queued but its own migration. |
| AutomationStore.Automation.RunAttempt | scripts/mindwtr-automation-core.ts:186-209 | An attempt: the mark before the body, the flush after it, and after a failure the flush whose error is swallowed, with the store then known to be nobody's. |
| AutomationStore.Automation.RunStoreOperation | scripts/mindwtr-automation-core.ts:182-211 | The body runs at most twice, again only after a retryable error, and store and identity end as the specification's two attempts. |
| AutomationStore.OperationKeeps | scripts/mindwtr-automation-core.ts:182-211 | Once nothing of another profile's waits, an operation failing and retried anywhere saves through the right adapter only, replaces on every load that must, and leaves nothing waiting unless it fails with an adapter that has `saveTask`. |
| AutomationStore.SuccessSavesIff | scripts/mindwtr-automation-core.ts:186-209 | An attempt that succeeds has saved its newest edit exactly unless the queue's timer gave it up, by a fifth failure after the last edit and before the attempt's own flush. |
| AutomationStore.TimerLosesEdit | packages/core/src/store.ts:371-385 | A concrete operation that succeeds although the timer gave its edit up. |
| AutomationStore.RunServices | scripts/mindwtr-automation-core.ts:26-211 | The services one after another are the specification's run, and end with every save its own profile's, every due load a replacement and nothing waiting. |
| AutomationStore.ServicesKeep | scripts/mindwtr-automation-core.ts:26-211 | Any sequence of operations on any profiles, each failing and retried anywhere and with any fate of any save, saves no snapshot through another profile's adapter nor a sixth time, and replaces on every load after a failure or a change of profile. |
| AutomationStore.SettlesIffNoTaskSaves | scripts/mindwtr-automation-storage.ts:207-223 | Operations can never leave anything waiting exactly when their adapter has no `saveTask`, as the automation's has not. |
| AutomationStore.TaskSavesCross | packages/core/src/store.ts:415-593 | With an adapter that has `saveTask`, two operations in which task saves fail one after the other save one profile's snapshot through the other's adapter. |
| WidgetPublisher.RunKeeps | apps/android-native/bundle/host-widgets.ts:59-121 | In every reachable state a pending store change has a timer due within five minutes of it, no other timer is live, and no payload is handed over twice in a row unless it was lost. |
| WidgetPublisher.DueOnlyEarlier | apps/android-native/bundle/host-widgets.ts:94-106 | Between firings and publications the due time only moves earlier. |
| WidgetPublisher.DueWithinASecond | apps/android-native/bundle/host-widgets.ts:107-121 | In the background, for the Focus setting, or five minutes after the last refresh a change is due within a second; a new timer is never due sooner than a second. |
| WidgetPublisher.DueExactly | apps/android-native/bundle/host-widgets.ts:94-121 | When a change is due, to the millisecond, and that it never delays a publication already due. |
| WidgetPublisher.HandsOverIff | apps/android-native/bundle/host-widgets.ts:67-92 | In any reachable state a publication hands its payload over exactly when it is built, does not throw, and is new or lost by the widgets; it clears timer and pending change, and is the store's refresh exactly when a change was pending. |
| WidgetPublisher.FiringsFiveMinutesApart | apps/android-native/bundle/host-widgets.ts:94-121 | With ordinary changes, the app in front and a monotone clock, consecutive firings are at least five minutes apart. |
| WidgetPublisher.Publisher.Publish | apps/android-native/bundle/host-widgets.ts:67-92 | A publication clears the timer and the pending change and hands the payload over unless it is unchanged, unready or failing. |
| WidgetPublisher.Publisher.OnStoreChange | apps/android-native/bundle/host-widgets.ts:107-121 | A store change becomes pending and is scheduled by its own delay. |
| Jpeg.JpegDimensions | scripts/ci/prepare-google-play-listing-assets.py:77-132 | The nested loops end, read in range, and find what the scan finds. |
| Jpeg.CodesAre | scripts/ci/prepare-google-play-listing-assets.py:77-132 | The standalone and frame codes are those of table B.1 of ITU-T T.81. |
| Jpeg.FirstFrameHeader | scripts/ci/prepare-google-play-listing-assets.py:77-132 | For every well-formed marker sequence (ITU-T T.81 sections B.1.1.2, B.1.1.4, B.2.2), fill bytes and standalone markers included, the answer is the first frame header's width and height. |
| Jpeg.ScanFirst | scripts/ci/prepare-google-play-listing-assets.py:110-111 | A scan or end of image before any frame header leaves the size unknown. |
| AuditGraph.ReachesIffLeads | scripts/ci/validate-mobile-npm-audit.js:73-82 | On every finite graph the search ends, and succeeds exactly when a path leads to the goal. |
| AuditGraph.Validate | scripts/ci/validate-mobile-npm-audit.js:20-91 | A report is accepted exactly when it is well-formed, has exactly the expected advisories on image-size alone, names no missing package, and every package is transitively caused by image-size. |

## Left out

- Bit operators of the codecs (`|`, `<<`, `>>`, `&`) are written as sums, products, quotients and remainders of disjoint bit fields; the decoding table of base64 is computed each time instead of cached.
- The chunks of 8192 units the decoder joins its output from are a sequence of parts; the label of a decoder is ignored, as in the code.
- Dates and typed arrays in the graph clone, which are copied per reference rather than per node; getters, symbols, functions and inherited properties of the input. A property named `size` of an object whose own `__proto__` leads to a Map or a Set, which the assignment ignores.
- Sparse arrays in the graph clone, whose holes `list.push(clone(input[i]))` fills with undefined, and an array's own named properties, which it drops.
- URLSearchParams made from an object, and its `get`, `set`, `append`, `delete` and iterators.
- The bodies of fetch's Request, Response and Headers: an answer's headers are only valid or not. The host's threads are the order in which their answers reach the queue.
- The idle pump's waiting (`await` of HostIo.kt) and the timers run after a pump.
- Google Play beyond the release scripts' requests: edits of other clients open at the same time, review, and release fields other than name, codes, status and fraction; release notes; the patterns, lengths and files plan validation checks.
- Rollout percentages are reals with the tolerance 0.000001; floating-point rounding, and the relative tolerance of `math.isclose`, which is smaller on percentages, are not modelled.
- Requests, authentication, redaction and result files of the release scripts; trimming and splitting of the track setting.
- Symbolic links and the root checks of the attachment folder; changes of the tree by others during a walk; a removal of a folder is what the file system answers, which only ever removes an empty one.
- The title, description, times, hash and media type of a captured task; multipart parsing; trimming of the capture id. The shared finalize is any function that adds no live cloud key and repeats no task id.
- Capture.RunIsSafe: edits that restore a dropped reference are not steps, because the collector may have removed its file in between.
- DataCache.Server.LoadForWrite: the clock that fills in missing times of areas is not modelled, so a document parses to one value; two files of a path never share an identity unless they hold the same; a stat, a read and a write of one call see one file.
- ETag and Last-Modified texts: metadata is the identity they are printed from.
- The retry delays of the shared store's flush; task saves settle when a flush awaits them, in the order they were made; what the queue's timer does happens between two steps of a body, not between operations, and two flushes, which the code has take turns through `saveInFlight`, run one after the other. Edit locks and loads judged irrelevant, which the services do not use.
- DataCache.Run: existsSync answers truly in its loads; where it does not, `DataCache.Server.LoadForWrite` says what is answered and remembered.
- The widgets' payload: a publication finds the publisher not ready, a payload that cannot be built, or a payload.
- PNG sizes and the Play constraints on listing images.
- Sorting of the audit's advisory ids before they are compared: the comparison is of multisets.
- Core's sync merge, store actions, planners and parsers; HTTP, CORS, tokens and logging.
