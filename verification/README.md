# Verified models of docker-webmail-gui

A Dafny project that models the parts of the panel whose correctness depends on state,
chunking, interleaving or long runs, and proves what they promise. It stands beside the
repository; nothing in it is compiled into the product.

| component | files | what is proved |
|---|---|---|
| Restore guard | `TarHeader`, `RestoreArchive`, `RestoreConservation`, `RestoreContainment`, `RestoreTarGuard` | the streaming transform, fed any chunks, is one pass over the whole archive; bytes are conserved and cut only at entry boundaries; admitted entries stay inside the volume |
| Archive writer | `PaxRecords`, `TarFixture`, `TarRoundTrip`, `TarPreambles`, `TarForeign` | every written record and archive, and every other writer's header, is read back as what it means |
| Stream demultiplexer | `StreamDemux` | chunk independence, round trip, and exactly when a partial frame is pending |
| Self-update | `ImageSwap`, `SelfUpdate` | chains of image swaps and of whole runs, healing, rollback fidelity, all-or-nothing runs, the record at every crash point |
| Mail tools | `RateLimiter`, `MailSend`, `MailRestore` | the sliding window, at-most-once sending and restoring under interleaving and crashes, and what rows and answers say of it |
| Mailbox store | `Mailbox`, `MailboxConservation`, `MailboxRestore`, `Paging` | UIDs over every run, conservation, restore exactly and once, cursor paging |
| Connections | `Reconciliation`, `ConnectionControl`, `ConnectionFlights` | idempotent reconciliation, vanishing mailboxes, revocation over every run, and exactly when stale and deleted mailboxes stay without access |
| Small parts | `Semaphore`, `Base32`, `Bytes`, `Text` | the session limiter as steps, the base-32 encoder, shared sequences and numerals |

How the models are shaped:

- Bytes are the integers 0 to 255. Decoding bytes as UTF-8 is a parameter of the tar and
  log models: their theorems hold for every decoder. Where the writer's output is read
  back, the decoder is required to agree with ASCII on ASCII bytes.
- JavaScript numbers are unbounded integers. The guard's safe-integer checks are written
  out; a float that is rounded on its way to such a check stays on the same side of it.
- The guard is a class with the source's fields plus everything it pushed. Its invariant
  says that, whatever bytes are still to come, the whole-archive pass over everything
  received and to come is what the guard will report.
- Interleaved handlers (sending, the semaphore, the control operations) are steps of a
  state machine; a run is any sequence of enabled steps.
- The updater works on a machine that logs every change it makes, so a crash is a run
  that stops at some logged moment. Pull results, image inspections and health polls come
  from an arbitrary schedule, with any clock. Docker throwing anywhere else is such a crash;
  so is a wait that never ends, since waiting logs nothing. Container ids are numbers that
  are never reused, and the server and broker have different names.
- `hide` statements only keep a function's body out of one proof.

Where the code does not do what a reader might expect, the code was kept:

- `base32` loses trailing bits unless the byte count is a multiple of five and the length
  takes all of them, so it tells byte strings apart exactly then (`Base32.InjectiveIff`).
  Usernames are such a case; connection and row ids are not.
- `moveToTrash` called with one message twice puts it in Trash twice
  (`MailboxConservation.RepeatedReferenceDuplicates`). It conserves the mailbox exactly
  when the references are pairwise distinct (`MailboxConservation.TrashConserves`).
- A binding's documentation says that a stale one has its credential wiped and its grants
  revoked. That holds over a run exactly as long as no password is stored for a binding
  that is stale at that moment (`ConnectionControl.StaleIsWipedIff`). `create` stores one
  before it refuses, whether the binding was stale already or went stale while the mail
  server was asked. A later pass with a changed fingerprint leaves it
  (`ConnectionControl.StaleBindingKeepsCredential`), and when the mailbox goes missing and
  is back with the old fingerprint it is usable (`ConnectionControl.StaleCredentialRevives`).
- A deleted mailbox's binding is documented as revoked for good. It is, with everything that
  hung off it and whatever is done afterwards, if and only if at the deletion no operation is
  under way that still has a write of that binding before it: a password being verified, an
  update that will activate the binding, or a check that may reject the credential
  (`ConnectionFlights.DeletedForGoodIff`). An update and a `create` awaiting the mail server
  at the deletion make the binding usable again (`ConnectionFlights.DeletedMailboxRevives`).
- `mail_send` answers that a send failed when the server accepted it but writing the row or
  the audit entry failed; among the rows that say failed these are exactly the accepted ones
  (`MailSend.RowsTellWhatCameBack`). The sender is told to use a new key, and the message
  goes out twice (`MailSend.UnrecordedIsSentAgain`).
- `Semaphore` keeps the places taken and promised within its limit exactly as long as no
  caller takes a place when all free ones are promised to woken waiters
  (`Semaphore.LimitHoldsIff`). Arriving between a wake and its resumption is not enough for
  that (`Semaphore.BargingMayBeHarmless`); right after it has happened, the woken waiters
  resuming puts more bodies to work than the limit (`Semaphore.OversellingOvershoots`).
- `paxRecord` counts UTF-16 units where the format and the reader count bytes, so a written
  record is read back whole if and only if it is ASCII (`PaxRecords.RecordReadsBackIff`,
  `PaxRecords.AccentedRecordIsRefused`).
- The restore guard tests an entry's name against earlier symlinks, not a hard link's target:
  targets avoid them exactly when each would pass the same test
  (`RestoreContainment.LinkTargetsAvoidIff`, `TarRoundTrip.WrittenTargetsAvoidIff`,
  `TarRoundTrip.LinkTargetThroughSymlinkPasses`).
  Its documentation asks of a target only that it stays under the root name, which it does.

## Model

| member | source | states |
|---|---|---|
| TarHeader.ReadNumber | apps/broker/src/restore-tar-guard.ts:54-65 | the loop over base-256 bytes, and the octal branch, give the field's positional value, or nothing when it is malformed, negative or not a safe integer |
| TarHeader.ChecksumMatches | apps/broker/src/restore-tar-guard.ts:67-78 | the one loop decides equality with the unsigned or the signed sum of the header with its checksum field blanked |
| TarHeader.ReadPaxRecordAt | apps/broker/src/restore-tar-guard.ts:95-105 | the record at an offset, read in place, is the record at the head of the rest |
| TarHeader.ParsePaxRecords | apps/broker/src/restore-tar-guard.ts:91-109 | the loop over offsets computes the map that reading record after record defines, or nothing when one is malformed |
| RestoreArchive.Components | apps/broker/src/restore-tar-guard.ts:120-124 | every component is a proper name: no slash, not empty, `.` or `..` |
| RestoreArchive.ReadItem | apps/broker/src/restore-tar-guard.ts:199-237 | an item held back or admitted is whole blocks; the end of the archive is recognised only with nothing held |
| RestoreConservation.ReadItemGrows | apps/broker/src/restore-tar-guard.ts:199-237 | once a header can be decided, no later byte changes the decision |
| RestoreConservation.ReadItemLocal | apps/broker/src/restore-tar-guard.ts:199-237 | a forwarded item depends on no byte past its own |
| RestoreConservation.PassFromConserves | apps/broker/src/restore-tar-guard.ts:186-239 | from any header boundary with any preamble held: output is a prefix, entries tile it on block boundaries |
| RestoreConservation.PassConserves | apps/broker/src/restore-tar-guard.ts:26-34 | the output is a prefix of the archive, all of it when nothing is refused, and exactly the admitted entries with their preambles when a header is |
| RestoreConservation.Resubmit | apps/broker/src/restore-tar-guard.ts:29-34 | what a refused archive let through is itself an accepted archive with the same entries, so no extended header dangles |
| RestoreContainment.ResolveComponents | apps/broker/src/restore-tar-guard.ts:119-124 | the guard's components are where the path leads below the directory it is resolved from |
| RestoreContainment.TargetIsVolume | apps/broker/src/restore-tar-guard.ts:317-327 | the root name below the parent is the volume path, for every path whose last part is a proper name |
| RestoreContainment.PassAdmissible | apps/broker/src/restore-tar-guard.ts:263-314 | every admitted entry had no problem, and none goes through an earlier admitted symlink |
| RestoreContainment.Containment | apps/broker/src/restore-tar-guard.ts:14-19 | for every volume path and archive, admitted names and hard-link targets resolve at or below the volume and no entry lies strictly below an earlier symlink |
| RestoreContainment.ProblemIff | apps/broker/src/restore-tar-guard.ts:296-314 | an entry is refused exactly when its path does not lead into the root, goes below a remembered symlink, or is a hard link whose target does not lead into the root, and for the first of these |
| RestoreContainment.RemembersSymlinks | apps/broker/src/restore-tar-guard.ts:312-312 | exactly admitted symlinks are remembered, so that exactly the paths below them are refused |
| RestoreContainment.LinkTargetsAvoidIff | apps/broker/src/restore-tar-guard.ts:296-314 | admitted hard-link targets lie below no earlier admitted symlink if and only if each would pass the test that its entry's name passes |
| RestoreContainment.LinkTargetThroughSymlink | apps/broker/src/restore-tar-guard.ts:307-311 | a symlink, then a hard link to a path below it, have no problem |
| RestoreTarGuard.DataStep | apps/broker/src/restore-tar-guard.ts:192-198 | forwarding any part of the data that has arrived leaves the final verdict as it was |
| RestoreTarGuard.ExtendedStep | apps/broker/src/restore-tar-guard.ts:221-231 | holding an extended header back leaves the final verdict as it was, for all bytes to come |
| RestoreTarGuard.AdmitStep | apps/broker/src/restore-tar-guard.ts:283-293 | forwarding the held preamble and the header leaves the final verdict as it was |
| RestoreTarGuard.RefuseStep | apps/broker/src/restore-tar-guard.ts:173-178 | refusing where the header at hand is refused fixes the final verdict, for all bytes to come |
| RestoreTarGuard.ReceiveKeeps | apps/broker/src/restore-tar-guard.ts:147-160 | a chunk that arrives is discarded, passed on or buffered without changing the verdict on everything |
| RestoreTarGuard.FlushVerdict | apps/broker/src/restore-tar-guard.ts:162-171 | the flush condition holds exactly when the whole archive ends partway |
| RestoreTarGuard.Guard.constructor | apps/broker/src/restore-tar-guard.ts:126-145 | a fresh guard satisfies the invariant with nothing received or pushed |
| RestoreTarGuard.Guard.Transform | apps/broker/src/restore-tar-guard.ts:147-160 | keeps conservation, block alignment and agreement with the whole pass, never takes back a pushed byte, and leaves nothing undecided that could be decided |
| RestoreTarGuard.Guard.Walk | apps/broker/src/restore-tar-guard.ts:186-198 | the loop ends idle or refused with the invariant kept |
| RestoreTarGuard.Guard.WalkHeader | apps/broker/src/restore-tar-guard.ts:199-238 | each branch on one header is the one the whole pass takes |
| RestoreTarGuard.Guard.ReadMetaHeader | apps/broker/src/restore-tar-guard.ts:242-260 | records exactly the header's effect on the next entry, or refuses a malformed one |
| RestoreTarGuard.Guard.AdmitEntry | apps/broker/src/restore-tar-guard.ts:263-294 | applies the overrides in their order of precedence, then refuses with nothing pushed or forwards preamble and header and clears the overrides |
| RestoreTarGuard.Guard.PushHeld | apps/broker/src/restore-tar-guard.ts:289-290 | the held blocks are pushed whole and in order |
| RestoreTarGuard.Guard.FindProblem | apps/broker/src/restore-tar-guard.ts:296-314 | the loop over ancestors finds a symlink exactly when there is one; only an accepted symlink is remembered |
| RestoreTarGuard.Guard.Flush | apps/broker/src/restore-tar-guard.ts:162-171 | everything pushed, the rejection and the admitted entries are those of the whole pass |
| RestoreTarGuard.GuardStream | apps/broker/src/restore-tar-guard.ts:126-239 | for every list of chunks, output and rejection are those of one pass over their concatenation |
| PaxRecords.WriteRecord | apps/broker/src/tar-fixture.ts:45-50 | the search ends, with a text that states its own length in UTF-16 units and the smallest such |
| PaxRecords.RecordReadsBack | apps/broker/src/restore-tar-guard.ts:94-106 | a written record in front of any bytes is read back whole |
| PaxRecords.RecordReadsBackIff | apps/broker/src/tar-fixture.ts:45-50 | a written record, encoded as UTF-8 in front of any bytes, is read back whole if and only if key and value are ASCII |
| PaxRecords.AccentedRecordIsRefused | apps/broker/src/restore-tar-guard.ts:101-101 | a concrete written record with an accented path is refused |
| PaxRecords.RecordsReadBack | apps/broker/src/restore-tar-guard.ts:91-109 | any written records are read back as the last value of each key |
| PaxRecords.LastWinsValue | apps/broker/src/restore-tar-guard.ts:105-105 | which field a key's value comes from |
| TarFixture.WriteHeader | apps/broker/src/tar-fixture.ts:21-38 | the buffer writes and the summing loop give the header that the field writes define, checksum included |
| TarFixture.FieldsLayout | apps/broker/src/tar-fixture.ts:22-33 | where each field of a fitting header ends up |
| TarRoundTrip.HeaderChecksum | apps/broker/src/tar-fixture.ts:34-36 | the guard accepts the checksum of every fitting header |
| TarRoundTrip.HeaderReads | apps/broker/src/tar-fixture.ts:22-33 | the guard reads back type, size, name and link name of every fitting header |
| TarRoundTrip.WriteTar | apps/broker/src/tar-fixture.ts:53-61 | the parts pushed are headers, padded contents and the trailer, in order |
| TarRoundTrip.ReadsBack | apps/broker/src/tar-fixture.ts:52-61 | for every list of fitting entries of any type, the guard's verdict is the one computed from the entries instead of their bytes, up to the first whose size is not its content's, from where the guard goes on as the size says |
| TarRoundTrip.ReadsBackByMeaning | apps/broker/src/tar-fixture.ts:52-61 | where every size is that of its content, the verdict is said of the entries alone: extended headers held and read, entries admitted whole, or the first refused |
| TarRoundTrip.OrdinaryRoundTrip | apps/broker/src/tar-fixture.ts:52-61 | an ordinary archive passes unrejected if and only if its entries are in order, and then unchanged with every entry admitted |
| TarRoundTrip.WrittenTargetsAvoidIff | apps/broker/src/restore-tar-guard.ts:296-314 | an ordinary archive in order passes, and its hard links' targets resolve below no earlier symlink if and only if each passes the test that entry names pass |
| TarRoundTrip.LinkTargetThroughSymlinkPasses | apps/broker/src/restore-tar-guard.ts:296-314 | an archive of such a symlink and hard link passes unchanged |
| TarPreambles.PreamblesGovern | apps/broker/src/restore-tar-guard.ts:241-297 | any number of extended headers before an entry are held back until it and read one on top of the other; the verdict is the entry's under all of them: preambles and entry forwarded as one, with as much data as the size says, or nothing |
| TarPreambles.PreamblesPassAsOne | apps/broker/src/restore-tar-guard.ts:241-297 | where the size is that of the content, preambles and entry pass unchanged as one entry, or nothing passes |
| TarPreambles.PaxRecordsGovern | apps/broker/src/restore-tar-guard.ts:263-294 | an entry behind written PAX records goes by the last path, linkpath and size among them, and is admitted with its preamble or refused for what they say with neither forwarded |
| TarPreambles.GnuNameWins | apps/broker/src/restore-tar-guard.ts:265-275 | a GNU long name overrides a PAX path, in either order, and the header's own name, while the PAX link path and size still hold |
| TarPreambles.GnuLinkGoverns | apps/broker/src/restore-tar-guard.ts:243-250 | a hard link behind a GNU long link is admitted or refused for that target |
| TarPreambles.GnuLinkWins | apps/broker/src/restore-tar-guard.ts:266-266 | a GNU long link overrides a PAX link path, in either order, while the PAX path and size still hold |
| TarPreambles.NothingGoverns | apps/broker/src/restore-tar-guard.ts:247-260 | an empty GNU name or link and a global PAX header go out with the entry and change nothing about it |
| TarPreambles.OversizedIsRefused | apps/broker/src/restore-tar-guard.ts:221-224 | an extended header of more than 1 MiB is refused |
| TarPreambles.MalformedIsRefused | apps/broker/src/restore-tar-guard.ts:252-256 | a PAX header, local or global, that is not records throughout is refused |
| TarForeign.HeaderSays | apps/broker/src/restore-tar-guard.ts:54-88 | for any header bytes: the checksum is accepted if and only if it is the unsigned or the signed sum, and size, path with the 155-byte or 131-byte prefix, and link name are what the fields hold |
| TarForeign.SizeReads | apps/broker/src/restore-tar-guard.ts:54-65 | a size in octal digits between blanks, or in base 256, is read as that number; a negative one or one beyond the safe integers is none |
| TarForeign.EndIff | apps/broker/src/restore-tar-guard.ts:199-211 | a block of 512 zeros, and no other, ends the archive, and is refused while an extended header is held |
| TarForeign.ForeignEntry | apps/broker/src/restore-tar-guard.ts:199-297 | over the whole pass: such a header with its content and a trailer is admitted under prefix, slash and name with every byte, or refused for exactly that name or for what is wrong with the header |
| StreamDemux.DecodeConcat | apps/broker/src/stream-demux.ts:45-67 | decoding can stop after any byte and go on from what was left |
| StreamDemux.DockerStreamDemuxer.Push | apps/broker/src/stream-demux.ts:48-67 | returns the frames that became complete, and everything emitted so far is one decode of everything received |
| StreamDemux.DockerStreamDemuxer.HasPendingPartialFrame | apps/broker/src/stream-demux.ts:69-72 | true exactly when the bytes so far are not the encoding of some list of frames |
| StreamDemux.DemuxChunks | apps/broker/src/stream-demux.ts:39-73 | for every list of chunks, frames and pending flag are those of their concatenation |
| StreamDemux.DecodeEncode | apps/broker/src/stream-demux.ts:6-10 | any frame list, encoded, decodes to its meanings with nothing left |
| StreamDemux.StreamsByType | apps/broker/src/stream-demux.ts:33-37 | every frame of type 2, and no other, comes out on stderr, with its own payload |
| StreamDemux.DecodesHead | apps/broker/src/stream-demux.ts:48-67 | what any bytes decode to, said of the bytes: a frame ends where its big-endian length says, or the bytes are kept |
| StreamDemux.TextOfStream | apps/broker/src/stream-demux.ts:90-101 | each stream's text is the payloads sent on it, in order, decoded once, and nothing of the other stream |
| StreamDemux.WholeFramesLeaveNothing | apps/broker/src/stream-demux.ts:69-72 | nothing is left over if and only if the bytes are whole frames |
| StreamDemux.CutsDoNotShow | apps/broker/src/stream-demux.ts:90-101 | cutting a payload anywhere changes no stream's text |
| ImageSwap.MergeTwice | apps/broker/src/self-update/fake-docker-api.ts:69-73 | merging an image's environment in a second time adds nothing |
| ImageSwap.InspectMerges | apps/broker/src/self-update/fake-docker-api.ts:177-213 | a container inspects as its own configuration, and as its image's only where it sets nothing itself: variables by key, labels by key, the command as a whole |
| ImageSwap.RollbackFidelity | apps/broker/src/self-update/fake-docker-api.ts:177-213 | recreating from the captured spec inspects identically, order included |
| ImageSwap.SwapIsGenuine | apps/broker/src/self-update/image-swap-spec.ts:101-155 | one swap takes out exactly what the old image put in, and the provenance entries |
| ImageSwap.UnreadIsGenuine | apps/broker/src/self-update/image-swap-spec.ts:101-155 | so such a swap takes out exactly the provenance |
| ImageSwap.ChainIsGenuine | apps/broker/src/self-update/image-swap-spec.ts:20-68 | after any chain of swaps, env, labels and command are the original ones, order kept, without provenance and without what any image left behind put in |
| ImageSwap.ChainIsFreshCreate | apps/broker/src/self-update/image-swap-spec.ts:37-40 | from a clean configuration a chain of updates ends where creating it afresh on the last image would |
| ImageSwap.ExtractBakedImageFacts | apps/broker/src/self-update/image-refs.ts:131-152 | version and origin are what the last entry that validly states each says, and absent only when none does |
| ImageSwap.VersionIff | apps/broker/src/self-update/image-refs.ts:143-143 | a version is exactly three decimal numbers with dots between them |
| ImageSwap.Healing | apps/broker/src/self-update/image-swap-spec.ts:28-36 | after a swap from anything, the version and origin the merged environment states are the new image's own |
| ImageSwap.VersionRoundTrip | apps/broker/src/self-update/image-refs.ts:91-101 | the version comes back from a composed reference exactly when it holds no colon |
| SelfUpdate.WaitForHealthy | apps/broker/src/self-update/updater.ts:182-190 | for any clock with which the wait ends: healthy exactly when health is seen before a poll finds the deadline passed, over at the first poll that is healthy or late, and after at most 46 inspections if every delay advances the clock by the interval |
| SelfUpdate.AdvancingEnds | apps/broker/src/self-update/updater.ts:182-190 | a clock that every delay advances ends the wait by itself |
| SelfUpdate.TwoSeconds | apps/broker/src/self-update/updater.ts:182-190 | polls two seconds apart end the wait at the 46th, if not before |
| SelfUpdate.ExtractPanelVersion | apps/broker/src/self-update/image-refs.ts:78-89 | finds a full version tag of the repository, and none only when there is none |
| SelfUpdate.Machine.StopAndRemove | apps/broker/src/self-update/updater.ts:167-174 | the container is gone whether or not stopping worked, and no other changed at any moment |
| SelfUpdate.Machine.CreateAndStart | apps/broker/src/self-update/updater.ts:176-180 | one new running container from the spec, and no other changed at any moment |
| SelfUpdate.RecreateAndWaitHealthy | apps/broker/src/self-update/updater.ts:193-202 | one container replaced under the recorded plan, with the verdict of the wait |
| SelfUpdate.RollBackBoth | apps/broker/src/self-update/updater.ts:287-308 | both containers are remade from exactly their captured specs |
| SelfUpdate.RunSelfUpdate | apps/broker/src/self-update/updater.ts:204-315 | for every schedule whose waits end: when each outcome occurs, the old images used whenever they can be read, the exact containers it leaves, the verdict written, and at every logged moment the plan or a true verdict on record once the pair is touched |
| SelfUpdate.AllOrNothing | apps/broker/src/self-update/updater.ts:31-41 | a finished run has both containers on the target images, or both inspecting as before; never mixed, and nothing else changed |
| SelfUpdate.UpdateSwapsOrKeeps | apps/broker/src/self-update/updater.ts:31-41 | a successful run that could read the old image leaves exactly its swap; a rolled-back one leaves a container that inspects as before |
| SelfUpdate.UnreadUpdate | apps/broker/src/self-update/updater.ts:143-160 | a successful run that could not read the old image leaves the captured spec on the target image, without provenance |
| SelfUpdate.RunsAreSwaps | apps/broker/src/self-update/updater.ts:204-315 | over any number of runs, rolled-back ones in between included, each container of the pair inspects as the first one swapped along the images of the successful runs |
| SelfUpdate.RunsAreGenuine | apps/broker/src/self-update/image-swap-spec.ts:20-68 | and so as its original configuration on the last image, without provenance and without what any image left behind put in |
| RateLimiter.ToolRateLimiter.Allow | apps/mcp/src/mcp/tools.ts:71-82 | allowed exactly when fewer than the limit were allowed in the last minute; no other connection's stored times change |
| RateLimiter.DecideAll | apps/mcp/src/mcp/tools.ts:67-83 | a whole run with a clock that never goes back is decided fairly, call by call |
| RateLimiter.FairAt | apps/mcp/src/mcp/tools.ts:73-74 | a call is refused only when the window before it was full |
| RateLimiter.WindowBound | apps/mcp/src/mcp/tools.ts:67-83 | every half-open minute, wherever it starts, holds at most the limit per connection |
| RateLimiter.AllowedInCounts | apps/mcp/src/mcp/tools.ts:73-74 | the calls counted are those of the connection that were allowed in the half-open interval |
| RateLimiter.Independent | apps/mcp/src/mcp/tools.ts:69-82 | what a connection gets depends on its own calls alone |
| MailSend.StepKeeps | apps/mcp/src/mcp/tools.ts:689-837 | every step, in any interleaving, keeps keys unique and every submission covered by its row |
| MailSend.SendsAtMostOnce | apps/mcp/src/mcp/tools.ts:689-837 | in every run no connection and key reach the mail server twice; a handler that answers that its message was or had been sent names a message under its own connection and key that the server accepted; one that answers that an earlier attempt failed had one |
| MailSend.RetryIsAnswered | apps/mcp/src/mcp/tools.ts:690-716 | in every run a retry with a used key is answered by what came back for the message: already sent if and only if it was accepted and recorded, failed if and only if it was rejected or not recorded, unclear otherwise; and it submits nothing |
| MailSend.SubmittedIffAttempted | apps/mcp/src/mcp/tools.ts:690-768 | in every run a connection and key have reached the mail server if and only if some handler for them passed its checks while the connection lived |
| MailSend.ReturnedIsHistory | apps/mcp/src/mcp/tools.ts:769-831 | a message's recorded outcome is the one outcome that came back for it during the run |
| MailSend.RowsTellWhatCameBack | apps/mcp/src/mcp/tools.ts:769-831 | in every run a row's status is exactly what came back: completed if accepted and recorded, unknown if uncertain, failed if rejected or if accepted and not recorded, pending if nothing |
| MailSend.UnrecordedIsSentAgain | apps/mcp/src/mcp/tools.ts:788-831 | a concrete run where an accepted message is reported as failed and accepted again under a new key |
| MailSend.CrashLeavesUnclear | apps/mcp/src/mcp/tools.ts:690-716 | a concrete run that crashes while sending: the row stays pending and a retry is unclear |
| MailRestore.StepKeeps | apps/mcp/src/mcp/tools.ts:953-1035 | every step, in any interleaving, keeps each report of a restored id backed by the row's mark and each handler to its own connection's rows |
| MailRestore.RestoredAtMostOnce | apps/mcp/src/mcp/tools.ts:953-1035 | in every run a deletion is reported restored at most once, to the connection that made it, however often its id is given and however handlers interleave or crash |
| MailRestore.MarkedIffRestored | apps/mcp/src/store/operations.repository.ts:152-162 | in every run a row is marked restored if and only if some restore of it has come back from the mail server |
| MailRestore.ReportedIffRecorded | apps/mcp/src/mcp/tools.ts:994-1016 | in every run a deletion has been reported restored if and only if its first restore to come back was recorded |
| MailRestore.RowsLastAsTheirConnection | apps/mcp/src/mcp/tools.ts:885-912 | in every run a row is there exactly as long as a deletion has written it and its connection has not been deleted |
| MailRestore.CrashThenRestored | apps/mcp/src/mcp/tools.ts:953-1035 | a concrete run of a restore that crashes, one that succeeds and one that is told so |
| Mailbox.MoveAllKeeps | apps/mcp/src/mail/fake-backend.ts:349-358 | a batch of moves keeps UIDs unique and old UIDs meaning what they meant |
| Mailbox.UidsAreNeverReused | apps/mcp/src/mail/fake-backend.ts:116-142 | over every run of deliver, trash and restore, UIDs stay unique and below the next one and are never given to another message |
| MailboxConservation.MoveAllCounts | apps/mcp/src/mail/fake-backend.ts:349-358 | distinct references conserve the multiset of messages; a repeated one adds copies |
| MailboxConservation.TrashConserves | apps/mcp/src/mail/fake-backend.ts:335-359 | a successful batch conserves every message if and only if no message is named twice |
| MailboxConservation.RepeatedReferenceDuplicates | apps/mcp/src/mail/fake-backend.ts:341-358 | a concrete mailbox where naming a message twice duplicates it |
| MailboxRestore.MoveIsLocated | apps/mcp/src/mail/fake-backend.ts:351-357 | the reference a move returns locates exactly the message that was moved |
| MailboxRestore.RestoreMoves | apps/mcp/src/mail/fake-backend.ts:361-380 | a successful restore conserves the mailbox, places the message under a new UID and leaves the old reference empty |
| MailboxRestore.TrashRefuses | apps/mcp/src/mail/fake-backend.ts:335-350 | a batch succeeds if and only if no reference is in Trash, stale or gone, and is otherwise refused whole by its first such reference, with that reference's error |
| MailboxRestore.RestoreRefuses | apps/mcp/src/mail/fake-backend.ts:361-375 | a restore succeeds if and only if its target exists, its reference is not stale or gone and the message is the expected one, and is otherwise refused for the first of these |
| MailboxRestore.RestoresOnceAndExactly | apps/mcp/src/mail/fake-backend.ts:335-380 | whatever happens in between, a restore by a move's reference brings back that very message, and afterwards never succeeds again |
| MailboxRestore.FakeMailBackend.DeliverMessage | apps/mcp/src/mail/fake-backend.ts:116-142 | the message has the folder's next UID; the new state is the specified one and later than the old |
| MailboxRestore.FakeMailBackend.MoveToTrash | apps/mcp/src/mail/fake-backend.ts:335-359 | the first error and an untouched mailbox, or every message moved; the two loops compute the specified state and moves |
| MailboxRestore.FakeMailBackend.RestoreFromTrash | apps/mcp/src/mail/fake-backend.ts:361-380 | the specified error and an untouched mailbox, or the specified move |
| Paging.NextPage | apps/mcp/src/mail/fake-backend.ts:216-236 | what is older than a page's last message is the rest of the sorted list, so the cursor makes progress |
| Paging.PagesCoverOnce | apps/mcp/src/mail/fake-backend.ts:210-251 | following the cursor gives every message once in strictly descending order of UID |
| Paging.DeliveriesDoNotDisturb | apps/mcp/src/mail/imap-smtp-backend.ts:341-378 | messages delivered between pages neither appear nor hide or repeat an older one |
| Paging.UndisturbedListing | apps/mcp/src/mail/imap-smtp-backend.ts:341-378 | a listing followed to its end amid deliveries shows every message that was there, once, newest first |
| Reconciliation.ConnectionsService.ReconcileAll | apps/mcp/src/domain/connections.service.ts:866-926 | the loop, in whatever order it meets the bindings, reconciles each on its own and counts what happened |
| Reconciliation.ConnectionsService.ReconcileLive | apps/mcp/src/domain/connections.service.ts:877-924 | one turn of the loop does at most one of the three things and counts it |
| Reconciliation.ReconcileTwice | apps/mcp/src/domain/connections.service.ts:862-926 | a second pass over the same list changes nothing and reports zero |
| Reconciliation.VanishesAndReappears | apps/mcp/src/domain/connections.service.ts:881-923 | after any number of passes without it, an active binding seen unchanged has its state, credential and grants back; seen changed it has neither |
| Reconciliation.ChangedFingerprintWipesIff | apps/mcp/src/domain/connections.service.ts:902-912 | in one pass a changed fingerprint leaves no credential and no grant exactly when the binding was not stale already or held none |
| Reconciliation.StatusAcrossVanishing | apps/mcp/src/domain/connections.service.ts:81-109 | no connection of a missing mailbox is usable; back unchanged each has the status it had, back changed none is usable |
| Reconciliation.UsableIff | apps/mcp/src/domain/connections.service.ts:81-109 | a connection is usable if and only if it is neither revoked, disabled nor expired and its binding is active with a credential of the current vault key |
| ConnectionControl.StepKeeps | apps/mcp/src/domain/connections.service.ts:348-368 | every control step keeps one live binding per mailbox, every revoked connection revoked or gone and without a grant |
| ConnectionControl.RevokedIsForever | apps/mcp/src/domain/connections.service.ts:493-500 | over every run a connection once revoked leaves that state only by deletion |
| ConnectionControl.RevokedFromThenOn | apps/mcp/src/domain/connections.service.ts:712-741 | from the step that revokes a connection on, in every later state that still has it, it is revoked, without a grant and with the status revoked |
| ConnectionControl.RevokingRevokes | apps/mcp/src/domain/connections.service.ts:722-741 | revoking takes a connection's state and grants, and nothing of any other |
| ConnectionControl.DeletingRemoves | apps/mcp/src/domain/connections.service.ts:743-765 | deleting takes a connection and its grants away, and nothing of any other |
| ConnectionControl.SwitchingSwitches | apps/mcp/src/domain/connections.service.ts:684-710 | enabling and disabling set exactly that state of a connection that is not revoked |
| ConnectionControl.PasswordChangeWipes | apps/mcp/src/domain/connections.service.ts:797-838 | a changed password leaves the mailbox's binding stale, without credential or grant, and every other binding as it was |
| ConnectionControl.RejectionWipes | apps/mcp/src/domain/connections.service.ts:797-829 | a rejected credential leaves its binding invalid, without credential or grant, and every other binding as it was |
| ConnectionControl.ResolvingAnchors | apps/mcp/src/domain/connections.service.ts:348-368 | resolving a mailbox makes a fresh binding, takes over a changed one with nothing of its access left, or keeps an unchanged one with all of it |
| ConnectionControl.DeletedIsForever | apps/mcp/src/domain/connections.service.ts:751-765 | over every run a deleted connection never comes back |
| ConnectionControl.DeletedMailboxLeavesNothing | apps/mcp/src/domain/connections.service.ts:840-858 | the deletion leaves a revoked binding with no credential, no grant and only revoked connections, and the address gets a new binding |
| ConnectionFlights.TablesRun | apps/mcp/src/domain/connections.service.ts:375-431 | what the operations do to the tables, with whatever they hold on to while they await, is a run of the control steps |
| ConnectionFlights.BothResolve | apps/mcp/src/domain/connections.service.ts:375-396 | `create` and `updateCredentials` begin by giving the mailbox a live binding with the fingerprint just read, and hold on to that binding |
| ConnectionFlights.UpdateRepairs | apps/mcp/src/domain/connections.service.ts:582-605 | an update that nothing comes between leaves its binding active with the new credential, however it was before |
| ConnectionFlights.SealedUntilWritten | apps/mcp/src/domain/connections.service.ts:840-858 | over every run a deleted mailbox's binding keeps no credential, no grant and only revoked connections exactly until an operation with a write of it left makes that write, and meanwhile none begins |
| ConnectionFlights.DeletedForGoodIff | apps/mcp/src/domain/connections.service.ts:840-858 | after a deletion every possible continuation keeps the binding like that if and only if no operation under way at the deletion has a write of it left |
| ConnectionFlights.FirstWriteWasUnderWay | apps/mcp/src/domain/connections.service.ts:590-603 | in a run where it does not last, the first write was by an operation that had resolved the binding before the deletion |
| ConnectionFlights.DeletedMailboxRevives | apps/mcp/src/domain/connections.service.ts:590-603 | a concrete run of `create`, a rejected credential, and an update and another `create` that await across the deletion, which ends with a usable connection on the revoked binding |
| ConnectionControl.StaleIsWipedIff | apps/mcp/src/store/bindings.repository.ts:12-13 | over every run stale bindings hold no credential and no grant exactly as long as none is stored for one |
| ConnectionControl.ChangedFingerprintWipes | apps/mcp/src/domain/connections.service.ts:902-912 | until then, every pass that sees a live binding's fingerprint changed leaves it stale with neither |
| ConnectionControl.StaleBindingKeepsCredential | apps/mcp/src/domain/connections.service.ts:399-410 | a concrete run that leaves a credential on a stale binding |
| ConnectionControl.StaleCredentialRevives | apps/mcp/src/domain/connections.service.ts:881-923 | a concrete run in which such a credential becomes usable |
| Semaphore.EveryStateIsSound | apps/mcp/src/mail/imap-smtp-backend.ts:63-77 | in every run `active` counts the bodies running, waiters are woken in the order they queued, and while one waits no place is lost |
| Semaphore.LimitHoldsIff | apps/mcp/src/mail/imap-smtp-backend.ts:67-76 | in every run the places taken and promised stay within the limit if and only if no caller takes a place when all free ones are promised |
| Semaphore.LimitHolds | apps/mcp/src/mail/imap-smtp-backend.ts:67-76 | so they do in every run where nobody arrives between a wake and its resumption |
| Semaphore.OversoldOvershoots | apps/mcp/src/mail/imap-smtp-backend.ts:68-74 | a run that ends with more places taken and promised than the limit goes on, by the woken waiters resuming, to more bodies running than the limit |
| Semaphore.OversellingOvershoots | apps/mcp/src/mail/imap-smtp-backend.ts:68-74 | so does every run whose last step oversells |
| Semaphore.BargingMayBeHarmless | apps/mcp/src/mail/imap-smtp-backend.ts:67-76 | a concrete run in which a caller barges and nothing is oversold |
| Semaphore.OvershootIsReachable | apps/mcp/src/mail/imap-smtp-backend.ts:68-74 | a concrete run that exceeds the limit |
| Base32.Encode | apps/mcp/src/crypto/random.ts:12-25 | the loop on wrapping 32-bit words emits the leading big-endian 5-bit digits of the unbounded byte string, as many as fit and are asked for |
| Base32.InjectiveIff | apps/mcp/src/crypto/random.ts:12-44 | encoding tells n-byte strings apart if and only if n is a multiple of five and the length takes all 8n bits |
| Base32.SymbolsInjective | apps/mcp/src/crypto/random.ts:10-10 | distinct digits are written as distinct symbols |

## Left out

- The text of refusal messages and of result-file reasons: a refusal carries its kind and the entry name, a result its stage.
- Agreement of the guard with other tar readers: the guard's own whole-archive pass is the reference.
- Backpressure and error events of Node streams: `push` is appending to the output.
- UTF-8 decoding: the decoder is a parameter, and the writer's encoder is one that the decoder inverts on the names in use. Encoding is spelled out only where a record's length depends on it.
- A fixture write that runs past the end of the block is cut at the byte, not at the character.
- hostConfig and networkingConfig: one opaque value carried through; the fake inspects them as empty.
- Container listing order: when several containers have the configured name, any of them may be chosen.
- StatusOf: expiry and time are numbers, and reasons are left out.
- Mailbox authentication, flags, dates and attachments: a message is its UID and content, and the message id that `deliver` composes is taken as given.
- The matching predicates of list and search: paging is stated for whichever messages match.
- Hourly and daily send quotas: whether one is left is an input of the step.
- OAuth flows, enrollments and sender identities: a grant is added only for a usable connection, and removed, by arbitrary steps.
- The limit on connections per mailbox, and `create`'s other refusals: an operation may end at any time without writing. A `create` without a password does not await, but here other steps may come between its halves.
- A database write that fails while the failure of a send or the mark of a restored row is being recorded: the row stays as it was, as after a crash.
- The resolve, invalidate, enable, disable, revoke and delete operations on rows are functions on the stored tables, not methods: the rows are immutable values that the database replaces.
- The order in which woken waiters resume: any order is allowed.
- decodeTtyBuffer and demuxDockerStream, reference composition from registry overrides, setup passwords and tokens: one branch or one call each.
- HTTP routes, Docker and IMAP clients, SQLite, vault cryptography, configuration, the web application and the test servers.
