# Remote-delete propagation job, modelled in Dafny

This project models `PropagateRemoteDelete`, the job of the Nextcloud desktop sync client that
propagates a local "this item must disappear from the server" decision to the server. The
job is bound to one sync item and reports at most one terminal status (none when it was skipped because of an abort). It keeps the local
sync journal consistent with what the server confirmed, and it protects content that the user
excluded from sync (selective sync).

`start()` takes one of five paths:

- it stops silently when the propagator has already requested an abort;
- it runs a *partial delete* for a directory that has excluded descendants and a non-empty
  list of synced descendants;
- it reports Success at once for such a directory with an empty list;
- it delegates an encrypted item to one of two encrypted-delete helpers;
- otherwise it issues one *direct delete* request.

The partial delete walks the synced-descendant list with a cursor, one request at a time.
Each confirmed step removes that entry's journal record on a best-effort basis. The first
transport error other than "no error" or "not found" ends the job with SoftError. A direct
delete succeeds only on HTTP 204 or 404, and only when the journal then removes the item's
record and commits.

Files and modules:

- `types.dfy` (`RemoteDeleteTypes`): the sync item, network errors, replies, issued delete
  requests, outcomes, the remote-name chop and the lock `If` header.
- `journal.dfy` (`SyncJournal`): the journal as a set of record paths and a commit counter.
  `Journal` is a class whose `DeleteFileRecord` and `Commit` change it in place.
- `spec.dfy` (`RemoteDeleteSpec`): the job's abstract state (`JobState`) and one pure
  transition per entry point and completion handler. It also holds the invariant `Valid`,
  which every transition keeps, and two kinds of run: over arbitrary event sequences (`Run`)
  and over partial-delete replies (`RunPartial`).
- `properties.dfy` (`RemoteDeleteProperties`): the guarantees, as lemmas about those
  transitions.
- `job.dfy` (`PropagateRemoteDelete`): the class `PropagateRemoteDeleteJob`. Its fields are
  the job's fields, and its methods update them step by step as the C++ code does. Each
  method is proved to change `State()` exactly as the matching transition of
  `RemoteDeleteSpec` does, so the lemmas of `RemoteDeleteProperties` apply to the class.

Collaborators are inputs:

- The network reply arrives as a `Reply` with an error, an HTTP status, a reason phrase, an
  error string, a timestamp and a request id.
- The selective-sync answers of the journal are arguments of `Start`.
- The error classifier is an arbitrary function `(NetworkError, int) -> Status`.
- The journal's failure to delete a record is modelled as a fixed set of paths that the
  database refuses to delete.
- The encrypted delegate's single `finished(success)` notification arrives as a method call
  that carries the delegate's last network error and error string.

Points where the code may surprise a reader:

- `abort()` aborts only the reply of the outstanding delete request (`_job`). It does not
  cancel an encrypted delegate (propagateremotedelete.cpp:106-114).
- The direct delete removes the journal record of the item's *original* path
  `_originalFile`, recursively for a directory (propagateremotedelete.cpp:151). It is not the
  record of `_file`.
- The direct delete chops the virtual-file suffix from the remote name
  (propagateremotedelete.cpp:85-91). A partial step does not chop it.
- A partial step builds its `If` header from the item's own path, not from the descendant's
  path (propagateremotedelete.cpp:189). It deletes the descendant's record non-recursively
  (propagateremotedelete.cpp:217).
- propagateremotedelete.cpp:32 reads `_item->isDirectory` without a call. It is modelled as
  the item's `isDirectory()`, as at propagateremotedelete.h:38 and propagateremotedelete.cpp:151.

## Model

| member | source | states |
|---|---|---|
| RemoteDeleteTypes.Chop | src/libsync/propagateremotedelete.cpp:89 | the chopped name is a prefix of the name, shorter by the chop length, and empty when the chop length covers the whole name |
| RemoteDeleteTypes.RemoteFileName | src/libsync/propagateremotedelete.cpp:84-91 | the remote name is a prefix of the local path. It is the path itself unless the item is a virtual file in suffix mode. Then it is shorter by the suffix length, and empty when the path is no longer than the suffix |
| RemoteDeleteTypes.RemoteFileNameDropsSuffix | src/libsync/propagateremotedelete.cpp:85-91 | for a virtual file whose name ends with the suffix, the remote name is the name without the suffix |
| RemoteDeleteTypes.LockHeader | src/libsync/propagateremotedelete.cpp:95-98 | an `If` header is present exactly when the item is locked |
| RemoteDeleteProperties.PartialRequestUsesTheItemLockHeader | src/libsync/propagateremotedelete.cpp:187-190 | a partial-delete request carries the same `If` header as a direct delete of any path: the item's own lock header, whichever descendant it targets |
| SyncJournal.RemoveRecord | src/libsync/propagateremotedelete.cpp:151 | the path's record is gone; recursive removal also removes every record below the path; no other record is removed and none is added |
| SyncJournal.RemoveRecordFlat | src/libsync/propagateremotedelete.cpp:217 | non-recursive removal takes out exactly the one path |
| SyncJournal.Journal.DeleteFileRecord | src/libsync/propagateremotedelete.cpp:151-155 | reports success exactly when the database does not refuse the path; on success the records are the old ones minus that record, on failure they are unchanged; it never commits |
| SyncJournal.Journal.Commit | src/libsync/propagateremotedelete.cpp:157 | one more commit, records unchanged |
| RemoteDeleteSpec.Decide | src/libsync/propagateremotedelete.cpp:27-77 | all five paths of start() as if-and-only-if conditions: skip on abort; partial delete iff directory, excluded descendants and a non-empty list; trivial success iff the same with an empty list; the plain-encrypted delegate iff the encrypted name is known; the root-folder delegate iff the item is only flagged encrypted; otherwise a direct delete |
| RemoteDeleteSpec.InitialIsValid | src/libsync/propagateremotedelete.h:28-33 | a fresh job (cursor 0, partial mode false, nothing issued) satisfies the invariant |
| RemoteDeleteSpec.DeleteNextSyncedItemIsValid | src/libsync/propagateremotedelete.cpp:162-180 | inside the list, the request for the entry at the cursor is appended and becomes the outstanding handle; the job waits for it in partial mode. Past the last entry, partial mode is cleared, Success is reported once and no request is added. Either way the cursor, the records and the commits are unchanged, and the invariant holds |
| RemoteDeleteSpec.CreateDeleteJobIsValid | src/libsync/propagateremotedelete.cpp:81-104 | issuing the direct request from a fresh job keeps the invariant, and that first request is the outstanding handle |
| RemoteDeleteSpec.ApplyPreservesValid | src/libsync/propagateremotedelete.h:50-52 | every transition keeps the invariant. The invariant: 0 ≤ cursor ≤ list length; the handle is the last issued request; an outstanding partial request targets the entry at the cursor; partial mode implies a non-empty list; one outcome counted exactly when finished |
| RemoteDeleteProperties.PartialStepConfirmed | src/libsync/propagateremotedelete.cpp:215-223 | a "gone" reply removes the entry's record unless the journal refuses it, and advances the cursor by one. Then the job either issues the request for the next entry or clears partial mode and succeeds. Nothing else changes |
| RemoteDeleteProperties.PartialRunAllConfirmed | src/libsync/propagateremotedelete.cpp:162-223 | when all replies say "gone", the run ends with cursor = N and partial mode cleared. The requests are exactly those for the remaining entries, in order; the records of those entries are removed unless the journal refuses them, and one Success is reported. Nothing else changes |
| RemoteDeleteProperties.PartialRunFailFast | src/libsync/propagateremotedelete.cpp:209-213 | the first reply at cursor j with another transport error ends the run with one SoftError carrying the reply's error string. The cursor stays at j, and no request follows the one for entry j. Only the records of the entries before j are removed |
| RemoteDeleteProperties.PartialRunOnlyTargetsDescendants | src/libsync/propagateremotedelete.cpp:174-192 | whatever the replies, every request the protocol adds is a partial-delete request whose target is in the descendant list; earlier requests are kept unchanged |
| RemoteDeleteProperties.PartialRecordFailureSwallowed | src/libsync/propagateremotedelete.cpp:215-223 | a refused record deletion in a partial step changes no record and no commit; the cursor still moves on by exactly one, and the job goes on (or succeeds after the last entry) |
| RemoteDeleteProperties.PartialDeletionSucceeds | src/libsync/propagateremotedelete.cpp:40-47 | from start(), N synced descendants all confirmed give exactly N requests, for list[0..N-1] in order. The directory itself is never requested (unless it is one of its own descendants). The run ends with cursor N, partial mode cleared, and exactly one Success; the journal loses the confirmed records and is never committed |
| RemoteDeleteProperties.PartialDeletionFailsFast | src/libsync/propagateremotedelete.cpp:209-223 | from start(), a bad transport error at entry j gives SoftError exactly once. Partial mode stays set, the cursor stays at j, and exactly j+1 requests are issued, for list[0..j]. The records of list[0..j-1] are removed where the journal could; every record of a path not among them, list[j..N-1] included, is untouched |
| RemoteDeleteProperties.SkippedJobStaysSilent | src/libsync/propagateremotedelete.cpp:27-28 | after a start() that saw an abort request, every further run of events leaves the job unchanged: no outcome is ever reported |
| RemoteDeleteProperties.StartAfterAbortIsInert | src/libsync/propagateremotedelete.cpp:27-28 | with an abort requested, start() reports nothing, issues no request and touches no journal record |
| RemoteDeleteProperties.NothingToDeleteSucceeds | src/libsync/propagateremotedelete.cpp:48-53 | a directory with excluded descendants and an empty list gets Success at once, with zero requests and an unchanged, uncommitted journal |
| RemoteDeleteProperties.EncryptedItemIsDelegated | src/libsync/propagateremotedelete.cpp:58-63 | an encrypted item is handed to a delegate: the plain-encrypted variant when the encrypted name is known, else the root-folder variant. The job itself issues no request and removes no record |
| RemoteDeleteProperties.PlainItemIsDeletedDirectly | src/libsync/propagateremotedelete.cpp:76-99 | any other item gets exactly one direct request, for its remote name; it carries the `If` header iff the item is locked and skips the trash bin iff permanent deletion is wanted |
| RemoteDeleteProperties.QuickJobIssuesAtMostOneRequest | src/libsync/propagateremotedelete.h:38 | under any sequence of events, a job for a non-directory (the kind that reports itself likely to finish quickly) is never in partial mode, never waits for a partial-delete reply and has issued at most one request |
| RemoteDeleteProperties.DirectDeleteTransportError | src/libsync/propagateremotedelete.cpp:122-134 | a transport error other than "gone" yields the classifier's status for (error, HTTP status) and the error's category. The item's HTTP code is set, and the journal is untouched |
| RemoteDeleteProperties.DirectDeleteUnexpectedStatus | src/libsync/propagateremotedelete.cpp:140-149 | with no transport error and a status other than 204 and 404: NormalError naming the status and reason phrase, the journal unchanged and no commit |
| RemoteDeleteProperties.DirectDeleteConfirmed | src/libsync/propagateremotedelete.cpp:151-159 | on 204 or 404, a refused record removal gives NormalError and no commit. Otherwise the item's original-path record (recursively for a directory) is removed, one commit follows, and the outcome is Success |
| RemoteDeleteProperties.DirectDeleteSucceedsIff | src/libsync/propagateremotedelete.cpp:128-159 | a direct delete ends with the Success outcome (no message, no error category) exactly when the reply says "gone" with status 204 or 404 and the journal removes the record |
| RemoteDeleteProperties.DirectDeleteStatusSuccessIff | src/libsync/propagateremotedelete.cpp:128-159 | with a classifier that only returns error statuses, the reported status alone is Success exactly when the reply says "gone" with status 204 or 404 and the journal removes the record |
| RemoteDeleteProperties.EncryptedOutcome | src/libsync/propagateremotedelete.cpp:64-74 | delegate success gives Success. Delegate failure gives NormalError with the delegate's error string, unless its network error is other than "gone"; then the classifier decides. The job itself issues no request and removes no record |
| RemoteDeleteProperties.AbortCancelsOnlyTheOutstandingRequest | src/libsync/propagateremotedelete.cpp:106-114 | while a delete reply is outstanding, abort() adds that request (the last one issued) to the aborted replies. The new state is the old one with only that change. A job waiting for a delegate, or not waiting at all, is left exactly as it was |
| RemoteDeleteProperties.OutcomeIsReportedOnceAndFinal | src/libsync/propagateremotedelete.h:21-53 | under any sequence of events the invariant holds, so at most one outcome is ever reported and the handle is always the latest request. Once an outcome is reported, the outcome, the requests and the journal never change again |
| RemoteDeleteProperties.CursorNeverMovesBack | src/libsync/propagateremotedelete.cpp:38-222 | once started, under any sequence of events the cursor never decreases and the synced-descendant list is never changed. The list is assigned only in start() (line 38), and the cursor only moves forward (line 222) |
| PropagateRemoteDelete.PropagateRemoteDeleteJob.constructor | src/libsync/propagateremotedelete.h:28-33 | a new job has cursor 0, partial mode false, no request and no outcome, and satisfies the invariant |
| PropagateRemoteDelete.PropagateRemoteDeleteJob.IsLikelyFinishedQuickly | src/libsync/propagateremotedelete.h:38 | true exactly for a non-directory. For such a job, every valid state has partial mode off, no partial-delete reply awaited and at most one issued request |
| PropagateRemoteDelete.PropagateRemoteDeleteJob.Done | src/libsync/propagateremotedelete.cpp:52 | records the terminal outcome and counts one report. It may be called only while no outcome is reported, and every call site in the class is proved to meet that |
| PropagateRemoteDelete.PropagateRemoteDeleteJob.Start | src/libsync/propagateremotedelete.cpp:22-79 | keeps the invariant and changes the state exactly as `RemoteDeleteSpec.Start` does (decision tree above) |
| PropagateRemoteDelete.PropagateRemoteDeleteJob.CreateDeleteJob | src/libsync/propagateremotedelete.cpp:81-104 | on a fresh job, appends one direct request (remote name, lock header, trash-bin flag) and makes it the outstanding handle; keeps the invariant |
| PropagateRemoteDelete.PropagateRemoteDeleteJob.SlotDeleteJobFinished | src/libsync/propagateremotedelete.cpp:116-160 | writes the item's HTTP code, timestamp and request id, then maps the reply as `RemoteDeleteSpec.SlotDeleteJobFinished` does; keeps the invariant |
| PropagateRemoteDelete.PropagateRemoteDeleteJob.DeleteNextSyncedItem | src/libsync/propagateremotedelete.cpp:162-180 | issues the request for the entry at the cursor, or clears partial mode and reports Success when the cursor reached the end |
| PropagateRemoteDelete.PropagateRemoteDeleteJob.CreatePartialDeleteJob | src/libsync/propagateremotedelete.cpp:182-197 | appends one partial request for the descendant, with the item's lock header, and makes it the outstanding handle |
| PropagateRemoteDelete.PropagateRemoteDeleteJob.SlotPartialDeleteJobFinished | src/libsync/propagateremotedelete.cpp:199-224 | SoftError on a bad transport error; otherwise a best-effort record removal, the cursor advanced by one, and the next step. Keeps the invariant |
| PropagateRemoteDelete.PropagateRemoteDeleteJob.EncryptedHelperFinished | src/libsync/propagateremotedelete.cpp:64-74 | maps the delegate's notification to the outcome as `RemoteDeleteSpec.EncryptedHelperFinished` does; keeps the invariant |
| PropagateRemoteDelete.PropagateRemoteDeleteJob.Abort | src/libsync/propagateremotedelete.cpp:106-114 | cancels the outstanding request's reply, if any, and signals abort completion exactly for an asynchronous abort |
| PropagateRemoteDelete.PropagateRemoteDeleteJob.RunPartialDeletion | src/libsync/propagateremotedelete.cpp:199-223 | feeds replies to the partial-delete handler while the job waits for one; the resulting state is `RemoteDeleteSpec.RunPartial` of the old state, so the partial-run lemmas above apply to it |

## Left out

- Qt signal/slot wiring, `QPointer` lifetime and object ownership: completions are method calls carrying their payload. The `_job` handle is the index of the most recently issued request.
- The race between `abort()` and late completion callbacks, and scheduler-level concurrency. An aborted reply is recorded in `cancelled`; what the transport reports afterwards arrives as an ordinary reply.
- `DeleteJob`/`QNetworkReply` internals and URL construction (`fullRemotePath`, the account's DAV URL): a request records the path passed to `fullRemotePath`, and the DAV URL is an opaque string.
- `classifyError` is an arbitrary function, and its `_anotherSyncNeeded` side effect is not modelled. `errorCategoryFromNetworkError` becomes the symbolic category `FromNetworkError(err)`.
- EncryptedItemIsDelegated, EncryptedOutcome: the encrypted-delete helpers' own delete requests and journal updates are not modelled. These lemmas state only what the job itself does: it issues no request and removes no record.
- Done: records the outcome and counts one report. The inherited `PropagateItemJob::done()` is not part of this model, nor is what it writes into the item (status, error string, category) or the signal it emits.
- The internals of the two encrypted-delete helpers, and any fields they write into the item. The encrypted-failure classification uses the item's HTTP code as the job last wrote it.
- Logging and translated message text: messages are the symbolic `Message` values.
- `_activeJobList` bookkeeping (append and removeOne): scheduler plumbing with no effect on the job's outcome.
- The `propagator()` and `syncJournal()` null checks at propagateremotedelete.cpp:32: the model assumes both exist, as propagateremotedelete.cpp:27 already dereferences the propagator.
- The build constant `APPLICATION_DOTVIRTUALFILE_SUFFIX` and the VFS mode: both are constructor parameters, because their values are not part of this model.
- `SyncJournalDb`: only its contract is modelled. A database refusal is a fixed set of refused paths, and `deleteFileRecord` on a refused path changes nothing.
- `performPartialDelete` is declared in the header but never defined or called, so there is nothing to model.
- `_currentDeleteIndex` is a C++ `int`; the model uses an unbounded natural number, since it never exceeds the list length.
