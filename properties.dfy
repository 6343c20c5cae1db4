/** What the remote-delete job guarantees: the decision tree of start(), the partial-delete
    protocol, the direct-delete completion mapping, encrypted delegation, abort, and that an
    outcome is reported at most once and is final. */
module RemoteDeleteProperties {
  import opened RemoteDeleteTypes
  import opened SyncJournal
  import opened RemoteDeleteSpec

  // ---------------------------------------------------------------------------------------
  // Helpers about the request log and the removed records

  lemma {:induction false} PartialRequestsAt(env: Env, paths: seq<string>)
    ensures |PartialRequests(env, paths)| == |paths|
    ensures forall i :: 0 <= i < |paths| ==> PartialRequests(env, paths)[i] == PartialRequest(env, paths[i])
    decreases |paths|
  {
    if paths != [] {
      PartialRequestsAt(env, paths[1..]);
    }
  }

  lemma ConfirmedSplit(paths: seq<string>, failing: set<string>)
    requires paths != []
    ensures Confirmed(paths, failing) == Confirmed([paths[0]], failing) + Confirmed(paths[1..], failing)
  {
    assert paths == [paths[0]] + paths[1..];
  }

  /** One partial-delete step whose reply says the descendant is gone. */
  lemma PartialStepConfirmed(env: Env, st: JobState, reply: Reply)
    requires Valid(env, st) && st.phase == AwaitingPartialReply
    requires IsNoErrorOrNotFound(reply.err)
    ensures var L, k := st.syncedItemsToDelete, st.currentDeleteIndex;
            var next := SlotPartialDeleteJobFinished(env, st, reply);
            && next.records == st.records - Confirmed([L[k]], env.failingRecords)
            && (k + 1 < |L| ==>
                  next == st.(currentDeleteIndex := k + 1, records := next.records,
                              requests := st.requests + [PartialRequest(env, L[k + 1])],
                              job := Some(|st.requests|)))
            && (k + 1 == |L| ==>
                  next == st.(currentDeleteIndex := k + 1, records := next.records, isPartialDeleteMode := false,
                              phase := Finished(SuccessOutcome), doneCalls := st.doneCalls + 1))
  {
    var L, k := st.syncedItemsToDelete, st.currentDeleteIndex;
    RemoveRecordFlat(st.records, L[k]);
  }

  // ---------------------------------------------------------------------------------------
  // The partial-delete protocol

  /** The final state of a partial run that confirmed every descendant from cursor k on. */
  function AllConfirmedFrom(env: Env, st: JobState): JobState
    requires st.currentDeleteIndex <= |st.syncedItemsToDelete|
  {
    var L, k := st.syncedItemsToDelete, st.currentDeleteIndex;
    var requests := st.requests + PartialRequests(env, if k < |L| then L[k + 1..] else []);
    st.(currentDeleteIndex := |L|, isPartialDeleteMode := false,
        requests := requests, job := if requests == [] then None else Some(|requests| - 1),
        records := st.records - Confirmed(L[k..], env.failingRecords),
        phase := Finished(SuccessOutcome), doneCalls := st.doneCalls + 1)
  }

  /** One confirmed step followed by a fully confirmed rest is a fully confirmed run. */
  lemma AllConfirmedStep(env: Env, st: JobState, reply: Reply)
    requires Valid(env, st) && st.phase == AwaitingPartialReply
    requires IsNoErrorOrNotFound(reply.err)
    ensures var next := SlotPartialDeleteJobFinished(env, st, reply);
            && next.currentDeleteIndex <= |next.syncedItemsToDelete|
            && (next.phase.Finished? ==> next == AllConfirmedFrom(env, st))
            && (!next.phase.Finished? ==> AllConfirmedFrom(env, next) == AllConfirmedFrom(env, st))
  {
    var L, k := st.syncedItemsToDelete, st.currentDeleteIndex;
    PartialStepConfirmed(env, st, reply);
    ConfirmedSplit(L[k..], env.failingRecords);
    assert L[k..][1..] == L[k + 1..];
    if k + 1 < |L| {
      assert L[k + 1..][1..] == L[k + 2..];
    }
  }

  /** When every reply says "gone", the protocol issues one request per remaining descendant,
      in list order, removes their records (except those the journal fails on), clears
      partial mode and succeeds. Nothing else changes. */
  lemma {:induction false} PartialRunAllConfirmed(env: Env, st: JobState, replies: seq<Reply>)
    requires Valid(env, st) && st.phase == AwaitingPartialReply
    requires |replies| == |st.syncedItemsToDelete| - st.currentDeleteIndex
    requires forall i :: 0 <= i < |replies| ==> IsNoErrorOrNotFound(replies[i].err)
    ensures RunPartial(env, st, replies) == AllConfirmedFrom(env, st)
    decreases |replies|
  {
    var next := SlotPartialDeleteJobFinished(env, st, replies[0]);
    AllConfirmedStep(env, st, replies[0]);
    if next.phase == AwaitingPartialReply {
      ApplyPreservesValid(env, st, PartialReply(replies[0]));
      forall i | 0 <= i < |replies[1..]| ensures IsNoErrorOrNotFound(replies[1..][i].err) {
        assert replies[1..][i] == replies[i + 1];
      }
      PartialRunAllConfirmed(env, next, replies[1..]);
    }
  }

  /** The first reply with a transport error other than "gone", at position j of the list,
      ends the job with SoftError: the cursor stays at j, no request after the one for L[j]
      is issued, and only the records of L[k..j] were removed. */
  lemma {:induction false} PartialRunFailFast(env: Env, st: JobState, replies: seq<Reply>, j: nat)
    requires Valid(env, st) && st.phase == AwaitingPartialReply
    requires st.currentDeleteIndex <= j < |st.syncedItemsToDelete|
    requires j - st.currentDeleteIndex < |replies|
    requires forall i :: 0 <= i < j - st.currentDeleteIndex ==> IsNoErrorOrNotFound(replies[i].err)
    requires !IsNoErrorOrNotFound(replies[j - st.currentDeleteIndex].err)
    ensures var L, k := st.syncedItemsToDelete, st.currentDeleteIndex;
            var requests := st.requests + PartialRequests(env, L[k + 1..j + 1]);
            RunPartial(env, st, replies) ==
              st.(currentDeleteIndex := j, requests := requests, job := Some(|requests| - 1),
                  records := st.records - Confirmed(L[k..j], env.failingRecords),
                  phase := Finished(Outcome(SoftError, ErrorString(replies[j - k].errorString), GenericError)),
                  doneCalls := st.doneCalls + 1)
    decreases |replies|
  {
    var L, k := st.syncedItemsToDelete, st.currentDeleteIndex;
    assert env.item.IsDirectory();
    var next := SlotPartialDeleteJobFinished(env, st, replies[0]);
    if k == j {
      assert L[k..j] == [];
      assert Confirmed([], env.failingRecords) == {};
      assert L[k + 1..j + 1] == [];
      assert RunPartial(env, next, replies[1..]) == next;
    } else {
      PartialStepConfirmed(env, st, replies[0]);
      ApplyPreservesValid(env, st, PartialReply(replies[0]));
      forall i | 0 <= i < j - (k + 1) ensures IsNoErrorOrNotFound(replies[1..][i].err) {
        assert replies[1..][i] == replies[i + 1];
      }
      assert replies[1..][j - (k + 1)] == replies[j - k];
      PartialRunFailFast(env, next, replies[1..], j);
      ConfirmedSplit(L[k..j], env.failingRecords);
      assert L[k..j][1..] == L[k + 1..j];
      assert L[k + 1..j + 1][1..] == L[k + 2..j + 1];
    }
  }

  /** Whatever the replies, every request the protocol issues is a partial-delete request for
      a member of the descendant list. */
  lemma {:induction false} PartialRunOnlyTargetsDescendants(env: Env, st: JobState, replies: seq<Reply>)
    requires Valid(env, st)
    ensures var r := RunPartial(env, st, replies);
            && r.syncedItemsToDelete == st.syncedItemsToDelete
            && |st.requests| <= |r.requests| && r.requests[..|st.requests|] == st.requests
            && forall i :: |st.requests| <= i < |r.requests| ==>
                 r.requests[i].slot == PartialDeleteJobFinished && r.requests[i].target in st.syncedItemsToDelete
    decreases |replies|
  {
    var r := RunPartial(env, st, replies);
    if replies != [] && st.phase == AwaitingPartialReply && st.currentDeleteIndex < |st.syncedItemsToDelete| {
      var next := SlotPartialDeleteJobFinished(env, st, replies[0]);
      ApplyPreservesValid(env, st, PartialReply(replies[0]));
      PartialRunOnlyTargetsDescendants(env, next, replies[1..]);
      assert |st.requests| <= |next.requests| <= |st.requests| + 1;
      assert next.requests[..|st.requests|] == st.requests;
      assert r.requests[..|next.requests|] == next.requests;
      forall i | |st.requests| <= i < |r.requests|
        ensures r.requests[i].slot == PartialDeleteJobFinished && r.requests[i].target in st.syncedItemsToDelete
      {
        if i < |next.requests| {
          assert r.requests[i] == next.requests[i];
          assert next.requests[i] == PartialRequest(env, st.syncedItemsToDelete[st.currentDeleteIndex + 1]);
        }
      }
    }
  }

  /** A journal failure to delete one descendant's record is swallowed: the cursor still moves
      on by exactly one and the job goes on (or succeeds after the last one). */
  lemma PartialRecordFailureSwallowed(env: Env, st: JobState, reply: Reply)
    requires Valid(env, st) && st.phase == AwaitingPartialReply
    requires IsNoErrorOrNotFound(reply.err)
    requires st.syncedItemsToDelete[st.currentDeleteIndex] in env.failingRecords
    ensures var next := SlotPartialDeleteJobFinished(env, st, reply);
            && next.records == st.records && next.commits == st.commits
            && next.currentDeleteIndex == st.currentDeleteIndex + 1
            && (next.phase == AwaitingPartialReply <==> next.currentDeleteIndex < |st.syncedItemsToDelete|)
            && (next.phase != AwaitingPartialReply ==> next.phase == Finished(SuccessOutcome))
  {
  }

  /** A partial-delete request carries the very `If` header of a direct delete of any path:
      the lock header of the item being propagated, whatever descendant it targets. */
  lemma PartialRequestUsesTheItemLockHeader(env: Env, descendant: string, filename: string)
    ensures PartialRequest(env, descendant).ifHeader == DirectRequest(env, filename).ifHeader
    ensures PartialRequest(env, descendant).ifHeader == LockHeader(env.item, env.davUrl)
  {
  }

  // ---------------------------------------------------------------------------------------
  // start(): from a freshly constructed job through the partial protocol

  /** A directory with excluded descendants and N synced ones, all confirmed gone: exactly N
      requests, for the list in order, never one for the directory itself (when it is not
      its own descendant); cursor N, partial mode cleared, Success, one outcome. */
  lemma PartialDeletionSucceeds(env: Env, st: JobState, synced: seq<string>, replies: seq<Reply>)
    requires Valid(env, st) && st.phase == NotStarted
    requires env.item.IsDirectory() && synced != []
    requires |replies| == |synced|
    requires forall i :: 0 <= i < |replies| ==> IsNoErrorOrNotFound(replies[i].err)
    ensures var r := RunPartial(env, Start(env, st, false, true, synced), replies);
            && r.phase == Finished(SuccessOutcome) && r.doneCalls == 1
            && r.currentDeleteIndex == |synced| && !r.isPartialDeleteMode
            && |r.requests| == |synced|
            && (forall i :: 0 <= i < |synced| ==> r.requests[i] == PartialRequest(env, synced[i]))
            && (env.item.file !in synced ==> forall q :: q in r.requests ==> q.target != env.item.file)
            && r.records == st.records - Confirmed(synced, env.failingRecords)
            && r.commits == st.commits
  {
    var st1 := Start(env, st, false, true, synced);
    ApplyPreservesValid(env, st, StartEvent(false, true, synced));
    PartialRunAllConfirmed(env, st1, replies);
    assert synced[0..] == synced;
    assert [PartialRequest(env, synced[0])] + PartialRequests(env, synced[1..]) == PartialRequests(env, synced);
    PartialRequestsAt(env, synced);
  }

  /** A directory with excluded descendants whose j-th delete fails with a transport error
      other than "gone": SoftError once, cursor j, requests for synced[0..j] only, the records
      of synced[..j] removed (where the journal could) and every other record untouched. */
  lemma PartialDeletionFailsFast(env: Env, st: JobState, synced: seq<string>, replies: seq<Reply>, j: nat)
    requires Valid(env, st) && st.phase == NotStarted
    requires env.item.IsDirectory()
    requires j < |synced| && j < |replies|
    requires forall i :: 0 <= i < j ==> IsNoErrorOrNotFound(replies[i].err)
    requires !IsNoErrorOrNotFound(replies[j].err)
    ensures var r := RunPartial(env, Start(env, st, false, true, synced), replies);
            && r.phase == Finished(Outcome(SoftError, ErrorString(replies[j].errorString), GenericError))
            && r.doneCalls == 1
            && r.currentDeleteIndex == j && r.isPartialDeleteMode
            && |r.requests| == j + 1
            && (forall i :: 0 <= i <= j ==> r.requests[i] == PartialRequest(env, synced[i]))
            && (forall p :: p in synced[..j] && p !in env.failingRecords ==> p !in r.records)
            && (forall p :: p !in synced[..j] ==> (p in r.records <==> p in st.records))
            && r.commits == st.commits
  {
    var st0 := st.(syncedItemsToDelete := synced, isPartialDeleteMode := true);
    var st1 := Start(env, st, false, true, synced);
    assert st1 == DeleteNextSyncedItem(env, st0);
    DeleteNextSyncedItemIsValid(env, st0);
    PartialRunFailFast(env, st1, replies, j);
    assert synced[..j + 1] == [synced[0]] + synced[1..j + 1];
    assert [PartialRequest(env, synced[0])] + PartialRequests(env, synced[1..j + 1]) == PartialRequests(env, synced[..j + 1]);
    PartialRequestsAt(env, synced[..j + 1]);
    assert synced[0..j] == synced[..j];
  }

  /** With an abort already requested, start() reports nothing, issues nothing and touches no
      record; the job then stays silent under any further events. */
  lemma {:induction false} SkippedJobStaysSilent(env: Env, st: JobState, events: seq<Event>)
    requires st.phase == SkippedOnAbort
    ensures Run(env, st, events).Some? ==> Run(env, st, events) == Some(st)
    decreases |events|
  {
    if events != [] && Enabled(st, events[0]) {
      assert events[0] == AbortEvent;
      SkippedJobStaysSilent(env, st, events[1..]);
    }
  }

  lemma StartAfterAbortIsInert(env: Env, st: JobState, hasExcludedDescendants: bool, synced: seq<string>)
    requires Valid(env, st) && st.phase == NotStarted
    ensures var r := Start(env, st, true, hasExcludedDescendants, synced);
            && r.phase == SkippedOnAbort && r.doneCalls == 0
            && r.requests == [] && r.records == st.records && r.commits == st.commits
            && r.syncedItemsToDelete == [] && r.currentDeleteIndex == 0 && !r.isPartialDeleteMode
  {
  }

  /** A directory with excluded descendants but no synced ones: Success at once, zero
      requests, journal unchanged. */
  lemma NothingToDeleteSucceeds(env: Env, st: JobState)
    requires Valid(env, st) && st.phase == NotStarted
    requires env.item.IsDirectory()
    ensures var r := Start(env, st, false, true, []);
            && r.phase == Finished(SuccessOutcome) && r.doneCalls == 1
            && r.requests == [] && r.records == st.records && r.commits == st.commits
            && !r.isPartialDeleteMode
  {
  }

  /** An encrypted item (outside the partial case) is handed to a delegate: the plain variant
      when its encrypted name is known, else the root-folder variant; no delete request. */
  lemma EncryptedItemIsDelegated(env: Env, st: JobState, hasExcludedDescendants: bool, synced: seq<string>)
    requires Valid(env, st) && st.phase == NotStarted
    requires !(env.item.IsDirectory() && hasExcludedDescendants)
    requires env.item.encryptedFileName != [] || env.item.isEncrypted
    ensures var r := Start(env, st, false, hasExcludedDescendants, synced);
            && r.phase == AwaitingDelegate && r.requests == [] && r.job == None
            && r.helper == Some(if env.item.encryptedFileName != [] then PlainEncrypted else EncryptedRootFolder)
            && r.records == st.records && r.commits == st.commits
  {
  }

  /** Any other item gets one direct delete request for its remote name, with the lock header
      exactly when the item is locked. */
  lemma PlainItemIsDeletedDirectly(env: Env, st: JobState, hasExcludedDescendants: bool, synced: seq<string>)
    requires Valid(env, st) && st.phase == NotStarted
    requires !(env.item.IsDirectory() && hasExcludedDescendants)
    requires env.item.encryptedFileName == [] && !env.item.isEncrypted
    ensures var r := Start(env, st, false, hasExcludedDescendants, synced);
            && r.phase == AwaitingDeleteReply && r.job == Some(0)
            && r.requests == [DirectRequest(env, env.item.file)]
            && r.requests[0].target ==
                 RemoteFileName(env.item.file, env.item.itemType, env.vfsWithSuffix, env.virtualFileSuffix)
            && (r.requests[0].ifHeader.Some? <==> env.item.locked)
            && r.requests[0].skipTrashbin == env.item.wantsPermanentDeletion
            && r.records == st.records && r.commits == st.commits
  {
  }

  /** A job that calls itself likely to finish quickly (a non-directory) never enters
      partial mode, never waits for a partial-delete reply and issues at most one request,
      under any sequence of events. */
  lemma QuickJobIssuesAtMostOneRequest(env: Env, st: JobState, events: seq<Event>)
    requires Valid(env, st) && !env.item.IsDirectory()
    requires Run(env, st, events).Some?
    ensures var r := Run(env, st, events).value;
            !r.isPartialDeleteMode && r.phase != AwaitingPartialReply && |r.requests| <= 1
  {
    OutcomeIsReportedOnceAndFinal(env, st, events);
  }

  // ---------------------------------------------------------------------------------------
  // Completion of the direct delete

  /** A transport error other than "gone" is reported with the classifier's status and the
      error's category; the journal is not touched. */
  lemma DirectDeleteTransportError(env: Env, st: JobState, reply: Reply)
    requires !IsNoErrorOrNotFound(reply.err)
    ensures var r := SlotDeleteJobFinished(env, st, reply);
            && r.phase == Finished(Outcome(env.classify(reply.err, reply.httpStatus),
                                           ErrorString(reply.errorString), FromNetworkError(reply.err)))
            && r.records == st.records && r.commits == st.commits
            && r.httpErrorCode == reply.httpStatus
  {
  }

  /** Any HTTP status but 204 and 404 is a NormalError; the journal is not touched. */
  lemma DirectDeleteUnexpectedStatus(env: Env, st: JobState, reply: Reply)
    requires IsNoErrorOrNotFound(reply.err)
    requires reply.httpStatus != 204 && reply.httpStatus != 404
    ensures var r := SlotDeleteJobFinished(env, st, reply);
            && r.phase == Finished(Outcome(NormalError, WrongHttpCode(reply.httpStatus, reply.reasonPhrase), GenericError))
            && r.records == st.records && r.commits == st.commits
            && r.httpErrorCode == reply.httpStatus && r.requestId == reply.requestId
  {
  }

  /** 204 or 404: when the journal cannot remove the record, NormalError without commit;
      otherwise the record is removed, one commit, Success. */
  lemma DirectDeleteConfirmed(env: Env, st: JobState, reply: Reply)
    requires IsNoErrorOrNotFound(reply.err)
    requires reply.httpStatus == 204 || reply.httpStatus == 404
    ensures var r := SlotDeleteJobFinished(env, st, reply);
            && (env.item.originalFile in env.failingRecords ==>
                  r.phase == Finished(Outcome(NormalError, RecordNotDeleted(env.item.originalFile), GenericError))
                  && r.records == st.records && r.commits == st.commits)
            && (env.item.originalFile !in env.failingRecords ==>
                  r.phase == Finished(SuccessOutcome)
                  && r.records == RemoveRecord(st.records, env.item.originalFile, env.item.IsDirectory())
                  && env.item.originalFile !in r.records
                  && r.commits == st.commits + 1)
  {
  }

  /** The job succeeds on a direct delete exactly when the reply says "gone" with 204 or
      404 and the journal removes the record. */
  lemma DirectDeleteSucceedsIff(env: Env, st: JobState, reply: Reply)
    ensures SlotDeleteJobFinished(env, st, reply).phase == Finished(SuccessOutcome) <==>
              IsNoErrorOrNotFound(reply.err) && (reply.httpStatus == 204 || reply.httpStatus == 404) &&
              env.item.originalFile !in env.failingRecords
  {
  }

  /** With a classifier that only ever returns error statuses, as the client's does, the
      reported status alone is Success exactly when the reply says "gone" with 204 or 404 and
      the journal removes the record. */
  lemma DirectDeleteStatusSuccessIff(env: Env, st: JobState, reply: Reply)
    requires forall e, h :: env.classify(e, h) != Success
    ensures SlotDeleteJobFinished(env, st, reply).phase.outcome.status == Success <==>
              IsNoErrorOrNotFound(reply.err) && (reply.httpStatus == 204 || reply.httpStatus == 404) &&
              env.item.originalFile !in env.failingRecords
  {
  }

  // ---------------------------------------------------------------------------------------
  // Encrypted delegation

  /** The delegate's notification decides the outcome: success gives Success; failure gives
      NormalError, unless the delegate's network error is other than "gone", in which case
      the classifier decides. No request is issued and no record touched. */
  lemma EncryptedOutcome(env: Env, st: JobState, success: bool, err: NetworkError, errorString: string)
    ensures var r := EncryptedHelperFinished(env, st, success, err, errorString);
            && (success ==> r.phase == Finished(SuccessOutcome))
            && (!success && IsNoErrorOrNotFound(err) ==>
                  r.phase == Finished(Outcome(NormalError, ErrorString(errorString), GenericError)))
            && (!success && !IsNoErrorOrNotFound(err) ==>
                  r.phase == Finished(Outcome(env.classify(err, st.httpErrorCode), ErrorString(errorString), GenericError)))
            && r.requests == st.requests && r.records == st.records && r.commits == st.commits
  {
  }

  // ---------------------------------------------------------------------------------------
  // Abort, the request handle and the single outcome

  /** abort() cancels the outstanding delete request (the latest issued) and nothing else; it
      reports nothing and never touches an encrypted delegate. */
  lemma AbortCancelsOnlyTheOutstandingRequest(env: Env, st: JobState)
    requires Valid(env, st)
    ensures var r := Abort(st);
            && r.phase == st.phase && r.requests == st.requests && r.records == st.records
            && r.commits == st.commits && r.doneCalls == st.doneCalls
            && ((st.phase == AwaitingDeleteReply || st.phase == AwaitingPartialReply) ==>
                  r == st.(cancelled := st.cancelled + {|st.requests| - 1}))
            && (!(st.phase == AwaitingDeleteReply || st.phase == AwaitingPartialReply) ==> r == st)
  {
  }

  /** Once started, the job never moves its cursor back and never changes the list of
      synced descendants it walks, whatever events follow. */
  lemma {:induction false} CursorNeverMovesBack(env: Env, st: JobState, events: seq<Event>)
    requires Valid(env, st) && st.phase != NotStarted
    requires Run(env, st, events).Some?
    ensures Run(env, st, events).value.currentDeleteIndex >= st.currentDeleteIndex
    ensures Run(env, st, events).value.syncedItemsToDelete == st.syncedItemsToDelete
    decreases |events|
  {
    if events != [] {
      ApplyPreservesValid(env, st, events[0]);
      CursorNeverMovesBack(env, Apply(env, st, events[0]), events[1..]);
    }
  }

  /** Under any sequence of events the invariant holds, so the request handle is always the
      latest request and at most one outcome is ever reported; once reported, the outcome,
      the request log and the journal no longer change. */
  lemma {:induction false} OutcomeIsReportedOnceAndFinal(env: Env, st: JobState, events: seq<Event>)
    requires Valid(env, st)
    requires Run(env, st, events).Some?
    ensures var r := Run(env, st, events).value;
            && Valid(env, r) && r.doneCalls <= 1
            && (r.requests != [] ==> r.job == Some(|r.requests| - 1))
            && (st.phase.Finished? ==>
                  r.phase == st.phase && r.requests == st.requests && r.records == st.records &&
                  r.commits == st.commits && r.doneCalls == 1)
    decreases |events|
  {
    if events != [] {
      var next := Apply(env, st, events[0]);
      ApplyPreservesValid(env, st, events[0]);
      OutcomeIsReportedOnceAndFinal(env, next, events[1..]);
    }
  }
}
