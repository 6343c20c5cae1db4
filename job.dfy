/** The remote-delete propagation job as an object: its fields are updated step by step by
    start(), the completion handlers and abort(), and every method is proved to move the
    abstract state exactly as the matching transition of RemoteDeleteSpec does. */
module PropagateRemoteDelete {
  import opened RemoteDeleteTypes
  import opened SyncJournal
  import Spec = RemoteDeleteSpec

  class PropagateRemoteDeleteJob {
    const item: SyncItem
    const journal: Journal
    const davUrl: string
    const vfsWithSuffix: bool
    const virtualFileSuffix: string
    const classify: (NetworkError, int) -> Status

    // the job's own state
    var syncedItemsToDelete: seq<string>
    var currentDeleteIndex: nat
    var isPartialDeleteMode: bool
    var job: Option<nat>
    var deleteEncryptedHelper: Option<EncryptedVariant>
    var phase: Spec.Phase

    // what the job does to the outside: issued requests, aborted replies, the item's
    // output fields
    var requests: seq<DeleteRequest>
    var cancelled: set<nat>
    var httpErrorCode: int
    var responseTimestamp: int
    var requestId: string

    ghost var doneCalls: nat

    function Env(): Spec.Env
    {
      Spec.Env(item, davUrl, vfsWithSuffix, virtualFileSuffix, classify, journal.failing)
    }

    ghost function State(): Spec.JobState
      reads this, journal
    {
      Spec.JobState(syncedItemsToDelete, currentDeleteIndex, isPartialDeleteMode, job, requests, cancelled,
                    deleteEncryptedHelper, journal.records, journal.commits,
                    httpErrorCode, responseTimestamp, requestId, phase, doneCalls)
    }

    ghost predicate Valid()
      reads this, journal
    {
      Spec.Valid(Env(), State())
    }

    constructor (item: SyncItem, journal: Journal, davUrl: string, vfsWithSuffix: bool,
                 virtualFileSuffix: string, classify: (NetworkError, int) -> Status)
      ensures Valid()
      ensures this.item == item && this.journal == journal && this.davUrl == davUrl
      ensures this.vfsWithSuffix == vfsWithSuffix && this.virtualFileSuffix == virtualFileSuffix
      ensures this.classify == classify
      ensures State() == Spec.Initial(item, journal.records, journal.commits)
      ensures currentDeleteIndex == 0 && !isPartialDeleteMode
    {
      this.item := item;
      this.journal := journal;
      this.davUrl := davUrl;
      this.vfsWithSuffix := vfsWithSuffix;
      this.virtualFileSuffix := virtualFileSuffix;
      this.classify := classify;
      syncedItemsToDelete := [];
      currentDeleteIndex := 0;
      isPartialDeleteMode := false;
      job := None;
      deleteEncryptedHelper := None;
      phase := Spec.NotStarted;
      requests := [];
      cancelled := {};
      httpErrorCode := item.httpErrorCode;
      responseTimestamp := item.responseTimestamp;
      requestId := item.requestId;
      doneCalls := 0;
      new;
      Spec.InitialIsValid(Env(), journal.records, journal.commits);
    }

    /** A job for a non-directory is likely to finish quickly: in every valid state it is not
        in partial mode, does not wait for a partial-delete reply and has issued at most one
        request. */
    function IsLikelyFinishedQuickly(): (r: bool)
      reads this, journal
      ensures r <==> !item.IsDirectory()
      ensures r && Valid() ==> !isPartialDeleteMode && phase != Spec.AwaitingPartialReply && |requests| <= 1
    {
      !item.IsDirectory()
    }

    /** Reports the terminal outcome; callable only while none has been reported. */
    method Done(outcome: Outcome)
      requires !phase.Finished?
      modifies this
      ensures State() == Spec.Done(old(State()), outcome)
    {
      phase := Spec.Finished(outcome);
      doneCalls := doneCalls + 1;
    }

    /** Entry point. The selective-sync answers of the journal for the item's path are given
        as hasSelectiveSyncDescendants and syncedDescendants. */
    method Start(abortRequested: bool, hasSelectiveSyncDescendants: bool, syncedDescendants: seq<string>)
      requires Valid() && phase == Spec.NotStarted
      modifies this
      ensures Valid()
      ensures State() == Spec.Start(Env(), old(State()), abortRequested, hasSelectiveSyncDescendants, syncedDescendants)
    {
      ghost var st := State();
      Spec.ApplyPreservesValid(Env(), st, Spec.StartEvent(abortRequested, hasSelectiveSyncDescendants, syncedDescendants));
      if abortRequested {
        phase := Spec.SkippedOnAbort;
        return;
      }
      if item.IsDirectory() && hasSelectiveSyncDescendants {
        syncedItemsToDelete := syncedDescendants;
        if syncedItemsToDelete != [] {
          isPartialDeleteMode := true;
          DeleteNextSyncedItem();
          return;
        } else {
          Done(SuccessOutcome);
          return;
        }
      }
      if item.encryptedFileName != [] || item.isEncrypted {
        if item.encryptedFileName != [] {
          deleteEncryptedHelper := Some(PlainEncrypted);
        } else {
          deleteEncryptedHelper := Some(EncryptedRootFolder);
        }
        // the delegate is started; its one notification arrives as EncryptedHelperFinished
        phase := Spec.AwaitingDelegate;
      } else {
        CreateDeleteJob(item.file);
      }
    }

    /** Issues the direct delete request for filename. */
    method CreateDeleteJob(filename: string)
      requires Valid() && phase == Spec.NotStarted
      modifies this
      ensures Valid()
      ensures State() == Spec.CreateDeleteJob(Env(), old(State()), filename)
    {
      Spec.CreateDeleteJobIsValid(Env(), State(), filename);
      var remoteFilename := RemoteFileName(filename, item.itemType, vfsWithSuffix, virtualFileSuffix);
      var headers := LockHeader(item, davUrl);
      job := Some(|requests|);
      requests := requests + [DeleteRequest(remoteFilename, headers, item.wantsPermanentDeletion, DeleteJobFinished)];
      phase := Spec.AwaitingDeleteReply;
    }

    /** Completion of the direct delete request. */
    method SlotDeleteJobFinished(reply: Reply)
      requires Valid() && phase == Spec.AwaitingDeleteReply
      modifies this, journal
      ensures Valid()
      ensures State() == Spec.SlotDeleteJobFinished(Env(), old(State()), reply)
    {
      ghost var st := State();
      Spec.ApplyPreservesValid(Env(), st, Spec.DeleteReply(reply));
      httpErrorCode := reply.httpStatus;
      responseTimestamp := reply.responseTimestamp;
      requestId := reply.requestId;

      if !IsNoErrorOrNotFound(reply.err) {
        var status := classify(reply.err, httpErrorCode);
        Done(Outcome(status, ErrorString(reply.errorString), FromNetworkError(reply.err)));
        return;
      }
      if reply.httpStatus != 204 && reply.httpStatus != 404 {
        Done(Outcome(NormalError, WrongHttpCode(httpErrorCode, reply.reasonPhrase), GenericError));
        return;
      }
      var ok := journal.DeleteFileRecord(item.originalFile, item.IsDirectory());
      if !ok {
        Done(Outcome(NormalError, RecordNotDeleted(item.originalFile), GenericError));
        return;
      }
      journal.Commit();
      Done(SuccessOutcome);
    }

    /** Issues the request for the descendant at the cursor, or succeeds when none is left. */
    method DeleteNextSyncedItem()
      requires !phase.Finished?
      modifies this
      ensures State() == Spec.DeleteNextSyncedItem(Env(), old(State()))
    {
      if currentDeleteIndex >= |syncedItemsToDelete| {
        isPartialDeleteMode := false;
        Done(SuccessOutcome);
        return;
      }
      var itemPath := syncedItemsToDelete[currentDeleteIndex];
      CreatePartialDeleteJob(itemPath);
    }

    /** Issues the delete request for one synced descendant. */
    method CreatePartialDeleteJob(filename: string)
      modifies this
      ensures State() == Spec.CreatePartialDeleteJob(Env(), old(State()), filename)
    {
      var remoteFilename := filename;
      var headers := LockHeader(item, davUrl);
      job := Some(|requests|);
      requests := requests + [DeleteRequest(remoteFilename, headers, item.wantsPermanentDeletion, PartialDeleteJobFinished)];
      phase := Spec.AwaitingPartialReply;
    }

    /** Completion of the request for the descendant at the cursor. */
    method SlotPartialDeleteJobFinished(reply: Reply)
      requires Valid() && phase == Spec.AwaitingPartialReply
      modifies this, journal
      ensures Valid()
      ensures State() == Spec.SlotPartialDeleteJobFinished(Env(), old(State()), reply)
    {
      ghost var st := State();
      Spec.ApplyPreservesValid(Env(), st, Spec.PartialReply(reply));
      if !IsNoErrorOrNotFound(reply.err) {
        Done(Outcome(SoftError, ErrorString(reply.errorString), GenericError));
        return;
      }
      var itemPath := syncedItemsToDelete[currentDeleteIndex];
      var ok := journal.DeleteFileRecord(itemPath, false);
      // a record the journal fails to delete is only logged
      currentDeleteIndex := currentDeleteIndex + 1;
      DeleteNextSyncedItem();
    }

    /** The encrypted delegate's `finished(success)`, with its last network error and error
        string. */
    method EncryptedHelperFinished(success: bool, networkError: NetworkError, errorString: string)
      requires Valid() && phase == Spec.AwaitingDelegate
      modifies this
      ensures Valid()
      ensures State() == Spec.EncryptedHelperFinished(Env(), old(State()), success, networkError, errorString)
    {
      ghost var st := State();
      Spec.ApplyPreservesValid(Env(), st, Spec.DelegateFinished(success, networkError, errorString));
      if !success {
        var status := NormalError;
        if networkError != NoError && networkError != ContentNotFoundError {
          status := classify(networkError, httpErrorCode);
        }
        Done(Outcome(status, ErrorString(errorString), GenericError));
      } else {
        Done(SuccessOutcome);
      }
    }

    /** Aborts the reply of the outstanding delete request; reports whether abortFinished is
        emitted, which happens exactly for an asynchronous abort. */
    method Abort(asynchronous: bool) returns (abortFinished: bool)
      requires Valid()
      modifies this
      ensures Valid()
      ensures State() == Spec.Abort(old(State()))
      ensures abortFinished == asynchronous
    {
      ghost var st := State();
      Spec.ApplyPreservesValid(Env(), st, Spec.AbortEvent);
      if (phase == Spec.AwaitingDeleteReply || phase == Spec.AwaitingPartialReply) && job.Some? {
        cancelled := cancelled + {job.value};
      }
      abortFinished := asynchronous;
    }

    /** Drives the partial-delete protocol with one reply per step until the job stops
        waiting for partial-delete replies or the replies run out; returns how many were
        used. */
    method RunPartialDeletion(replies: seq<Reply>) returns (consumed: nat)
      requires Valid()
      modifies this, journal
      ensures Valid()
      ensures consumed <= |replies|
      ensures State() == Spec.RunPartial(Env(), old(State()), replies)
    {
      consumed := 0;
      while consumed < |replies| && phase == Spec.AwaitingPartialReply
        invariant consumed <= |replies|
        invariant Valid()
        invariant Spec.RunPartial(Env(), old(State()), replies) == Spec.RunPartial(Env(), State(), replies[consumed..])
        decreases |replies| - consumed
      {
        assert replies[consumed..][1..] == replies[consumed + 1..];
        SlotPartialDeleteJobFinished(replies[consumed]);
        consumed := consumed + 1;
      }
    }
  }
}
