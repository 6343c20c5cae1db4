/** The remote-delete job as a state machine over values: the job's abstract state, one pure
    transition per entry point and completion handler, the invariant every transition keeps,
    and runs over sequences of events. */
module RemoteDeleteSpec {
  import opened RemoteDeleteTypes
  import opened SyncJournal

  /** What the job reads but never changes: its item, the account's DAV URL, the virtual-file
      configuration, the error classifier and the journal's failing records. */
  datatype Env = Env(
    item: SyncItem,
    davUrl: string,
    vfsWithSuffix: bool,
    virtualFileSuffix: string,
    classify: (NetworkError, int) -> Status,
    failingRecords: set<string>)

  datatype Phase =
    | NotStarted
    | SkippedOnAbort
    | AwaitingDeleteReply
    | AwaitingPartialReply
    | AwaitingDelegate
    | Finished(outcome: Outcome)

  /** The job's fields, the journal's records and commit count, the item's output fields and
      the log of issued requests. `job` is the handle of the most recently issued request, an
      index into `requests`; `cancelled` holds the requests whose reply was aborted;
      `doneCalls` counts reported outcomes. */
  datatype JobState = JobState(
    syncedItemsToDelete: seq<string>,
    currentDeleteIndex: nat,
    isPartialDeleteMode: bool,
    job: Option<nat>,
    requests: seq<DeleteRequest>,
    cancelled: set<nat>,
    helper: Option<EncryptedVariant>,
    records: set<string>,
    commits: nat,
    httpErrorCode: int,
    responseTimestamp: int,
    requestId: string,
    phase: Phase,
    doneCalls: nat)

  /** The path that start() takes. */
  datatype Decision =
    | SkipOnAbort
    | DeletePartially
    | NothingToDelete
    | DelegateEncrypted(variant: EncryptedVariant)
    | DeleteDirectly

  /** The state of a freshly constructed job. */
  function Initial(item: SyncItem, records: set<string>, commits: nat): JobState
  {
    JobState([], 0, false, None, [], {}, None, records, commits,
             item.httpErrorCode, item.responseTimestamp, item.requestId, NotStarted, 0)
  }

  function Decide(item: SyncItem, abortRequested: bool, hasExcludedDescendants: bool, synced: seq<string>): (d: Decision)
    ensures d == SkipOnAbort <==> abortRequested
    ensures d == DeletePartially <==> !abortRequested && item.IsDirectory() && hasExcludedDescendants && synced != []
    ensures d == NothingToDelete <==> !abortRequested && item.IsDirectory() && hasExcludedDescendants && synced == []
    ensures d.DelegateEncrypted? <==>
              !abortRequested && !(item.IsDirectory() && hasExcludedDescendants) &&
              (item.encryptedFileName != [] || item.isEncrypted)
    ensures d.DelegateEncrypted? ==> (d.variant == PlainEncrypted <==> item.encryptedFileName != [])
    ensures d == DeleteDirectly <==>
              !abortRequested && !(item.IsDirectory() && hasExcludedDescendants) &&
              item.encryptedFileName == [] && !item.isEncrypted
  {
    if abortRequested then SkipOnAbort
    else if item.IsDirectory() && hasExcludedDescendants then
      if synced != [] then DeletePartially else NothingToDelete
    else if item.encryptedFileName != [] || item.isEncrypted then
      DelegateEncrypted(if item.encryptedFileName != [] then PlainEncrypted else EncryptedRootFolder)
    else DeleteDirectly
  }

  /** The direct delete request for filename (start() passes the item's path). */
  function DirectRequest(env: Env, filename: string): DeleteRequest
  {
    DeleteRequest(RemoteFileName(filename, env.item.itemType, env.vfsWithSuffix, env.virtualFileSuffix),
                  LockHeader(env.item, env.davUrl), env.item.wantsPermanentDeletion, DeleteJobFinished)
  }

  /** The request deleting one synced descendant: no suffix handling, and the `If` header
      is the item's own. */
  function PartialRequest(env: Env, path: string): DeleteRequest
  {
    DeleteRequest(path, LockHeader(env.item, env.davUrl), env.item.wantsPermanentDeletion, PartialDeleteJobFinished)
  }

  function PartialRequests(env: Env, paths: seq<string>): seq<DeleteRequest>
  {
    if paths == [] then [] else [PartialRequest(env, paths[0])] + PartialRequests(env, paths[1..])
  }

  /** The paths of `paths` whose record the journal removes. */
  function Confirmed(paths: seq<string>, failing: set<string>): set<string>
  {
    set p | p in paths && p !in failing
  }

  function Issue(st: JobState, request: DeleteRequest): JobState
  {
    st.(requests := st.requests + [request], job := Some(|st.requests|))
  }

  /** Reports the terminal outcome. */
  function Done(st: JobState, outcome: Outcome): JobState
  {
    st.(phase := Finished(outcome), doneCalls := st.doneCalls + 1)
  }

  function CreateDeleteJob(env: Env, st: JobState, filename: string): JobState
  {
    Issue(st, DirectRequest(env, filename)).(phase := AwaitingDeleteReply)
  }

  function CreatePartialDeleteJob(env: Env, st: JobState, filename: string): JobState
  {
    Issue(st, PartialRequest(env, filename)).(phase := AwaitingPartialReply)
  }

  function DeleteNextSyncedItem(env: Env, st: JobState): JobState
  {
    if st.currentDeleteIndex >= |st.syncedItemsToDelete| then
      Done(st.(isPartialDeleteMode := false), SuccessOutcome)
    else
      CreatePartialDeleteJob(env, st, st.syncedItemsToDelete[st.currentDeleteIndex])
  }

  function Start(env: Env, st: JobState, abortRequested: bool, hasExcludedDescendants: bool, synced: seq<string>): JobState
  {
    match Decide(env.item, abortRequested, hasExcludedDescendants, synced)
    case SkipOnAbort => st.(phase := SkippedOnAbort)
    case DeletePartially =>
      DeleteNextSyncedItem(env, st.(syncedItemsToDelete := synced, isPartialDeleteMode := true))
    case NothingToDelete => Done(st.(syncedItemsToDelete := synced), SuccessOutcome)
    case DelegateEncrypted(v) => st.(helper := Some(v), phase := AwaitingDelegate)
    case DeleteDirectly => CreateDeleteJob(env, st, env.item.file)
  }

  function SlotDeleteJobFinished(env: Env, st: JobState, reply: Reply): JobState
  {
    var st1 := st.(httpErrorCode := reply.httpStatus, responseTimestamp := reply.responseTimestamp,
                   requestId := reply.requestId);
    if !IsNoErrorOrNotFound(reply.err) then
      Done(st1, Outcome(env.classify(reply.err, reply.httpStatus), ErrorString(reply.errorString),
                        FromNetworkError(reply.err)))
    else if reply.httpStatus != 204 && reply.httpStatus != 404 then
      Done(st1, Outcome(NormalError, WrongHttpCode(reply.httpStatus, reply.reasonPhrase), GenericError))
    else if env.item.originalFile in env.failingRecords then
      Done(st1, Outcome(NormalError, RecordNotDeleted(env.item.originalFile), GenericError))
    else
      Done(st1.(records := RemoveRecord(st.records, env.item.originalFile, env.item.IsDirectory()),
                commits := st.commits + 1),
           SuccessOutcome)
  }

  function SlotPartialDeleteJobFinished(env: Env, st: JobState, reply: Reply): JobState
    requires st.currentDeleteIndex < |st.syncedItemsToDelete|
  {
    if !IsNoErrorOrNotFound(reply.err) then
      Done(st, Outcome(SoftError, ErrorString(reply.errorString), GenericError))
    else
      var path := st.syncedItemsToDelete[st.currentDeleteIndex];
      var records := if path in env.failingRecords then st.records else RemoveRecord(st.records, path, false);
      DeleteNextSyncedItem(env, st.(records := records, currentDeleteIndex := st.currentDeleteIndex + 1))
  }

  /** The encrypted delegate's single `finished(success)` notification, with the delegate's
      last network error and error string. */
  function EncryptedHelperFinished(env: Env, st: JobState, success: bool, err: NetworkError, errorString: string): JobState
  {
    if success then Done(st, SuccessOutcome)
    else
      var status := if IsNoErrorOrNotFound(err) then NormalError else env.classify(err, st.httpErrorCode);
      Done(st, Outcome(status, ErrorString(errorString), GenericError))
  }

  /** abort(): aborts the reply of the outstanding delete request, if there is one. */
  function Abort(st: JobState): JobState
  {
    if (st.phase == AwaitingDeleteReply || st.phase == AwaitingPartialReply) && st.job.Some? then
      st.(cancelled := st.cancelled + {st.job.value})
    else st
  }

  ghost predicate Valid(env: Env, st: JobState)
  {
    && st.currentDeleteIndex <= |st.syncedItemsToDelete|
    && st.job == (if st.requests == [] then None else Some(|st.requests| - 1))
    && (forall i :: i in st.cancelled ==> i < |st.requests|)
    && st.doneCalls == (if st.phase.Finished? then 1 else 0)
    && (st.phase == NotStarted ==>
          st.requests == [] && st.syncedItemsToDelete == [] && st.currentDeleteIndex == 0 &&
          !st.isPartialDeleteMode && st.helper == None)
    && (st.phase == AwaitingPartialReply ==>
          st.isPartialDeleteMode && st.currentDeleteIndex < |st.syncedItemsToDelete| && st.requests != [] &&
          st.requests[|st.requests| - 1] == PartialRequest(env, st.syncedItemsToDelete[st.currentDeleteIndex]))
    && (st.phase == AwaitingDeleteReply ==>
          st.requests != [] && st.requests[|st.requests| - 1].slot == DeleteJobFinished)
    && (st.phase == AwaitingDelegate ==> st.helper.Some?)
    && (st.isPartialDeleteMode ==> st.syncedItemsToDelete != [])
    && (!env.item.IsDirectory() ==>
          !st.isPartialDeleteMode && st.phase != AwaitingPartialReply && |st.requests| <= 1)
  }

  /** The events that drive the job: the scheduler's start() and abort(), and the completion
      notifications of whatever the job is waiting for. */
  datatype Event =
    | StartEvent(abortRequested: bool, hasExcludedDescendants: bool, synced: seq<string>)
    | DeleteReply(reply: Reply)
    | PartialReply(reply: Reply)
    | DelegateFinished(success: bool, err: NetworkError, errorString: string)
    | AbortEvent

  /** An event can happen only when the job waits for it; abort() can always be called. */
  predicate Enabled(st: JobState, e: Event)
  {
    match e
    case StartEvent(_, _, _) => st.phase == NotStarted
    case DeleteReply(_) => st.phase == AwaitingDeleteReply
    case PartialReply(_) => st.phase == AwaitingPartialReply && st.currentDeleteIndex < |st.syncedItemsToDelete|
    case DelegateFinished(_, _, _) => st.phase == AwaitingDelegate
    case AbortEvent => true
  }

  function Apply(env: Env, st: JobState, e: Event): JobState
    requires Enabled(st, e)
  {
    match e
    case StartEvent(a, h, s) => Start(env, st, a, h, s)
    case DeleteReply(r) => SlotDeleteJobFinished(env, st, r)
    case PartialReply(r) => SlotPartialDeleteJobFinished(env, st, r)
    case DelegateFinished(ok, err, msg) => EncryptedHelperFinished(env, st, ok, err, msg)
    case AbortEvent => Abort(st)
  }

  /** The state after a sequence of events, or None when one arrives that the job is not
      waiting for. */
  function Run(env: Env, st: JobState, events: seq<Event>): Option<JobState>
    decreases |events|
  {
    if events == [] then Some(st)
    else if !Enabled(st, events[0]) then None
    else Run(env, Apply(env, st, events[0]), events[1..])
  }

  /** The partial-delete protocol fed with replies, one per step, for as long as the job
      waits for a partial-delete reply. */
  function RunPartial(env: Env, st: JobState, replies: seq<Reply>): JobState
    decreases |replies|
  {
    if replies == [] || st.phase != AwaitingPartialReply || st.currentDeleteIndex >= |st.syncedItemsToDelete| then st
    else RunPartial(env, SlotPartialDeleteJobFinished(env, st, replies[0]), replies[1..])
  }

  lemma InitialIsValid(env: Env, records: set<string>, commits: nat)
    ensures Valid(env, Initial(env.item, records, commits))
  {
  }

  /** Advancing in partial mode either leaves the request for the entry at the cursor
      outstanding or, past the last entry, clears partial mode and reports Success; the
      result satisfies the invariant either way. */
  lemma DeleteNextSyncedItemIsValid(env: Env, st: JobState)
    requires env.item.IsDirectory()
    requires st.currentDeleteIndex <= |st.syncedItemsToDelete| && st.syncedItemsToDelete != []
    requires st.isPartialDeleteMode && st.doneCalls == 0
    requires st.job == (if st.requests == [] then None else Some(|st.requests| - 1))
    requires forall i :: i in st.cancelled ==> i < |st.requests|
    ensures Valid(env, DeleteNextSyncedItem(env, st))
    ensures var r, L, k := DeleteNextSyncedItem(env, st), st.syncedItemsToDelete, st.currentDeleteIndex;
            && r.records == st.records && r.commits == st.commits && r.currentDeleteIndex == k
            && (k < |L| ==>
                  r.phase == AwaitingPartialReply && r.isPartialDeleteMode &&
                  r.requests == st.requests + [PartialRequest(env, L[k])] && r.job == Some(|st.requests|))
            && (k == |L| ==>
                  r.phase == Finished(SuccessOutcome) && r.doneCalls == 1 && !r.isPartialDeleteMode &&
                  r.requests == st.requests)
  {
    var r := DeleteNextSyncedItem(env, st);
    forall i | i in r.cancelled ensures i < |r.requests| {
    }
  }

  /** Issuing the direct delete request from a fresh job keeps the invariant; the request
      becomes the outstanding handle. */
  lemma CreateDeleteJobIsValid(env: Env, st: JobState, filename: string)
    requires Valid(env, st) && st.phase == NotStarted
    ensures Valid(env, CreateDeleteJob(env, st, filename))
    ensures CreateDeleteJob(env, st, filename).job == Some(0)
  {
  }

  /** Every transition keeps the invariant. */
  lemma ApplyPreservesValid(env: Env, st: JobState, e: Event)
    requires Valid(env, st) && Enabled(st, e)
    ensures Valid(env, Apply(env, st, e))
  {
    match e
    case StartEvent(a, h, s) =>
      if Decide(env.item, a, h, s) == DeletePartially {
        DeleteNextSyncedItemIsValid(env, st.(syncedItemsToDelete := s, isPartialDeleteMode := true));
      }
    case DeleteReply(_) =>
    case PartialReply(r) =>
      if IsNoErrorOrNotFound(r.err) {
        var path := st.syncedItemsToDelete[st.currentDeleteIndex];
        var records := if path in env.failingRecords then st.records else RemoveRecord(st.records, path, false);
        DeleteNextSyncedItemIsValid(env, st.(records := records, currentDeleteIndex := st.currentDeleteIndex + 1));
      }
    case DelegateFinished(_, _, _) =>
    case AbortEvent =>
  }
}
