/** Values the remote-delete job works with: the sync item it is bound to, the replies of
    delete requests, the requests it issues and the terminal outcome it reports. */
module RemoteDeleteTypes {

  datatype Option<+T> = None | Some(value: T)

  /** The transport errors of a network reply that this job distinguishes. */
  datatype NetworkError =
    | NoError
    | ContentNotFoundError
    | OperationCanceledError
    | OtherNetworkError(code: int)

  /** A transport result that leaves the remote object absent: no error, or "not found". */
  predicate IsNoErrorOrNotFound(err: NetworkError)
  {
    err == NoError || err == ContentNotFoundError
  }

  /** Item statuses: the three this job reports itself (Success, SoftError, NormalError) and
      others an error classifier may return. */
  datatype Status = Success | SoftError | NormalError | FatalError | FileLocked | DetailError

  /** The error category reported with an outcome; FromNetworkError(e) stands for the
      category the uninterpreted mapping from a network error gives. */
  datatype ErrorCategory = NoErrorCategory | GenericError | FromNetworkError(err: NetworkError)

  /** The report string of an outcome, kept symbolic instead of translated text. */
  datatype Message =
    | NoMessage
    | ErrorString(text: string)
    | WrongHttpCode(httpCode: int, reasonPhrase: string)
    | RecordNotDeleted(path: string)

  datatype Outcome = Outcome(status: Status, message: Message, category: ErrorCategory)

  const SuccessOutcome := Outcome(Success, NoMessage, NoErrorCategory)

  datatype ItemType = File | SoftLink | Directory | VirtualFile | VirtualFileDownload | VirtualFileDehydration

  /** The sync item the job is bound to: the input fields it reads and the initial values of
      the output fields it writes. */
  datatype SyncItem = SyncItem(
    file: string,
    originalFile: string,
    itemType: ItemType,
    encryptedFileName: string,
    isEncrypted: bool,
    locked: bool,
    lockToken: string,
    wantsPermanentDeletion: bool,
    httpErrorCode: int,
    responseTimestamp: int,
    requestId: string)
  {
    predicate IsDirectory()
    {
      itemType == Directory
    }
  }

  /** What a finished delete request reports. */
  datatype Reply = Reply(
    err: NetworkError,
    httpStatus: int,
    reasonPhrase: string,
    errorString: string,
    responseTimestamp: int,
    requestId: string)

  /** Which completion handler a delete request is connected to. */
  datatype FinishedSlot = DeleteJobFinished | PartialDeleteJobFinished

  /** One issued delete request: the path handed to the remote-path builder, the optional
      `If` header, whether the server should skip the trash bin, and its completion handler. */
  datatype DeleteRequest = DeleteRequest(
    target: string,
    ifHeader: Option<string>,
    skipTrashbin: bool,
    slot: FinishedSlot)

  /** The two encrypted-delete delegates. */
  datatype EncryptedVariant = PlainEncrypted | EncryptedRootFolder

  /** s with its last n characters removed; everything when n covers all of s. */
  function Chop(s: string, n: nat): (r: string)
    ensures r <= s
    ensures |r| == if n >= |s| then 0 else |s| - n
  {
    if n >= |s| then [] else s[..|s| - n]
  }

  /** The remote name of a local file: a virtual file under the suffix VFS mode loses as many
      trailing characters as the virtual-file suffix has. */
  function RemoteFileName(file: string, itemType: ItemType, vfsWithSuffix: bool, suffix: string): (r: string)
    ensures r <= file
    ensures itemType != VirtualFile || !vfsWithSuffix ==> r == file
    ensures itemType == VirtualFile && vfsWithSuffix && |suffix| <= |file| ==> |r| + |suffix| == |file|
    ensures itemType == VirtualFile && vfsWithSuffix && |suffix| >= |file| ==> r == []
  {
    if itemType == VirtualFile && vfsWithSuffix then Chop(file, |suffix|) else file
  }

  /** The `If` header of a delete request: present exactly for a locked item, and then a lock
      token reference bound to the item's own DAV URL. */
  function LockHeader(item: SyncItem, davUrl: string): (r: Option<string>)
    ensures r.Some? <==> item.locked
  {
    if item.locked then Some("<" + davUrl + item.file + "> (<opaquelocktoken:" + item.lockToken + ">)")
    else None
  }

  /** Chopping the virtual-file suffix off a name that ends with it gives back the name
      without the suffix. */
  lemma RemoteFileNameDropsSuffix(name: string, itemType: ItemType, suffix: string)
    requires itemType == VirtualFile
    ensures RemoteFileName(name + suffix, itemType, true, suffix) == name
  {
    assert (name + suffix)[..|name|] == name;
  }
}
