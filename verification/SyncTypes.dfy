/** The rows of the sync server. Every table is keyed by workspace id first, so a workspace holds its
    own rows; deleted_at is set exactly when the state is Deleted and is not stored separately. */
module SyncTypes {
  import opened Wrappers

  type Uuid = nat

  const NIL_UUID: Uuid := 0

  datatype ObjectKind = CommitBody | ContentPack | CheckpointPack | LargeObject

  datatype CommitKind = Incremental | Merge | Checkpoint

  datatype ObjectState = Reserved | Pending | Available | Failed | Deleted

  datatype Provider = Local | S3Compatible

  datatype ErrorReason = UploadExpired | ChecksumMismatch | SizeMismatch | StorageProviderError

  datatype SyncObject = SyncObject(
    kind: ObjectKind,
    provider: Provider,
    sha: string,
    size: int,
    state: ObjectState,
    error: Option<ErrorReason>,
    owner: Uuid,
    expiresAt: Option<int>)

  datatype Commit = Commit(
    kind: CommitKind,
    expectedHead: Option<string>,
    parents: seq<string>,
    author: Uuid,
    deviceSeq: int,
    body: string,
    bodySha: string,
    bodySize: int,
    refs: seq<string>,
    signature: seq<bv8>,
    serverSeq: int)

  datatype Role = BodyRole | ContentPackRole | CheckpointPackRole | LargeObjectRole

  datatype Link = Link(commitId: string, objectId: string, role: Role)

  datatype Device = Device(user: Uuid, publicKey: seq<bv8>, lastSeq: int)

  datatype Cursor = Cursor(lastSeen: Option<string>, lastCheckpoint: Option<string>)

  datatype Usage = Usage(storageBytes: int, objectCount: int, pendingBytes: int)

  datatype Account = Account(workspaceCount: int, storageBytes: int, pendingBytes: int)

  /** What the object store holds under an object's storage key. */
  datatype Blob = Blob(size: int, sha: string)

  datatype Workspace = Workspace(
    owner: Uuid,
    head: Option<string>,
    headVersion: int,
    devices: map<Uuid, Device>,
    cursors: map<Uuid, Cursor>,
    objects: map<string, SyncObject>,
    commits: map<string, Commit>,
    links: set<Link>,
    usage: Usage,
    blobs: map<string, Blob>)

  datatype Db = Db(
    workspaces: map<Uuid, Workspace>,
    accounts: map<Uuid, Account>,
    lastServerSeq: int)

  const EMPTY_DB := Db(map[], map[], 0)

  datatype QuotaLimit = WorkspaceCount | UserTotalStorage | WorkspaceStorage | SingleBlob | PendingUpload

  datatype SyncError =
    | PermissionDenied
    | InvalidArgument
    | DevBytesDisabled
    | ObjectNotAvailable
    | ObjectMetadataMismatch
    | NotImplemented
    | DuplicateCommitPayload
    | DuplicateDeviceSeq
    | InvalidCommitParent
    | InvalidSignature
    | Quota(limit: QuotaLimit, max: int, current: int, requested: int)
    | HeadConflict(workspaceId: Uuid, currentHead: string, headVersion: int)
    | ConstraintViolation
    | NoRows
    | StoreError

  /** What a device signs: the fields of the canonical JSON payload. JSON text is taken to be injective. */
  datatype CommitPayload = CommitPayload(
    workspaceId: Uuid,
    commitId: string,
    kind: CommitKind,
    expectedHead: string,
    parents: seq<string>,
    author: Uuid,
    deviceSeq: int,
    body: string,
    bodySha: string,
    bodySize: int,
    refs: seq<string>)

  /** Limits, the store driver of this run, and the two cryptographic functions, which are opaque. */
  datatype Config = Config(
    driver: Provider,
    devBytesEnabled: bool,
    maxWorkspaces: int,
    maxUserBytes: int,
    maxWorkspaceBytes: int,
    maxBlobBytes: int,
    maxPendingBytes: int,
    maxPendingAge: int,
    sha256Hex: seq<bv8> -> string,
    verify: (seq<bv8>, CommitPayload, seq<bv8>) -> bool)

  /** database.Text and textValue: the empty string is stored as NULL. */
  function ToText(s: string): Option<string> {
    if s == "" then None else Some(s)
  }

  function TextValue(t: Option<string>): string {
    match t
    case None => ""
    case Some(s) => s
  }

  /** GetSyncObject and its variants hide deleted rows. */
  predicate Live(objects: map<string, SyncObject>, id: string) {
    id in objects && objects[id].state != Deleted
  }

  predicate ActiveDevice(ws: Workspace, user: Uuid, device: Uuid) {
    device in ws.devices && ws.devices[device].user == user
  }

  predicate Authorized(db: Db, user: Uuid, workspaceId: Uuid) {
    workspaceId in db.workspaces && db.workspaces[workspaceId].owner == user
  }
}
