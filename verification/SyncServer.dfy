/** The sync server's calls on the whole database. Each call is one transaction: it either returns a new
    database or an error and the database it started from. */
module SyncServer {
  import opened Wrappers
  import opened Text
  import opened Sums
  import opened SyncTypes
  import opened SyncCommits
  import opened SyncStorage
  import opened SyncLedger

  const DEFAULT_GC_LIMIT := 100

  const EMPTY_ACCOUNT := Account(0, 0, 0)

  function BooksOf(db: Db, workspaceId: Uuid): Books
    requires workspaceId in db.workspaces && db.workspaces[workspaceId].owner in db.accounts
  {
    Books(db.workspaces[workspaceId], db.accounts[db.workspaces[workspaceId].owner])
  }

  function Store(db: Db, workspaceId: Uuid, b: Books): Db {
    db.(workspaces := db.workspaces[workspaceId := b.ws], accounts := db.accounts[b.ws.owner := b.account])
  }

  function StoreWorkspace(db: Db, workspaceId: Uuid, ws: Workspace): Db {
    db.(workspaces := db.workspaces[workspaceId := ws])
  }

  /** EnsureSyncUsageAccount. */
  function EnsureAccount(db: Db, user: Uuid): Db {
    if user in db.accounts then db else db.(accounts := db.accounts[user := EMPTY_ACCOUNT])
  }

  // ----- Set-up -----

  function FreshWorkspace(owner: Uuid): Workspace {
    Workspace(owner, None, 0, map[], map[], map[], map[], {}, Usage(0, 0, 0), map[])
  }

  /** `id` is the random id the database draws. */
  function CreateWorkspace(cfg: Config, db: Db, user: Uuid, cryptoVersion: string, id: Uuid)
    : (Db, Result<Uuid, SyncError>)
  {
    if TrimSpace(cryptoVersion) == "" then (db, Failure(InvalidArgument)) else
    var ensured := EnsureAccount(db, user);
    var account := ensured.accounts[user];
    if account.workspaceCount >= cfg.maxWorkspaces then
      (db, Failure(Quota(WorkspaceCount, cfg.maxWorkspaces, account.workspaceCount, 1)))
    else if id in db.workspaces then (db, Failure(ConstraintViolation))
    else
      (ensured.(workspaces := db.workspaces[id := FreshWorkspace(user)],
                accounts := ensured.accounts[user := account.(workspaceCount := account.workspaceCount + 1)]),
       Success(id))
  }

  function RegisterDevice(db: Db, user: Uuid, workspaceId: Uuid, publicKey: seq<bv8>, id: Uuid)
    : (Db, Result<Uuid, SyncError>)
  {
    if |publicKey| != PUBLIC_KEY_SIZE then (db, Failure(InvalidArgument))
    else if !Authorized(db, user, workspaceId) then (db, Failure(PermissionDenied))
    else if exists w :: w in db.workspaces && id in db.workspaces[w].devices then (db, Failure(ConstraintViolation))
    else
      var ws := db.workspaces[workspaceId];
      (StoreWorkspace(db, workspaceId, ws.(devices := ws.devices[id := Device(user, publicKey, 0)])), Success(id))
  }

  // ----- Objects -----

  function ReserveObjectIds(cfg: Config, db: Db, user: Uuid, workspaceId: Uuid, device: Uuid,
                            requests: seq<ReservationRequest>, ids: seq<string>, now: int)
    : (Db, Result<seq<string>, SyncError>)
    requires |ids| == |requests|
  {
    if |requests| == 0 || |requests| > MAX_RESERVATIONS then (db, Failure(InvalidArgument))
    else if !Authorized(db, user, workspaceId) || !ActiveDevice(db.workspaces[workspaceId], user, device) then
      (db, Failure(PermissionDenied))
    else
      match ReserveAll(cfg, db.workspaces[workspaceId], device, requests, ids, now)
      case Failure(e) => (db, Failure(e))
      case Success(ws) => (StoreWorkspace(db, workspaceId, ws), Success(ids))
  }

  function CreateObjectUploadBatch(cfg: Config, db: Db, user: Uuid, workspaceId: Uuid, device: Uuid, attempt: string,
                                   requests: seq<UploadRequest>, now: int, unsigned: set<string>)
    : (Db, Result<seq<Candidate>, SyncError>)
  {
    match UploadArguments(cfg, attempt, |requests|)
    case Some(e) => (db, Failure(e))
    case None =>
      if !Authorized(db, user, workspaceId) || !ActiveDevice(db.workspaces[workspaceId], user, device) then
        (db, Failure(PermissionDenied))
      else if user !in db.accounts then (db, Failure(NoRows))
      else
        match CreateUploads(cfg, BooksOf(db, workspaceId), device, requests, now, unsigned)
        case Failure(e) => (db, Failure(e))
        case Success(u) => (Store(db, workspaceId, u.books), Success(u.candidates))
  }

  function CompleteObjectUploadBatch(cfg: Config, db: Db, user: Uuid, workspaceId: Uuid, device: Uuid, attempt: string,
                                     requests: seq<CompleteRequest>, now: int, unreachable: set<string>)
    : (Db, Result<seq<UploadOutcome>, SyncError>)
  {
    match UploadArguments(cfg, attempt, |requests|)
    case Some(e) => (db, Failure(e))
    case None =>
      if !Authorized(db, user, workspaceId) || !ActiveDevice(db.workspaces[workspaceId], user, device) then
        (db, Failure(PermissionDenied))
      else if user !in db.accounts then (db, Failure(NoRows))
      else
        match CompleteAll(device, now, unreachable, Completion({}, BooksOf(db, workspaceId), []), requests)
        case Failure(e) => (db, Failure(e))
        case Success(c) => (Store(db, workspaceId, c.books), Success(c.results))
  }

  function UploadObjectBytesDev(cfg: Config, db: Db, user: Uuid, workspaceId: Uuid, device: Uuid, objectId: string,
                                sha: string, size: int, bytes: seq<bv8>, putFails: bool)
    : (Db, Result<SyncObject, SyncError>)
  {
    match DirectArguments(cfg, sha, size, bytes)
    case Some(e) => (db, Failure(e))
    case None =>
      if !Authorized(db, user, workspaceId) || !ActiveDevice(db.workspaces[workspaceId], user, device) then
        (db, Failure(PermissionDenied))
      else if user !in db.accounts then (db, Failure(NoRows))
      else
        match UploadDirect(cfg, BooksOf(db, workspaceId), objectId, NormalizeDigest(sha), size, putFails)
        case Failure(e) => (db, Failure(e))
        case Success(b) =>
          (Store(db, workspaceId, b),
           if objectId in b.ws.objects then Success(b.ws.objects[objectId]) else Failure(NoRows))
  }

  /** A client using a presigned URL: the object store changes, the database does not. */
  function ClientPut(cfg: Config, db: Db, workspaceId: Uuid, id: string, blob: Blob): Db {
    if workspaceId in db.workspaces && cfg.driver == S3Compatible then
      var ws := db.workspaces[workspaceId];
      StoreWorkspace(db, workspaceId, ws.(blobs := ws.blobs[id := blob]))
    else db
  }

  // ----- Commits -----

  /** `gap` counts the identity values burnt by transactions that rolled back. */
  function PublishCommit(cfg: Config, db: Db, user: Uuid, p: PublishParams, gap: nat)
    : (Db, Result<PublishResult, SyncError>)
  {
    match Normalize(p)
    case Failure(e) => (db, Failure(e))
    case Success(n) =>
      if !Authorized(db, user, n.workspaceId) then (db, Failure(PermissionDenied))
      else if n.kind.None? then (db, Failure(InvalidArgument))
      else
        var serverSeq := db.lastServerSeq + 1 + gap;
        var (ws, r) := PublishIn(cfg, db.workspaces[n.workspaceId], user, n, serverSeq);
        if r.Success? && !r.value.idempotent
        then (StoreWorkspace(db, n.workspaceId, ws).(lastServerSeq := serverSeq), r)
        else (db, r)
  }

  // ----- Garbage collection and recalculation -----

  predicate IsExpiredOrphan(o: SyncObject, now: int) {
    o.state in {Reserved, Pending, Failed} && Expired(o, now)
  }

  /** ORDER BY expires_at, object_id. */
  predicate OrphanLe(objects: map<string, SyncObject>, a: string, b: string)
    requires a in objects && b in objects && objects[a].expiresAt.Some? && objects[b].expiresAt.Some?
  {
    objects[a].expiresAt.value < objects[b].expiresAt.value
    || (objects[a].expiresAt == objects[b].expiresAt && LexLe(a, b))
  }

  /** The answer of ListExpiredOrphanSyncObjectsForUpdate: the first `limit` expired, unpublished rows in
      order, leaving out the rows another transaction has locked. */
  ghost predicate OrphanRows(objects: map<string, SyncObject>, now: int, limit: int, locked: set<string>,
                             rows: seq<string>)
  {
    && |rows| <= limit
    && (forall i :: 0 <= i < |rows| ==>
      rows[i] in objects && IsExpiredOrphan(objects[rows[i]], now) && rows[i] !in locked)
    && (forall i, j :: 0 <= i < j < |rows| ==> rows[i] != rows[j] && OrphanLe(objects, rows[i], rows[j]))
    && (forall id :: id in objects && IsExpiredOrphan(objects[id], now) && id !in locked && id !in rows ==>
          |rows| == limit && forall i :: 0 <= i < |rows| ==> OrphanLe(objects, rows[i], id))
  }

  function EffectiveLimit(limit: int): int {
    if limit <= 0 then DEFAULT_GC_LIMIT else limit
  }

  function DeletedRow(o: SyncObject): SyncObject {
    o.(state := Deleted, expiresAt := None)
  }

  /** The deletion loop. Blobs go first and stay gone if a later deletion fails and the rows roll back.
      `stuck` are the ids whose blob the store fails to delete. */
  function DeleteOrphans(objects: map<string, SyncObject>, blobs: map<string, Blob>, rows: seq<string>,
                         stuck: set<string>)
    : (map<string, Blob>, Result<map<string, SyncObject>, SyncError>)
    decreases |rows|
  {
    if rows == [] then (blobs, Success(objects))
    else if rows[0] in stuck then (blobs, Failure(StoreError))
    else if !Live(objects, rows[0]) then (blobs - {rows[0]}, Failure(NoRows))
    else DeleteOrphans(objects[rows[0] := DeletedRow(objects[rows[0]])], blobs - {rows[0]}, rows[1..], stuck)
  }

  ghost function Weigh(workspaces: map<Uuid, Workspace>, user: Uuid, f: Workspace -> int): map<Uuid, int> {
    map w | w in workspaces :: if workspaces[w].owner == user then f(workspaces[w]) else 0
  }

  /** RecalculateSyncUsageAccount: the number of workspaces a user owns and the sums of their counters. */
  ghost function AccountOf(workspaces: map<Uuid, Workspace>, user: Uuid): Account {
    Account(Sum(Weigh(workspaces, user, (ws: Workspace) => 1)),
            Sum(Weigh(workspaces, user, (ws: Workspace) => ws.usage.storageBytes)),
            Sum(Weigh(workspaces, user, (ws: Workspace) => ws.usage.pendingBytes)))
  }

  ghost function RecalculateBoth(db: Db, user: Uuid, workspaceId: Uuid, ws: Workspace): Db {
    var after := StoreWorkspace(db, workspaceId, ws.(usage := Recalculated(ws.objects)));
    after.(accounts := after.accounts[user := AccountOf(after.workspaces, user)])
  }

  ghost function RecalculateSyncUsage(db: Db, user: Uuid, workspaceId: Uuid): (Db, Result<Usage, SyncError>) {
    if !Authorized(db, user, workspaceId) then (db, Failure(PermissionDenied)) else
    var after := RecalculateBoth(db, user, workspaceId, db.workspaces[workspaceId]);
    (after, Success(after.workspaces[workspaceId].usage))
  }

  /** RunWorkspaceGC once the orphan rows are known; the answer is the ids deleted. */
  ghost function RunWorkspaceGC(db: Db, user: Uuid, workspaceId: Uuid, dryRun: bool, rows: seq<string>,
                                stuck: set<string>)
    : (Db, Result<seq<string>, SyncError>)
  {
    if !Authorized(db, user, workspaceId) then (db, Failure(PermissionDenied)) else
    var ensured := EnsureAccount(db, user);
    if dryRun || rows == [] then (ensured, Success([])) else
    var ws := db.workspaces[workspaceId];
    var (blobs, r) := DeleteOrphans(ws.objects, ws.blobs, rows, stuck);
    match r
    case Failure(e) => (StoreWorkspace(db, workspaceId, ws.(blobs := blobs)), Failure(e))
    case Success(objects) =>
      (RecalculateBoth(ensured, user, workspaceId, ws.(objects := objects, blobs := blobs)), Success(rows))
  }

  // ----- Runs -----

  datatype Op =
    | CreateWorkspaceOp(user: Uuid, cryptoVersion: string, id: Uuid)
    | RegisterDeviceOp(user: Uuid, workspaceId: Uuid, publicKey: seq<bv8>, id: Uuid)
    | ReserveOp(user: Uuid, workspaceId: Uuid, device: Uuid, reservations: seq<ReservationRequest>, ids: seq<string>,
                now: int)
    | UploadOp(user: Uuid, workspaceId: Uuid, device: Uuid, attempt: string, uploads: seq<UploadRequest>, now: int,
               unsigned: set<string>)
    | CompleteOp(user: Uuid, workspaceId: Uuid, device: Uuid, attempt: string, completions: seq<CompleteRequest>,
                 now: int, unreachable: set<string>)
    | DirectOp(user: Uuid, workspaceId: Uuid, device: Uuid, objectId: string, sha: string, size: int, bytes: seq<bv8>,
               putFails: bool)
    | ClientPutOp(workspaceId: Uuid, objectId: string, blob: Blob)
    | PublishOp(user: Uuid, params: PublishParams, gap: nat)
    | GcOp(user: Uuid, workspaceId: Uuid, dryRun: bool, now: int, limit: int, locked: set<string>, rows: seq<string>,
           stuck: set<string>)
    | RecalculateOp(user: Uuid, workspaceId: Uuid)

  /** What the environment supplies is well formed: one drawn id per reservation, and orphan rows that
      are an answer of the query. */
  ghost predicate Legal(db: Db, op: Op) {
    match op
    case ReserveOp(_, _, _, reservations, ids, _) => |ids| == |reservations|
    case GcOp(_, workspaceId, _, now, limit, locked, rows, _) =>
      workspaceId in db.workspaces ==>
        OrphanRows(db.workspaces[workspaceId].objects, now, EffectiveLimit(limit), locked, rows)
    case _ => true
  }

  ghost function Apply(cfg: Config, db: Db, op: Op): Db
    requires Legal(db, op)
  {
    match op
    case CreateWorkspaceOp(user, cryptoVersion, id) => CreateWorkspace(cfg, db, user, cryptoVersion, id).0
    case RegisterDeviceOp(user, workspaceId, publicKey, id) => RegisterDevice(db, user, workspaceId, publicKey, id).0
    case ReserveOp(user, workspaceId, device, reservations, ids, now) =>
      ReserveObjectIds(cfg, db, user, workspaceId, device, reservations, ids, now).0
    case UploadOp(user, workspaceId, device, attempt, uploads, now, unsigned) =>
      CreateObjectUploadBatch(cfg, db, user, workspaceId, device, attempt, uploads, now, unsigned).0
    case CompleteOp(user, workspaceId, device, attempt, completions, now, unreachable) =>
      CompleteObjectUploadBatch(cfg, db, user, workspaceId, device, attempt, completions, now, unreachable).0
    case DirectOp(user, workspaceId, device, objectId, sha, size, bytes, putFails) =>
      UploadObjectBytesDev(cfg, db, user, workspaceId, device, objectId, sha, size, bytes, putFails).0
    case ClientPutOp(workspaceId, objectId, blob) => ClientPut(cfg, db, workspaceId, objectId, blob)
    case PublishOp(user, params, gap) => PublishCommit(cfg, db, user, params, gap).0
    case GcOp(user, workspaceId, dryRun, _, _, _, rows, stuck) =>
      RunWorkspaceGC(db, user, workspaceId, dryRun, rows, stuck).0
    case RecalculateOp(user, workspaceId) => RecalculateSyncUsage(db, user, workspaceId).0
  }

  ghost predicate AllLegal(cfg: Config, db: Db, ops: seq<Op>)
    decreases |ops|
  {
    ops == [] || (Legal(db, ops[0]) && AllLegal(cfg, Apply(cfg, db, ops[0]), ops[1..]))
  }

  ghost function Run(cfg: Config, db: Db, ops: seq<Op>): Db
    requires AllLegal(cfg, db, ops)
    decreases |ops|
  {
    if ops == [] then db else Run(cfg, Apply(cfg, db, ops[0]), ops[1..])
  }
}
