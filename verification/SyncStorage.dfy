/** Object reservation, upload batches, completion and the byte counters they move. */
module SyncStorage {
  import opened Wrappers
  import opened Text
  import opened SyncTypes

  const MAX_TRANSFER_BATCH := 100
  const MAX_RESERVATIONS := 100

  datatype ReservationRequest = ReservationRequest(clientRef: string, kind: Option<ObjectKind>)

  datatype UploadRequest = UploadRequest(objectId: string, kind: Option<ObjectKind>, sha: string, size: int)

  datatype CompleteRequest = CompleteRequest(objectId: string, sha: string, size: int)

  datatype UploadOutcome = UploadOutcome(objectId: string, row: SyncObject, error: Option<ErrorReason>)

  /** The rows a storage call changes: one workspace and its owner's account. */
  datatype Books = Books(ws: Workspace, account: Account)

  // ----- Queries on the usage rows -----

  function AddPending(b: Books, n: int): Books {
    Books(b.ws.(usage := b.ws.usage.(pendingBytes := b.ws.usage.pendingBytes + n)),
          b.account.(pendingBytes := b.account.pendingBytes + n))
  }

  function ReleasePending(b: Books, n: int): Books {
    AddPending(b, -n)
  }

  function AddAvailable(b: Books, n: int): Books {
    Books(b.ws.(usage := b.ws.usage.(storageBytes := b.ws.usage.storageBytes + n,
                                     objectCount := b.ws.usage.objectCount + 1)),
          b.account.(storageBytes := b.account.storageBytes + n))
  }

  function CompleteBytes(b: Books, n: int): Books {
    AddAvailable(ReleasePending(b, n), n)
  }

  function PutObject(b: Books, id: string, o: SyncObject): Books {
    b.(ws := b.ws.(objects := b.ws.objects[id := o]))
  }

  // ----- Reservation -----

  function ReservedRow(cfg: Config, device: Uuid, kind: ObjectKind, now: int): SyncObject {
    SyncObject(kind, cfg.driver, "", 0, Reserved, None, device, Some(now + cfg.maxPendingAge))
  }

  /** The reservation loop. `ids` are the random object ids drawn, one per request; a collision breaks
      the primary key and aborts the transaction. */
  function ReserveAll(cfg: Config, ws: Workspace, device: Uuid, requests: seq<ReservationRequest>,
                      ids: seq<string>, now: int): Result<Workspace, SyncError>
    requires |ids| == |requests|
    decreases |requests|
  {
    if requests == [] then Success(ws)
    else if TrimSpace(requests[0].clientRef) == "" || requests[0].kind.None? then Failure(InvalidArgument)
    else if ids[0] in ws.objects then Failure(ConstraintViolation)
    else
      var row := ReservedRow(cfg, device, requests[0].kind.value, now);
      ReserveAll(cfg, ws.(objects := ws.objects[ids[0] := row]), device, requests[1..], ids[1..], now)
  }

  // ----- Upload batches -----

  datatype Candidate = Candidate(id: string, sha: string, size: int)

  datatype UploadScan = UploadScan(seen: set<string>, candidates: seq<Candidate>, bytes: int)

  function ValidateDescriptor(sha: string, size: int): Result<string, SyncError> {
    var digest := NormalizeDigest(sha);
    if !IsHexOfDigestLength(digest) then Failure(InvalidArgument)
    else if size <= 0 then Failure(ObjectMetadataMismatch)
    else Success(digest)
  }

  predicate Expired(o: SyncObject, now: int) {
    o.expiresAt.Some? && o.expiresAt.value <= now
  }

  /** One request of an upload batch, checked against the rows as they were when the call began. */
  function ScanUpload(cfg: Config, ws: Workspace, device: Uuid, now: int, scan: UploadScan, r: UploadRequest)
    : Result<UploadScan, SyncError>
  {
    var id := TrimSpace(r.objectId);
    if id == "" || id in scan.seen || r.kind.None? then Failure(InvalidArgument) else
    var sha :- ValidateDescriptor(r.sha, r.size);
    if r.size > cfg.maxBlobBytes then Failure(Quota(SingleBlob, cfg.maxBlobBytes, 0, r.size))
    else if !Live(ws.objects, id) || ws.objects[id].owner != device then Failure(PermissionDenied) else
    var row := ws.objects[id];
    if row.kind != r.kind.value || row.provider != cfg.driver then Failure(ObjectMetadataMismatch) else
    var more := UploadScan(scan.seen + {id}, scan.candidates + [Candidate(id, sha, r.size)], scan.bytes);
    match row.state
    case Reserved => Success(more.(bytes := scan.bytes + r.size))
    case Pending =>
      if row.sha != sha || row.size != r.size then Failure(ObjectMetadataMismatch)
      else if Expired(row, now) then Failure(ObjectNotAvailable)
      else Success(more)
    case _ => Failure(ObjectNotAvailable)
  }

  function ScanUploads(cfg: Config, ws: Workspace, device: Uuid, now: int, scan: UploadScan,
                       requests: seq<UploadRequest>)
    : Result<UploadScan, SyncError>
    decreases |requests|
  {
    if requests == [] then Success(scan) else
      var next :- ScanUpload(cfg, ws, device, now, scan, requests[0]);
      ScanUploads(cfg, ws, device, now, next, requests[1..])
  }

  function CheckUploadQuota(cfg: Config, account: Account, usage: Usage, more: int): Option<SyncError> {
    if usage.pendingBytes + more > cfg.maxPendingBytes then
      Some(Quota(PendingUpload, cfg.maxPendingBytes, usage.pendingBytes, more))
    else if account.storageBytes + account.pendingBytes + more > cfg.maxUserBytes then
      Some(Quota(UserTotalStorage, cfg.maxUserBytes, account.storageBytes + account.pendingBytes, more))
    else if usage.storageBytes + usage.pendingBytes + more > cfg.maxWorkspaceBytes then
      Some(Quota(WorkspaceStorage, cfg.maxWorkspaceBytes, usage.storageBytes + usage.pendingBytes, more))
    else None
  }

  function PendingRow(row: SyncObject, c: Candidate, expiry: int): SyncObject {
    row.(state := Pending, sha := c.sha, size := c.size, expiresAt := Some(expiry), error := None)
  }

  /** The second loop: mark each candidate pending and presign it. `unsigned` are the ids for which the
      store fails to presign. */
  function MarkAllPending(b: Books, candidates: seq<Candidate>, expiry: int, unsigned: set<string>)
    : Result<Books, SyncError>
    decreases |candidates|
  {
    if candidates == [] then Success(b) else
      var c := candidates[0];
      if !(c.id in b.ws.objects && b.ws.objects[c.id].state in {Reserved, Pending}) then Failure(NoRows)
      else if c.id in unsigned then Failure(StoreError)
      else MarkAllPending(PutObject(b, c.id, PendingRow(b.ws.objects[c.id], c, expiry)), candidates[1..], expiry,
        unsigned)
  }

  function UploadArguments(cfg: Config, attempt: string, count: nat): Option<SyncError> {
    if TrimSpace(attempt) == "" || count == 0 || count > MAX_TRANSFER_BATCH then Some(InvalidArgument)
    else if cfg.driver != S3Compatible then Some(NotImplemented)
    else None
  }

  datatype Upload = Upload(books: Books, candidates: seq<Candidate>)

  function CreateUploads(cfg: Config, b: Books, device: Uuid, requests: seq<UploadRequest>, now: int,
                         unsigned: set<string>)
    : Result<Upload, SyncError>
  {
    var scan :- ScanUploads(cfg, b.ws, device, now, UploadScan({}, [], 0), requests);
    match CheckUploadQuota(cfg, b.account, b.ws.usage, scan.bytes)
    case Some(e) => Failure(e)
    case None =>
      var charged := if scan.bytes > 0 then AddPending(b, scan.bytes) else b;
      var marked :- MarkAllPending(charged, scan.candidates, now + cfg.maxPendingAge, unsigned);
      Success(Upload(marked, scan.candidates))
  }

  // ----- Completion -----

  datatype Completion = Completion(seen: set<string>, books: Books, results: seq<UploadOutcome>)

  function AvailableRow(row: SyncObject, sha: string, size: int): SyncObject {
    row.(state := Available, sha := sha, size := size, expiresAt := None, error := None)
  }

  function FailPending(c: Completion, id: string, reason: ErrorReason): Completion
    requires id in c.books.ws.objects
  {
    var row := c.books.ws.objects[id];
    var released := if row.size > 0 then ReleasePending(c.books, row.size) else c.books;
    var failed := row.(state := Failed, error := Some(reason));
    c.(books := PutObject(released, id, failed), results := c.results + [UploadOutcome(id, failed, Some(reason))])
  }

  /** Why a pending upload cannot become available, in the order the checks run. */
  function CompletionFault(row: SyncObject, sha: string, size: int, now: int, found: Option<Blob>): Option<ErrorReason>
  {
    if Expired(row, now) then Some(UploadExpired)
    else if row.size != size then Some(SizeMismatch)
    else if row.sha != sha then Some(ChecksumMismatch)
    else
      match found
      case None => Some(StorageProviderError)
      case Some(blob) =>
        if blob.size != row.size then Some(SizeMismatch)
        else if NormalizeDigest(blob.sha) != row.sha then Some(ChecksumMismatch)
        else None
  }

  /** The store is asked only when the request itself is in order. */
  predicate AsksStore(row: SyncObject, sha: string, size: int, now: int) {
    !Expired(row, now) && row.size == size && row.sha == sha
  }

  function FindBlob(ws: Workspace, id: string): Option<Blob> {
    if id in ws.blobs then Some(ws.blobs[id]) else None
  }

  /** One request of a completion batch. `unreachable` are the ids for which the store's Head call
      fails with anything but not-found. */
  function CompleteOne(device: Uuid, now: int, unreachable: set<string>, c: Completion, r: CompleteRequest)
    : Result<Completion, SyncError>
  {
    var id := TrimSpace(r.objectId);
    var ws := c.books.ws;
    if id == "" || id in c.seen then Failure(InvalidArgument) else
    var sha :- ValidateDescriptor(r.sha, r.size);
    if !Live(ws.objects, id) || ws.objects[id].owner != device then Failure(PermissionDenied) else
    var row := ws.objects[id];
    var next := c.(seen := c.seen + {id});
    if row.state == Available then
      if row.sha == sha && row.size == r.size then Success(next.(results := c.results + [UploadOutcome(id, row, None)]))
      else Failure(ObjectMetadataMismatch)
    else if row.state != Pending then Failure(ObjectNotAvailable)
    else if AsksStore(row, sha, r.size, now) && id in unreachable then Failure(StoreError)
    else
      match CompletionFault(row, sha, r.size, now, FindBlob(ws, id))
      case Some(reason) => Success(FailPending(next, id, reason))
      case None =>
        var available := AvailableRow(row, row.sha, row.size);
        Success(next.(books := CompleteBytes(PutObject(c.books, id, available), row.size),
                      results := c.results + [UploadOutcome(id, available, None)]))
  }

  function CompleteAll(device: Uuid, now: int, unreachable: set<string>, c: Completion, requests: seq<CompleteRequest>)
    : Result<Completion, SyncError>
    decreases |requests|
  {
    if requests == [] then Success(c) else
      var next :- CompleteOne(device, now, unreachable, c, requests[0]);
      CompleteAll(device, now, unreachable, next, requests[1..])
  }

  // ----- Direct upload (local store, development only) -----

  function DirectArguments(cfg: Config, sha: string, size: int, bytes: seq<bv8>): Option<SyncError> {
    if !cfg.devBytesEnabled then Some(DevBytesDisabled) else
    match ValidateDescriptor(sha, size)
    case Failure(e) => Some(e)
    case Success(digest) =>
      if |bytes| != size || cfg.sha256Hex(bytes) != digest then Some(ObjectMetadataMismatch)
      else if size > cfg.maxBlobBytes then Some(Quota(SingleBlob, cfg.maxBlobBytes, 0, size))
      else None
  }

  function DirectQuota(cfg: Config, account: Account, usage: Usage, size: int): Option<SyncError> {
    if account.storageBytes + size > cfg.maxUserBytes then
      Some(Quota(UserTotalStorage, cfg.maxUserBytes, account.storageBytes, size))
    else if usage.storageBytes + size > cfg.maxWorkspaceBytes then
      Some(Quota(WorkspaceStorage, cfg.maxWorkspaceBytes, usage.storageBytes, size))
    else None
  }

  /** `putFails`: the store's Put call returns an error. */
  function UploadDirect(cfg: Config, b: Books, id: string, sha: string, size: int, putFails: bool)
    : Result<Books, SyncError>
  {
    match DirectQuota(cfg, b.account, b.ws.usage, size)
    case Some(e) => Failure(e)
    case None =>
      if !Live(b.ws.objects, id) then Failure(PermissionDenied) else
      var row := b.ws.objects[id];
      if row.provider != Local then Failure(DevBytesDisabled)
      else if row.state == Available then
        if row.sha == sha && row.size == size then Success(b) else Failure(ObjectMetadataMismatch)
      else if row.state != Reserved && row.state != Pending then Failure(ObjectNotAvailable)
      else if putFails then Failure(StoreError)
      else
        var stored := b.(ws := b.ws.(blobs := b.ws.blobs[id := Blob(size, sha)]));
        Success(AddAvailable(PutObject(stored, id, AvailableRow(row, sha, size)), size))
  }
}
