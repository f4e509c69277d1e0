/** What each call answers and what it changes, in terms of the database before and after it and of conditions its
    caller can check. */
module SyncAnswers {
  import opened Wrappers
  import opened Text
  import opened SyncTypes
  import opened SyncCommits
  import opened SyncStorage
  import opened SyncOutcomes
  import opened SyncLog
  import opened SyncServer
  import opened SyncTheorems

  predicate OwnWorkspace(db: Db, user: Uuid, w: Uuid) {
    w in db.workspaces && db.workspaces[w].owner == user
  }

  predicate OwnDevice(db: Db, user: Uuid, w: Uuid, device: Uuid) {
    OwnWorkspace(db, user, w) && device in db.workspaces[w].devices && db.workspaces[w].devices[device].user == user
  }

  /** A transfer batch that is looked at. */
  predicate BatchOk(attempt: string, count: nat) {
    TrimSpace(attempt) != "" && 1 <= count <= 100
  }

  // ----- Set-up -----

  lemma CreateWorkspaceAnswers(cfg: Config, db: Db, user: Uuid, cryptoVersion: string, id: Uuid)
    ensures var (after, r) := CreateWorkspace(cfg, db, user, cryptoVersion, id);
            var account := if user in db.accounts then db.accounts[user] else Account(0, 0, 0);
            && (r.Success? <==>
                  TrimSpace(cryptoVersion) != "" && account.workspaceCount < cfg.maxWorkspaces && id !in db.workspaces)
            && (r.Success? ==>
                  && r.value == id && after.lastServerSeq == db.lastServerSeq
                  && after.workspaces == db.workspaces[id := Workspace(user, None, 0, map[], map[], map[], map[], {},
                                                                       Usage(0, 0, 0), map[])]
                  && after.accounts == db.accounts[user := Account(account.workspaceCount + 1, account.storageBytes,
                                                                   account.pendingBytes)])
            && (r.Failure? ==> after == db)
            && (r == Failure(InvalidArgument) <==> TrimSpace(cryptoVersion) == "")
            && (r == Failure(Quota(WorkspaceCount, cfg.maxWorkspaces, account.workspaceCount, 1)) <==>
                  TrimSpace(cryptoVersion) != "" && account.workspaceCount >= cfg.maxWorkspaces)
  {
    hide TrimSpace;
  }

  lemma RegisterDeviceAnswers(db: Db, user: Uuid, w: Uuid, publicKey: seq<bv8>, id: Uuid)
    ensures var (after, r) := RegisterDevice(db, user, w, publicKey, id);
            var taken := exists v :: v in db.workspaces && id in db.workspaces[v].devices;
            && (r.Success? <==> |publicKey| == 32 && OwnWorkspace(db, user, w) && !taken)
            && (r.Success? ==>
                  && r.value == id
                  && after == db.(workspaces := after.workspaces)
                  && after.workspaces == db.workspaces[w := db.workspaces[w].(
                       devices := db.workspaces[w].devices[id := Device(user, publicKey, 0)])])
            && (r.Failure? ==> after == db)
            && (r == Failure(InvalidArgument) <==> |publicKey| != 32)
            && (r == Failure(PermissionDenied) <==> |publicKey| == 32 && !OwnWorkspace(db, user, w))
  {
  }

  // ----- Objects -----

  /** Reservation succeeds for 1 to 100 well-formed requests by a device of the owner whose drawn ids are new. */
  lemma ReserveAnswers(cfg: Config, db: Db, user: Uuid, w: Uuid, device: Uuid, requests: seq<ReservationRequest>,
                       ids: seq<string>, now: int, id: string)
    requires |ids| == |requests|
    ensures var (after, r) := ReserveObjectIds(cfg, db, user, w, device, requests, ids, now);
            var sized, own := 1 <= |requests| <= 100, OwnDevice(db, user, w, device);
            && (!sized ==> r == Failure(InvalidArgument))
            && (sized && !own ==> r == Failure(PermissionDenied))
            && (r.Success? <==>
                  && sized && own && !HasDuplicate(ids)
                  && forall i :: 0 <= i < |requests| ==>
                       Reservable(requests[i]) && ids[i] !in db.workspaces[w].objects)
            && (r.Success? ==>
                  && r.value == ids && after == db.(workspaces := after.workspaces)
                  && after.workspaces == db.workspaces[w := after.workspaces[w]]
                  && var ws, v := db.workspaces[w], after.workspaces[w];
                     && v == ws.(objects := v.objects)
                     && (forall i :: 0 <= i < |requests| && ids[i] == id ==>
                           && id in v.objects && requests[i].kind.Some?
                           && v.objects[id] == SyncObject(requests[i].kind.value, cfg.driver, "", 0, Reserved, None,
                                                          device, Some(now + cfg.maxPendingAge)))
                     && (id !in ids ==> Same(ws.objects, v.objects, id)))
            && (r.Failure? ==> after == db)
            && (r.Failure? && sized && own ==>
                  exists i: nat :: ReservationRefusedAt(db.workspaces[w].objects, requests, ids, i, r.error))
  {
    hide ReserveAll, HasDuplicate, Reservable, Same;
    if 1 <= |requests| <= 100 && OwnDevice(db, user, w, device) {
      var ws := db.workspaces[w];
      ReservationSucceeds(cfg, ws, device, requests, ids, now);
      if ReserveAll(cfg, ws, device, requests, ids, now).Success? {
        ReservationOutcome(cfg, ws, device, requests, ids, now, id);
      } else {
        var i := ReservationFails(cfg, ws, device, requests, ids, now);
      }
    }
  }

  /** A call on transfers looks at its batch only for 1 to 100 objects, under S3, for a device of the owner. */
  predicate TransferRefused(cfg: Config, db: Db, user: Uuid, w: Uuid, device: Uuid, attempt: string, count: nat,
                            e: SyncError)
  {
    match e
    case InvalidArgument => !BatchOk(attempt, count)
    case NotImplemented => BatchOk(attempt, count) && cfg.driver != S3Compatible
    case PermissionDenied => BatchOk(attempt, count) && cfg.driver == S3Compatible && !OwnDevice(db, user, w, device)
    case _ => false
  }

  predicate TransferOpen(cfg: Config, db: Db, user: Uuid, w: Uuid, device: Uuid, attempt: string, count: nat) {
    BatchOk(attempt, count) && cfg.driver == S3Compatible && OwnDevice(db, user, w, device)
  }

  lemma UploadAnswers(cfg: Config, db: Db, user: Uuid, w: Uuid, device: Uuid, attempt: string,
                      requests: seq<UploadRequest>, now: int, unsigned: set<string>)
    requires user in db.accounts
    ensures var (after, r) := CreateObjectUploadBatch(cfg, db, user, w, device, attempt, requests, now, unsigned);
            if TransferOpen(cfg, db, user, w, device, attempt, |requests|) then
              var batch := CreateUploads(cfg, BooksOf(db, w), device, requests, now, unsigned);
              if batch.Failure? then r == Failure(batch.error) && after == db
              else
                && r == Success(Requested(requests))
                && after == db.(workspaces := db.workspaces[w := batch.value.books.ws],
                                accounts := db.accounts[user := batch.value.books.account])
            else r.Failure? && after == db && TransferRefused(cfg, db, user, w, device, attempt, |requests|, r.error)
  {
    hide TrimSpace, CreateUploads;
    if TransferOpen(cfg, db, user, w, device, attempt, |requests|) {
      UploadBatchAnswers(cfg, BooksOf(db, w), device, requests, now, unsigned);
      UploadsKeepOwner(cfg, BooksOf(db, w), device, requests, now, unsigned);
    }
  }

  lemma {:induction false} MarkingKeepsOwner(b: Books, candidates: seq<Candidate>, expiry: int, unsigned: set<string>)
    ensures MarkAllPending(b, candidates, expiry, unsigned).Success? ==>
      MarkAllPending(b, candidates, expiry, unsigned).value.ws.owner == b.ws.owner
    decreases |candidates|
  {
    if candidates != [] && candidates[0].id in b.ws.objects {
      var c := candidates[0];
      MarkingKeepsOwner(PutObject(b, c.id, PendingRow(b.ws.objects[c.id], c, expiry)), candidates[1..], expiry,
                        unsigned);
    }
  }

  lemma UploadsKeepOwner(cfg: Config, b: Books, device: Uuid, requests: seq<UploadRequest>, now: int,
                         unsigned: set<string>)
    ensures CreateUploads(cfg, b, device, requests, now, unsigned).Success? ==>
      CreateUploads(cfg, b, device, requests, now, unsigned).value.books.ws.owner == b.ws.owner
  {
    hide ScanUploads, MarkAllPending;
    var scan := ScanUploads(cfg, b.ws, device, now, UploadScan({}, [], 0), requests);
    if scan.Success? {
      var charged := if scan.value.bytes > 0 then AddPending(b, scan.value.bytes) else b;
      MarkingKeepsOwner(charged, scan.value.candidates, now + cfg.maxPendingAge, unsigned);
    }
  }

  lemma CompletionAnswers(cfg: Config, db: Db, user: Uuid, w: Uuid, device: Uuid, attempt: string,
                          requests: seq<CompleteRequest>, now: int, unreachable: set<string>)
    requires user in db.accounts
    ensures var (after, r) := CompleteObjectUploadBatch(cfg, db, user, w, device, attempt, requests, now, unreachable);
            if TransferOpen(cfg, db, user, w, device, attempt, |requests|) then
              var batch := CompleteAll(device, now, unreachable, Completion({}, BooksOf(db, w), []), requests);
              if batch.Failure? then r == Failure(batch.error) && after == db
              else
                && r == Success(batch.value.results)
                && after == db.(workspaces := db.workspaces[w := batch.value.books.ws],
                                accounts := db.accounts[user := batch.value.books.account])
            else r.Failure? && after == db && TransferRefused(cfg, db, user, w, device, attempt, |requests|, r.error)
  {
    hide TrimSpace, CompleteAll;
    if TransferOpen(cfg, db, user, w, device, attempt, |requests|) {
      CompletionKeepsOwner(device, now, unreachable, Completion({}, BooksOf(db, w), []), requests);
    }
  }

  lemma {:induction false} CompletionKeepsOwner(device: Uuid, now: int, unreachable: set<string>, c: Completion,
                                                requests: seq<CompleteRequest>)
    ensures CompleteAll(device, now, unreachable, c, requests).Success? ==>
      CompleteAll(device, now, unreachable, c, requests).value.books.ws.owner == c.books.ws.owner
    decreases |requests|
  {
    hide CompleteOne;
    if requests != [] {
      OneKeepsOwner(device, now, unreachable, c, requests[0]);
      var next := CompleteOne(device, now, unreachable, c, requests[0]);
      if next.Success? {
        CompletionKeepsOwner(device, now, unreachable, next.value, requests[1..]);
      }
    }
  }

  lemma OneKeepsOwner(device: Uuid, now: int, unreachable: set<string>, c: Completion, r: CompleteRequest)
    ensures CompleteOne(device, now, unreachable, c, r).Success? ==>
      CompleteOne(device, now, unreachable, c, r).value.books.ws.owner == c.books.ws.owner
  {
    hide TrimSpace, NormalizeDigest, IsHexOfDigestLength, CompletionFault;
  }

  // ----- Direct uploads -----

  predicate DirectArgumentsOk(cfg: Config, sha: string, size: int, bytes: seq<bv8>) {
    && cfg.devBytesEnabled && IsHexOfDigestLength(NormalizeDigest(sha)) && 0 < size <= cfg.maxBlobBytes
    && |bytes| == size && cfg.sha256Hex(bytes) == NormalizeDigest(sha)
  }

  predicate DirectWithinQuota(cfg: Config, db: Db, user: Uuid, w: Uuid, size: int)
    requires user in db.accounts && w in db.workspaces
  {
    && db.accounts[user].storageBytes + size <= cfg.maxUserBytes
    && db.workspaces[w].usage.storageBytes + size <= cfg.maxWorkspaceBytes
  }

  /** A row the bytes may be stored for, or an available one that has them already. */
  predicate DirectRowOk(row: SyncObject, sha: string, size: int, putFails: bool) {
    && row.provider == Local
    && match row.state
       case Available => SameDescriptor(row, sha, size)
       case Reserved => !putFails
       case Pending => !putFails
       case _ => false
  }

  /** A direct upload succeeds exactly for bytes of the announced length and hash; the object then is available with
      both, and the store holds them. An available object with the same descriptor is left alone. */
  lemma DirectAnswers(cfg: Config, db: Db, user: Uuid, w: Uuid, device: Uuid, objectId: string, sha: string, size: int,
                      bytes: seq<bv8>, putFails: bool, other: string)
    requires user in db.accounts
    ensures var (after, r) := UploadObjectBytesDev(cfg, db, user, w, device, objectId, sha, size, bytes, putFails);
            && (r.Success? <==>
                  && DirectArgumentsOk(cfg, sha, size, bytes) && OwnDevice(db, user, w, device)
                  && DirectWithinQuota(cfg, db, user, w, size)
                  && objectId in db.workspaces[w].objects
                  && DirectRowOk(db.workspaces[w].objects[objectId], sha, size, putFails))
            && (r.Failure? ==> after == db)
            && (r.Success? ==>
                  var ws, v, row := db.workspaces[w], after.workspaces[w], db.workspaces[w].objects[objectId];
                  && objectId in v.objects && r.value == v.objects[objectId]
                  && after.lastServerSeq == db.lastServerSeq
                  && after.workspaces == db.workspaces[w := v]
                  && after.accounts == db.accounts[user := after.accounts[user]]
                  && (other != objectId ==>
                        Same(ws.objects, v.objects, other) && FindBlob(v, other) == FindBlob(ws, other))
                  && if row.state == Available then v == ws
                     else
                       && v.objects[objectId] == SyncObject(row.kind, Local, NormalizeDigest(sha), size, Available,
                                                            None, row.owner, None)
                       && FindBlob(v, objectId) == Some(Blob(|bytes|, cfg.sha256Hex(bytes))))
  {
    hide NormalizeDigest, IsHexOfDigestLength;
  }

  /** What each error of a direct upload says. */
  predicate DirectRefused(cfg: Config, db: Db, user: Uuid, w: Uuid, device: Uuid, objectId: string, sha: string,
                          size: int, bytes: seq<bv8>, putFails: bool, e: SyncError)
    requires user in db.accounts
  {
    var hex := cfg.devBytesEnabled && IsHexOfDigestLength(NormalizeDigest(sha));
    var exact := hex && |bytes| == size > 0 && cfg.sha256Hex(bytes) == NormalizeDigest(sha);
    var own := DirectArgumentsOk(cfg, sha, size, bytes) && OwnDevice(db, user, w, device);
    var paid := own && DirectWithinQuota(cfg, db, user, w, size);
    var found := paid && Live(db.workspaces[w].objects, objectId);
    var stored := if own then db.workspaces[w].usage.storageBytes else 0;
    match e
    case DevBytesDisabled =>
      !cfg.devBytesEnabled || (found && db.workspaces[w].objects[objectId].provider != Local)
    case InvalidArgument => cfg.devBytesEnabled && !hex
    case ObjectMetadataMismatch =>
      || (hex && !exact)
      || (found && db.workspaces[w].objects[objectId].provider == Local
          && db.workspaces[w].objects[objectId].state == Available
          && !SameDescriptor(db.workspaces[w].objects[objectId], sha, size))
    case Quota(SingleBlob, max, current, more) =>
      exact && max == cfg.maxBlobBytes < size && current == 0 && more == size
    case Quota(UserTotalStorage, max, current, more) =>
      own && max == cfg.maxUserBytes < current + size && current == db.accounts[user].storageBytes && more == size
    case Quota(WorkspaceStorage, max, current, more) =>
      && own && db.accounts[user].storageBytes + size <= cfg.maxUserBytes
      && max == cfg.maxWorkspaceBytes < current + size && current == stored && more == size
    case PermissionDenied =>
      (DirectArgumentsOk(cfg, sha, size, bytes) && !OwnDevice(db, user, w, device)) || (paid && !found)
    case ObjectNotAvailable =>
      && found && db.workspaces[w].objects[objectId].provider == Local
      && db.workspaces[w].objects[objectId].state == Failed
    case StoreError =>
      && found && db.workspaces[w].objects[objectId].provider == Local
      && db.workspaces[w].objects[objectId].state in {Reserved, Pending} && putFails
    case _ => false
  }

  lemma DirectReasons(cfg: Config, db: Db, user: Uuid, w: Uuid, device: Uuid, objectId: string, sha: string, size: int,
                      bytes: seq<bv8>, putFails: bool, e: SyncError)
    requires user in db.accounts
    ensures UploadObjectBytesDev(cfg, db, user, w, device, objectId, sha, size, bytes, putFails).1 == Failure(e) <==>
      DirectRefused(cfg, db, user, w, device, objectId, sha, size, bytes, putFails, e)
  {
    hide NormalizeDigest, IsHexOfDigestLength;
  }

  // ----- Publishing -----

  /** The row a request is stored as. */
  function StoredRow(n: PublishParams, serverSeq: int): Commit
    requires n.kind.Some?
  {
    Commit(n.kind.value, if n.expectedHead == "" then None else Some(n.expectedHead), n.parents, n.author, n.deviceSeq,
           n.body, n.bodySha, n.bodySize, n.refs, n.signature, serverSeq)
  }

  predicate AtHead(ws: Workspace, n: PublishParams) {
    n.expectedHead == if ws.head.Some? then ws.head.value else ""
  }

  predicate ByDevice(ws: Workspace, user: Uuid, n: PublishParams) {
    n.author in ws.devices && ws.devices[n.author].user == user
  }

  /** The author's device signed every field of the request. */
  predicate IsSigned(cfg: Config, ws: Workspace, n: PublishParams)
    requires n.author in ws.devices && n.kind.Some?
  {
    && |ws.devices[n.author].publicKey| == 32
    && cfg.verify(ws.devices[n.author].publicKey,
                  CommitPayload(n.workspaceId, n.commitId, n.kind.value, n.expectedHead, n.parents, n.author,
                                n.deviceSeq, n.body, n.bodySha, n.bodySize, n.refs),
                  n.signature)
  }

  predicate ParentsFit(ws: Workspace, n: PublishParams)
    requires n.kind.Some?
  {
    ShapeOk(StoredRow(n, 0)) && forall p :: p in n.parents ==> p in ws.commits
  }

  /** What a new commit must be. */
  predicate Admitted(cfg: Config, ws: Workspace, user: Uuid, n: PublishParams)
    requires n.kind.Some?
  {
    && AtHead(ws, n) && ByDevice(ws, user, n) && ws.devices[n.author].lastSeq < n.deviceSeq && IsSigned(cfg, ws, n)
    && ParentsFit(ws, n) && Published(ws.objects, StoredRow(n, 0))
  }

  predicate BodyReady(ws: Workspace, n: PublishParams) {
    n.body in ws.objects && ws.objects[n.body].state == Available && ws.objects[n.body].kind == CommitBody
  }

  predicate BodyMatches(ws: Workspace, n: PublishParams) {
    BodyReady(ws, n) && ws.objects[n.body].sha == n.bodySha && ws.objects[n.body].size == n.bodySize
  }

  predicate IsAvailable(objects: map<string, SyncObject>, id: string, body: bool) {
    id in objects && objects[id].state == Available && (objects[id].kind == CommitBody <==> body)
  }

  /** A reference at `i`, and none before it, is a commit body; all references are there. */
  predicate RefersToBody(ws: Workspace, n: PublishParams, i: nat) {
    && i < |n.refs| && (forall r :: r in n.refs ==> Live(ws.objects, r))
    && (forall j :: 0 <= j < i ==> IsAvailable(ws.objects, n.refs[j], false))
    && IsAvailable(ws.objects, n.refs[i], true)
  }

  /** What each error says about a new commit. */
  ghost predicate PublishRefused(cfg: Config, ws: Workspace, user: Uuid, n: PublishParams, e: SyncError)
    requires n.kind.Some?
  {
    var byDevice := AtHead(ws, n) && ByDevice(ws, user, n);
    var next := byDevice && ws.devices[n.author].lastSeq < n.deviceSeq;
    var signed := next && IsSigned(cfg, ws, n);
    var placed := signed && ParentsFit(ws, n);
    match e
    case HeadConflict(w, head, version) =>
      !AtHead(ws, n) && w == n.workspaceId && head == TextValue(ws.head) && version == ws.headVersion
    case PermissionDenied => AtHead(ws, n) && !byDevice
    case DuplicateDeviceSeq => byDevice && !next
    case InvalidSignature => next && !signed
    case InvalidCommitParent => signed && !placed
    case ObjectMetadataMismatch => placed && BodyReady(ws, n) && !BodyMatches(ws, n)
    case InvalidArgument => placed && BodyMatches(ws, n) && exists i: nat :: RefersToBody(ws, n, i)
    case ObjectNotAvailable =>
      && placed && (BodyReady(ws, n) ==> BodyMatches(ws, n)) && !Published(ws.objects, StoredRow(n, 0))
      && !(BodyMatches(ws, n) && exists i: nat :: RefersToBody(ws, n, i))
    case _ => false
  }

  lemma RefusalIsExact(cfg: Config, ws: Workspace, user: Uuid, n: PublishParams)
    requires Normal(n)
    ensures Refusal(cfg, ws, user, n).None? <==> Admitted(cfg, ws, user, n)
    ensures Refusal(cfg, ws, user, n).Some? ==> PublishRefused(cfg, ws, user, n, Refusal(cfg, ws, user, n).value)
  {
    hide NormalIds, Trimmed, IsDigest, Sorted, ObjectsError, Published;
    ObjectsErrorIsExact(ws, n, 0);
    ObjectsErrorReason(ws, n);
  }

  lemma ObjectsErrorReason(ws: Workspace, n: PublishParams)
    requires n.kind.Some?
    ensures ObjectsError(ws, n) == Some(ObjectMetadataMismatch) <==> BodyReady(ws, n) && !BodyMatches(ws, n)
    ensures ObjectsError(ws, n) == Some(InvalidArgument) <==>
      BodyMatches(ws, n) && exists i: nat :: RefersToBody(ws, n, i)
    ensures ObjectsError(ws, n).Some? ==>
      ObjectsError(ws, n).value in {ObjectMetadataMismatch, InvalidArgument, ObjectNotAvailable}
  {
    hide RefersToBody, HasCheckpointPack;
    var found := FoundRefs(ws.objects, n.refs);
    if forall r :: r in n.refs ==> Live(ws.objects, r) {
      AllFound(ws.objects, n.refs);
      RefsErrorReason(ws, n);
    } else {
      assert found != n.refs;
      NotAllThere(ws, n);
    }
  }

  lemma NotAllThere(ws: Workspace, n: PublishParams)
    requires !(forall r :: r in n.refs ==> Live(ws.objects, r))
    ensures forall i: nat :: !RefersToBody(ws, n, i)
  {
  }

  lemma RefsErrorReason(ws: Workspace, n: PublishParams)
    requires forall r :: r in n.refs ==> r in ws.objects && Live(ws.objects, r)
    ensures RefsError(ws.objects, n.refs) == Some(InvalidArgument) <==> exists i: nat :: RefersToBody(ws, n, i)
    ensures RefsError(ws.objects, n.refs).Some? ==>
      RefsError(ws.objects, n.refs).value in {InvalidArgument, ObjectNotAvailable}
  {
    var k := FirstBadRef(ws.objects, n.refs);
    if k < |n.refs| && ws.objects[n.refs[k]].state == Available {
      assert RefersToBody(ws, n, k);
    }
  }

  lemma {:induction false} FirstBadRef(objects: map<string, SyncObject>, refs: seq<string>) returns (k: nat)
    requires forall r :: r in refs ==> r in objects
    ensures k <= |refs|
    ensures forall j :: 0 <= j < k ==> objects[refs[j]].state == Available && objects[refs[j]].kind != CommitBody
    ensures k == |refs| ==> RefsError(objects, refs).None?
    ensures k < |refs| ==>
      && (objects[refs[k]].state != Available || objects[refs[k]].kind == CommitBody)
      && RefsError(objects, refs) ==
           Some(if objects[refs[k]].state != Available then ObjectNotAvailable else InvalidArgument)
  {
    k := 0;
    if refs != [] && objects[refs[0]].state == Available && objects[refs[0]].kind != CommitBody {
      k := FirstBadRef(objects, refs[1..]);
      k := k + 1;
    }
  }

  /** The cursor of the author after a commit. */
  function CursorAfter(ws: Workspace, n: PublishParams): Cursor {
    Cursor(Some(n.commitId),
           if n.kind == Some(Checkpoint) then Some(n.commitId)
           else if n.author in ws.cursors then ws.cursors[n.author].lastCheckpoint
           else None)
  }

  /** The new commit is the head; its device, its cursor, its row and its links change, and nothing else. */
  ghost predicate IsPublishedIn(ws: Workspace, v: Workspace, n: PublishParams, serverSeq: int)
    requires n.kind.Some? && n.author in ws.devices
  {
    && v == ws.(head := Some(n.commitId), headVersion := ws.headVersion + 1,
                commits := ws.commits[n.commitId := StoredRow(n, serverSeq)],
                devices := ws.devices[n.author := ws.devices[n.author].(lastSeq := n.deviceSeq)],
                cursors := ws.cursors[n.author := CursorAfter(ws, n)],
                links := v.links)
    && (forall l :: l in ws.links ==> l in v.links)
    && (forall l :: l in v.links && l !in ws.links ==>
          l.commitId == n.commitId && (l.objectId == n.body || l.objectId in n.refs))
  }

  lemma AppendEffect(ws: Workspace, n: PublishParams, serverSeq: int)
    requires Normal(n) && n.author in ws.devices && forall r :: r in n.refs ==> r in ws.objects
    ensures n.kind.Some? && IsPublishedIn(ws, Append(ws, n, serverSeq), n, serverSeq)
    ensures Append(ws, n, serverSeq).commits[n.commitId] == StoredRow(n, serverSeq)
    ensures Append(ws, n, serverSeq).headVersion == ws.headVersion + 1
  {
    hide NormalIds, Trimmed, IsDigest, Sorted, AddLink, AddRefLinks;
    LinksGrow(ws, n);
  }

  lemma PublishInAnswers(cfg: Config, ws: Workspace, user: Uuid, n: PublishParams, serverSeq: int)
    requires Normal(n) && n.kind.Some? && n.commitId !in ws.commits
    ensures var (v, r) := PublishIn(cfg, ws, user, n, serverSeq);
            && (r.Success? <==> Admitted(cfg, ws, user, n))
            && (r.Success? ==>
                  && r.value == PublishResult(StoredRow(n, serverSeq), ws.headVersion + 1, false)
                  && n.author in ws.devices && IsPublishedIn(ws, v, n, serverSeq))
            && (r.Failure? ==> v == ws && PublishRefused(cfg, ws, user, n, r.error))
  {
    hide Refusal, Admitted, PublishRefused, Append, Normal, IsPublishedIn, StoredRow;
    RefusalIsExact(cfg, ws, user, n);
    if Refusal(cfg, ws, user, n).None? {
      RefusalNoneImpliesRefsPresent(cfg, ws, user, n);
      AppendEffect(ws, n, serverSeq);
    }
  }

  /** A new commit is published exactly when it is admitted: signed, in sequence, on top of the head and restorable.
      A refused request changes nothing and learns why. */
  lemma PublishAnswers(cfg: Config, db: Db, user: Uuid, p: PublishParams, gap: nat)
    requires Normalize(p).Success? && OwnWorkspace(db, user, Normalize(p).value.workspaceId)
    requires Normalize(p).value.commitId !in db.workspaces[Normalize(p).value.workspaceId].commits
    ensures var (after, r) := PublishCommit(cfg, db, user, p, gap);
            var n := Normalize(p).value;
            var w, ws, serverSeq := n.workspaceId, db.workspaces[n.workspaceId], db.lastServerSeq + 1 + gap;
            && n.kind.Some?
            && (r.Success? <==> Admitted(cfg, ws, user, n))
            && (r.Success? ==>
                  && r.value == PublishResult(StoredRow(n, serverSeq), ws.headVersion + 1, false)
                  && w in after.workspaces && n.author in ws.devices
                  && after == db.(workspaces := db.workspaces[w := after.workspaces[w]], lastServerSeq := serverSeq)
                  && IsPublishedIn(ws, after.workspaces[w], n, serverSeq))
            && (r.Failure? ==> after == db && PublishRefused(cfg, ws, user, n, r.error))
  {
    hide Normalize, Admitted, PublishRefused, PublishIn, Normal, IsPublishedIn, StoredRow;
    NormalizeIsProjection(p);
    var n := Normalize(p).value;
    NormalHasKind(n);
    PublishInAnswers(cfg, db.workspaces[n.workspaceId], user, n, db.lastServerSeq + 1 + gap);
  }

  lemma NormalHasKind(n: PublishParams)
    requires Normal(n)
    ensures n.kind.Some? && n.commitId != ""
  {
    hide NormalIds, Trimmed, IsDigest, Sorted;
  }

  lemma LinksGrow(ws: Workspace, n: PublishParams)
    requires forall r :: r in n.refs ==> r in ws.objects
    ensures var after := AddRefLinks(AddLink(ws.links, Link(n.commitId, n.body, BodyRole)), ws.objects, n.commitId,
                                     n.refs);
            && (forall l :: l in ws.links ==> l in after)
            && (forall l :: l in after && l !in ws.links ==>
                  l.commitId == n.commitId && (l.objectId == n.body || l.objectId in n.refs))
  {
    hide AddRefLinks;
    var body := Link(n.commitId, n.body, BodyRole);
    AddRefLinksObjects(AddLink(ws.links, body), ws.objects, n.commitId, n.refs, n.commitId);
    RefLinksGrow(AddLink(ws.links, body), ws.objects, n.commitId, n.refs);
  }

  lemma {:induction false} RefLinksGrow(links: set<Link>, objects: map<string, SyncObject>, commitId: string,
                                        refs: seq<string>)
    requires forall r :: r in refs ==> r in objects
    ensures links <= AddRefLinks(links, objects, commitId, refs)
    decreases refs
  {
    if refs != [] {
      assert refs == [refs[0]] + refs[1..];
      RefLinksGrow(AddLink(links, Link(commitId, refs[0], RoleOf(objects[refs[0]].kind))), objects, commitId,
                   refs[1..]);
    }
  }

  /** A request that is not normalised, or not by the owner, changes nothing and is told so. */
  lemma PublishRejects(cfg: Config, db: Db, user: Uuid, p: PublishParams, gap: nat)
    ensures var (after, r) := PublishCommit(cfg, db, user, p, gap);
            && (Normalize(p).Failure? ==> after == db && r == Failure(Normalize(p).error))
            && (Normalize(p).Success? && !OwnWorkspace(db, user, Normalize(p).value.workspaceId) ==>
                  after == db && r == Failure(PermissionDenied))
  {
    hide Normalize;
  }

  // ----- Garbage collection -----

  /** A dry run, or one without orphans, changes no workspace and deletes nothing. A real run succeeds exactly when
      the store deletes every blob; it then marks exactly the listed rows deleted and drops exactly their blobs. One
      that fails leaves every row and counter. */
  lemma GcAnswers(db: Db, user: Uuid, w: Uuid, dryRun: bool, now: int, limit: int, locked: set<string>,
                  rows: seq<string>, stuck: set<string>, id: string)
    requires w in db.workspaces ==> OrphanRows(db.workspaces[w].objects, now, limit, locked, rows)
    ensures var (after, r) := RunWorkspaceGC(db, user, w, dryRun, rows, stuck);
            var deletes := !dryRun && rows != [];
            && (!OwnWorkspace(db, user, w) ==> r == Failure(PermissionDenied) && after == db)
            && (OwnWorkspace(db, user, w) && !deletes ==>
                  && r == Success([]) && after.workspaces == db.workspaces && after.lastServerSeq == db.lastServerSeq
                  && after.accounts == if user in db.accounts then db.accounts
                                       else db.accounts[user := Account(0, 0, 0)])
            && (OwnWorkspace(db, user, w) && deletes ==>
                  var ws := db.workspaces[w];
                  && w in after.workspaces && after.workspaces == db.workspaces[w := after.workspaces[w]]
                  && after.lastServerSeq == db.lastServerSeq
                  && (r == Success(rows) <==> forall i :: 0 <= i < |rows| ==> rows[i] !in stuck)
                  && (r.Failure? ==> r.error == StoreError && after.accounts == db.accounts)
                  && (r.Success? ==> r.value == rows)
                  && var v := after.workspaces[w];
                     && v == ws.(objects := v.objects, blobs := v.blobs, usage := v.usage)
                     && (r.Failure? ==>
                           && v.objects == ws.objects && v.usage == ws.usage
                           && (id !in rows ==> FindBlob(v, id) == FindBlob(ws, id))
                           && (id in v.blobs ==> FindBlob(v, id) == FindBlob(ws, id)))
                     && (r.Success? ==>
                           && v.objects.Keys == ws.objects.Keys
                           && (id in rows ==>
                                 && id in ws.objects && ws.objects[id].state in {Reserved, Pending, Failed}
                                 && !InTime(ws.objects[id], now)
                                 && v.objects[id] == ws.objects[id].(state := Deleted, expiresAt := None))
                           && (id in ws.objects && id !in rows ==> v.objects[id] == ws.objects[id])
                           && FindBlob(v, id) == if id in rows then None else FindBlob(ws, id)))
  {
    hide AccountOf, OrphanLe, DeleteOrphans, SyncLedger.Recalculated;
    if OwnWorkspace(db, user, w) {
      var ws := db.workspaces[w];
      DeleteOrphansOutcome(ws.objects, ws.blobs, rows, stuck, id);
      DeleteOrphansErrors(ws.objects, ws.blobs, rows, stuck);
    }
  }

  lemma {:induction false} DeleteOrphansErrors(objects: map<string, SyncObject>, blobs: map<string, Blob>,
                                               rows: seq<string>, stuck: set<string>)
    requires forall i :: 0 <= i < |rows| ==> Live(objects, rows[i])
    requires forall i, j :: 0 <= i < j < |rows| ==> rows[i] != rows[j]
    ensures var r := DeleteOrphans(objects, blobs, rows, stuck).1; r.Failure? ==> r.error == StoreError
    decreases |rows|
  {
    if rows != [] && rows[0] !in stuck {
      DeleteOrphansErrors(objects[rows[0] := DeletedRow(objects[rows[0]])], blobs - {rows[0]}, rows[1..], stuck);
    }
  }

  /** A recalculation sets the counters of the workspace, and the account of its owner, to the sums, whatever they were,
      and answers with the former. */
  lemma RecalculateAnswers(db: Db, user: Uuid, w: Uuid)
    ensures var (after, r) := RecalculateSyncUsage(db, user, w);
            && (!OwnWorkspace(db, user, w) ==> r == Failure(PermissionDenied) && after == db)
            && (OwnWorkspace(db, user, w) ==>
                  var objects := db.workspaces[w].objects;
                  var usage := Usage(SyncLedger.StateBytes(objects, Available),
                                     SyncLedger.StateCount(objects, Available),
                                     SyncLedger.StateBytes(objects, Pending));
                  && r == Success(usage)
                  && after == db.(workspaces := db.workspaces[w := db.workspaces[w].(usage := usage)],
                                  accounts := db.accounts[user := AccountOf(after.workspaces, user)]))
  {
    hide AccountOf, SyncLedger.StateBytes, SyncLedger.StateCount;
  }

  // ----- Who may change what -----

  /** The workspace a call names, and the user and device it comes from. */
  function Names(op: Op): Option<Uuid> {
    match op
    case CreateWorkspaceOp(_, _, _) => None
    case PublishOp(_, params, _) => Some(params.workspaceId)
    case _ => Some(op.workspaceId)
  }

  predicate MayChange(op: Op, ws: Workspace) {
    if op.ClientPutOp? then true
    else
      && op.user == ws.owner
      && match op
         case ReserveOp(_, _, device, _, _, _) => device in ws.devices
         case UploadOp(_, _, device, _, _, _, _) => device in ws.devices
         case CompleteOp(_, _, device, _, _, _, _) => device in ws.devices
         case DirectOp(_, _, device, _, _, _, _, _) => device in ws.devices
         case PublishOp(_, params, _) => params.author in ws.devices
         case _ => true
  }

  /** At most one workspace and one account change, and no workspace goes. */
  ghost predicate ChangesOnly(before: Db, after: Db, w: Uuid, user: Uuid) {
    && (forall v :: v in before.workspaces ==> v in after.workspaces)
    && (forall v :: v in before.workspaces && v != w ==> after.workspaces[v] == before.workspaces[v])
    && (forall u: Uuid :: u != user ==> (u in after.accounts <==> u in before.accounts))
    && (forall u :: u in before.accounts && u != user ==> after.accounts[u] == before.accounts[u])
  }

  lemma StoreChangesOnly(db: Db, w: Uuid, b: Books)
    requires w in db.workspaces
    ensures ChangesOnly(db, Store(db, w, b), w, b.ws.owner)
    ensures ChangesOnly(db, StoreWorkspace(db, w, b.ws), w, b.ws.owner)
  {
  }

  lemma UploadChanges(cfg: Config, db: Db, user: Uuid, w: Uuid, device: Uuid, attempt: string,
                      requests: seq<UploadRequest>, now: int, unsigned: set<string>)
    ensures var after := CreateObjectUploadBatch(cfg, db, user, w, device, attempt, requests, now, unsigned).0;
            after == db || (OwnDevice(db, user, w, device) && ChangesOnly(db, after, w, user))
  {
    hide CreateUploads, TrimSpace, ChangesOnly;
    if OwnDevice(db, user, w, device) && user in db.accounts {
      var r := CreateUploads(cfg, BooksOf(db, w), device, requests, now, unsigned);
      UploadsKeepOwner(cfg, BooksOf(db, w), device, requests, now, unsigned);
      if r.Success? {
        StoreChangesOnly(db, w, r.value.books);
      }
    }
  }

  lemma CompletionChanges(cfg: Config, db: Db, user: Uuid, w: Uuid, device: Uuid, attempt: string,
                          requests: seq<CompleteRequest>, now: int, unreachable: set<string>)
    ensures var after := CompleteObjectUploadBatch(cfg, db, user, w, device, attempt, requests, now, unreachable).0;
            after == db || (OwnDevice(db, user, w, device) && ChangesOnly(db, after, w, user))
  {
    hide CompleteAll, TrimSpace, ChangesOnly;
    if OwnDevice(db, user, w, device) && user in db.accounts {
      var c := Completion({}, BooksOf(db, w), []);
      CompletionKeepsOwner(device, now, unreachable, c, requests);
      if CompleteAll(device, now, unreachable, c, requests).Success? {
        StoreChangesOnly(db, w, CompleteAll(device, now, unreachable, c, requests).value.books);
      }
    }
  }

  lemma DirectChanges(cfg: Config, db: Db, user: Uuid, w: Uuid, device: Uuid, objectId: string, sha: string, size: int,
                      bytes: seq<bv8>, putFails: bool)
    ensures var after := UploadObjectBytesDev(cfg, db, user, w, device, objectId, sha, size, bytes, putFails).0;
            after == db || (OwnDevice(db, user, w, device) && ChangesOnly(db, after, w, user))
  {
    hide DirectArguments, UploadDirect, NormalizeDigest, ChangesOnly;
    if OwnDevice(db, user, w, device) && user in db.accounts {
      var r := UploadDirect(cfg, BooksOf(db, w), objectId, NormalizeDigest(sha), size, putFails);
      DirectKeepsOwner(cfg, BooksOf(db, w), objectId, NormalizeDigest(sha), size, putFails);
      if r.Success? {
        StoreChangesOnly(db, w, r.value);
      }
    }
  }

  lemma GcChanges(db: Db, user: Uuid, w: Uuid, dryRun: bool, rows: seq<string>, stuck: set<string>)
    ensures var after := RunWorkspaceGC(db, user, w, dryRun, rows, stuck).0;
            after == db || (OwnWorkspace(db, user, w) && ChangesOnly(db, after, w, user))
    ensures var after := RecalculateSyncUsage(db, user, w).0;
            after == db || (OwnWorkspace(db, user, w) && ChangesOnly(db, after, w, user))
  {
    hide DeleteOrphans, RecalculateBoth, ChangesOnly;
    if OwnWorkspace(db, user, w) {
      var ws, ensured := db.workspaces[w], EnsureAccount(db, user);
      var (blobs, r) := DeleteOrphans(ws.objects, ws.blobs, rows, stuck);
      var left := ws.(blobs := blobs);
      EnsureChangesOnly(db, w, user);
      RecalculateChangesOnly(db, db, user, w, ws);
      StoreChangesOnly(db, w, Books(left, EMPTY_ACCOUNT));
      if r.Success? {
        RecalculateChangesOnly(db, ensured, user, w, ws.(objects := r.value, blobs := blobs));
      }
    }
  }

  lemma EnsureChangesOnly(db: Db, w: Uuid, user: Uuid)
    ensures ChangesOnly(db, EnsureAccount(db, user), w, user) && ChangesOnly(db, db, w, user)
  {
  }

  lemma RecalculateChangesOnly(db: Db, ensured: Db, user: Uuid, w: Uuid, ws: Workspace)
    requires ChangesOnly(db, ensured, w, user)
    ensures ChangesOnly(db, RecalculateBoth(ensured, user, w, ws), w, user)
  {
    hide AccountOf, SyncLedger.Recalculated;
  }

  lemma RowsChange(cfg: Config, db: Db, user: Uuid, w: Uuid, device: Uuid, requests: seq<ReservationRequest>,
                   ids: seq<string>, now: int, publicKey: seq<bv8>, id: Uuid)
    requires |ids| == |requests|
    ensures var after := ReserveObjectIds(cfg, db, user, w, device, requests, ids, now).0;
            after == db || (OwnDevice(db, user, w, device) && ChangesOnly(db, after, w, user))
    ensures var after := RegisterDevice(db, user, w, publicKey, id).0;
            after == db || (OwnWorkspace(db, user, w) && ChangesOnly(db, after, w, user))
  {
    hide ReserveAll;
  }

  /** A call changes no workspace but the one it names, and that only for its owner and from one of its devices. It
      changes no account but its caller's. Only the object store is open to anybody with a signed URL. */
  lemma OnlyOwnersWrite(cfg: Config, db: Db, op: Op, w: Uuid, user: Uuid)
    requires Legal(db, op)
    ensures w in db.workspaces ==>
      && w in Apply(cfg, db, op).workspaces
      && (Apply(cfg, db, op).workspaces[w] != db.workspaces[w] ==>
            Names(op) == Some(w) && MayChange(op, db.workspaces[w]))
    ensures op.ClientPutOp? || op.user != user ==>
      (user in Apply(cfg, db, op).accounts <==> user in db.accounts)
      && (user in db.accounts ==> Apply(cfg, db, op).accounts[user] == db.accounts[user])
  {
    hide RegisterDevice, ReserveObjectIds, CreateObjectUploadBatch, CompleteObjectUploadBatch, UploadObjectBytesDev,
         PublishCommit, RunWorkspaceGC, RecalculateSyncUsage, OrphanRows, TrimSpace;
    match op
    case CreateWorkspaceOp(_, _, _) =>
    case RegisterDeviceOp(u, x, publicKey, id) => RowsChange(cfg, db, u, x, 0, [], [], 0, publicKey, id);
    case ReserveOp(u, x, device, requests, ids, now) => RowsChange(cfg, db, u, x, device, requests, ids, now, [], 0);
    case UploadOp(u, x, device, attempt, uploads, now, unsigned) =>
      UploadChanges(cfg, db, u, x, device, attempt, uploads, now, unsigned);
    case CompleteOp(u, x, device, attempt, completions, now, unreachable) =>
      CompletionChanges(cfg, db, u, x, device, attempt, completions, now, unreachable);
    case DirectOp(u, x, device, objectId, sha, size, bytes, putFails) =>
      DirectChanges(cfg, db, u, x, device, objectId, sha, size, bytes, putFails);
    case ClientPutOp(_, _, _) =>
    case PublishOp(u, p, gap) => PublishTouches(cfg, db, u, p, gap);
    case GcOp(u, x, dryRun, _, _, _, rows, stuck) => GcChanges(db, u, x, dryRun, rows, stuck);
    case RecalculateOp(u, x) => GcChanges(db, u, x, true, [], {});
  }

  lemma DirectKeepsOwner(cfg: Config, b: Books, id: string, sha: string, size: int, putFails: bool)
    ensures UploadDirect(cfg, b, id, sha, size, putFails).Success? ==>
      UploadDirect(cfg, b, id, sha, size, putFails).value.ws.owner == b.ws.owner
  {
  }

  lemma PublishTouches(cfg: Config, db: Db, user: Uuid, p: PublishParams, gap: nat)
    ensures var after := PublishCommit(cfg, db, user, p, gap).0;
            && after.accounts == db.accounts
            && (after.workspaces == db.workspaces ||
                (OwnWorkspace(db, user, p.workspaceId) && p.author in db.workspaces[p.workspaceId].devices
                 && p.workspaceId in after.workspaces
                 && after.workspaces == db.workspaces[p.workspaceId := after.workspaces[p.workspaceId]]))
  {
    hide ObjectsError, AddLink, AddRefLinks, NormalizeIds, NormalizeIdsSorted, TrimSpace, NormalizeDigest,
         IsHexOfDigestLength, CommitMatches, HasDuplicate, CanonicalPayload, ParentsValid;
  }
}
