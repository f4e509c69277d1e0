/** The invariant of the sync server and its preservation by every call, hence over every run. */
module SyncInvariant {
  import opened Wrappers
  import opened Text
  import opened Sums
  import opened SyncTypes
  import opened SyncCommits
  import opened SyncStorage
  import opened SyncLedger
  import opened SyncGraph
  import opened SyncLog
  import opened SyncServer

  /** Config.validate: every limit is positive. */
  predicate ValidConfig(cfg: Config) {
    cfg.maxWorkspaces > 0 && cfg.maxUserBytes > 0 && cfg.maxWorkspaceBytes > 0 && cfg.maxBlobBytes > 0
    && cfg.maxPendingBytes > 0 && cfg.maxPendingAge > 0
  }

  /** The commit's device signed its payload, under the id of the workspace and of the commit. */
  predicate Signed(cfg: Config, w: Uuid, ws: Workspace, id: string)
    requires id in ws.commits
  {
    var c := ws.commits[id];
    && c.author in ws.devices
    && cfg.verify(ws.devices[c.author].publicKey,
                  CommitPayload(w, id, c.kind, TextValue(c.expectedHead), c.parents, c.author, c.deviceSeq, c.body,
                                c.bodySha, c.bodySize, c.refs),
                  c.signature)
  }

  ghost predicate AllSigned(cfg: Config, w: Uuid, ws: Workspace) {
    forall id :: id in ws.commits ==> Signed(cfg, w, ws, id)
  }

  ghost predicate WorkspacesOk(cfg: Config, db: Db) {
    forall w :: w in db.workspaces ==>
      && LedgerInv(cfg, db.workspaces[w]) && LogInv(db.workspaces[w], db.lastServerSeq)
      && AllSigned(cfg, w, db.workspaces[w])
      && db.workspaces[w].owner in db.accounts
  }

  ghost predicate AccountOk(cfg: Config, db: Db, user: Uuid)
    requires user in db.accounts
  {
    && db.accounts[user] == AccountOf(db.workspaces, user)
    && db.accounts[user].storageBytes + db.accounts[user].pendingBytes <= cfg.maxUserBytes
    && db.accounts[user].workspaceCount <= cfg.maxWorkspaces
  }

  ghost predicate AccountsOk(cfg: Config, db: Db) {
    forall u :: u in db.accounts ==> AccountOk(cfg, db, u)
  }

  ghost predicate DbInv(cfg: Config, db: Db) {
    db.lastServerSeq >= 0 && WorkspacesOk(cfg, db) && AccountsOk(cfg, db)
  }

  predicate DevicesKept(before: map<Uuid, Device>, after: map<Uuid, Device>) {
    forall d :: d in before ==>
      && d in after && after[d].user == before[d].user && after[d].publicKey == before[d].publicKey
      && before[d].lastSeq <= after[d].lastSeq
  }

  /** What no call ever takes back: published commits, available objects and the keys of devices stay as they are. */
  ghost predicate WorkspaceKept(v: Workspace, w: Workspace) {
    && w.owner == v.owner && v.headVersion <= w.headVersion
    && AvailableKept(v.objects, w.objects) && DevicesKept(v.devices, w.devices)
    && (forall c :: c in v.commits ==> c in w.commits && w.commits[c] == v.commits[c])
  }

  ghost predicate DbKept(before: Db, after: Db) {
    forall w :: w in before.workspaces ==>
      w in after.workspaces && WorkspaceKept(before.workspaces[w], after.workspaces[w])
  }

  // ----- Account sums -----

  lemma WeighUpdate(workspaces: map<Uuid, Workspace>, user: Uuid, f: Workspace -> int, id: Uuid, ws: Workspace)
    ensures Sum(Weigh(workspaces[id := ws], user, f))
         == Sum(Weigh(workspaces, user, f))
            - (if id in workspaces && workspaces[id].owner == user then f(workspaces[id]) else 0)
            + (if ws.owner == user then f(ws) else 0)
  {
    hide Sum;
    var weight := if ws.owner == user then f(ws) else 0;
    assert Weigh(workspaces[id := ws], user, f) == Weigh(workspaces, user, f)[id := weight];
    SumUpdate(Weigh(workspaces, user, f), id, weight);
  }

  /** Replacing a workspace moves its owner's totals by what its own counters move, and no one else's. */
  lemma AccountMoves(workspaces: map<Uuid, Workspace>, id: Uuid, ws: Workspace, user: Uuid)
    requires id in workspaces && workspaces[id].owner == ws.owner
    ensures var before, after := AccountOf(workspaces, user), AccountOf(workspaces[id := ws], user);
            && after.workspaceCount == before.workspaceCount
            && after.storageBytes == before.storageBytes
                 + (if ws.owner == user then ws.usage.storageBytes - workspaces[id].usage.storageBytes else 0)
            && after.pendingBytes == before.pendingBytes
                 + (if ws.owner == user then ws.usage.pendingBytes - workspaces[id].usage.pendingBytes else 0)
  {
    hide Sum, Weigh;
    WeighUpdate(workspaces, user, (w: Workspace) => 1, id, ws);
    WeighUpdate(workspaces, user, (w: Workspace) => w.usage.storageBytes, id, ws);
    WeighUpdate(workspaces, user, (w: Workspace) => w.usage.pendingBytes, id, ws);
  }

  lemma AccountAdds(workspaces: map<Uuid, Workspace>, id: Uuid, ws: Workspace, user: Uuid)
    requires id !in workspaces
    ensures var before, after := AccountOf(workspaces, user), AccountOf(workspaces[id := ws], user);
            after == if ws.owner != user then before else
                       Account(before.workspaceCount + 1, before.storageBytes + ws.usage.storageBytes,
                               before.pendingBytes + ws.usage.pendingBytes)
  {
    hide Sum, Weigh;
    WeighUpdate(workspaces, user, (w: Workspace) => 1, id, ws);
    WeighUpdate(workspaces, user, (w: Workspace) => w.usage.storageBytes, id, ws);
    WeighUpdate(workspaces, user, (w: Workspace) => w.usage.pendingBytes, id, ws);
  }

  lemma NobodysAccount(workspaces: map<Uuid, Workspace>, user: Uuid)
    requires forall w :: w in workspaces ==> workspaces[w].owner != user
    ensures AccountOf(workspaces, user) == EMPTY_ACCOUNT
  {
    AllZero(Weigh(workspaces, user, (w: Workspace) => 1));
    AllZero(Weigh(workspaces, user, (w: Workspace) => w.usage.storageBytes));
    AllZero(Weigh(workspaces, user, (w: Workspace) => w.usage.pendingBytes));
  }

  lemma LocalAccountHasNoPending(cfg: Config, db: Db, user: Uuid)
    requires DbInv(cfg, db) && cfg.driver == Local
    ensures AccountOf(db.workspaces, user).pendingBytes == 0
  {
    hide LogInv, Recalculated, ObjectsOk;
    forall w | w in db.workspaces ensures db.workspaces[w].usage.pendingBytes == 0 {
      LocalHasNoPendingBytes(cfg, db.workspaces[w]);
    }
    AllZero(Weigh(db.workspaces, user, (w: Workspace) => w.usage.pendingBytes));
  }

  // ----- Frames -----

  /** A storage step leaves the log in order: what commits point at is available, and available rows stay. */
  lemma StorageKeepsLog(v: Workspace, w: Workspace, last: int)
    requires LogInv(v, last) && SameHistory(v, w) && AvailableKept(v.objects, w.objects)
    ensures LogInv(w, last)
  {
    hide LinkedObjects, DeviceOrder, SeqsBelow, IsHistory, ParentsOk, ShapeOk, IsNewest;
    forall d: Uuid ensures CursorOk(w, d) {
      assert CursorOk(v, d);
    }
    forall id | id in w.commits ensures CommitOk(w, id) {
      assert CommitOk(v, id);
      assert Published(w.objects, w.commits[id]) by {
        PublishedStays(v.objects, w.objects, v.commits[id]);
      }
    }
    ParentsAndHistoryFrame(v, w);
  }

  lemma PublishedStays(before: map<string, SyncObject>, after: map<string, SyncObject>, c: Commit)
    requires Published(before, c) && AvailableKept(before, after)
    ensures Published(after, c)
  {
  }

  lemma SeqsGrow(ws: Workspace, last: int, later: int)
    requires LogInv(ws, last) && last <= later
    ensures LogInv(ws, later)
  {
    hide CommitOk, ParentsOk, IsHistory, DeviceOrder, LinksKnown;
  }

  /** One storage step on one workspace and its account keeps the database invariant. */
  lemma StoreKeepsInv(cfg: Config, db: Db, id: Uuid, b: Books)
    requires DbInv(cfg, db) && id in db.workspaces
    requires BooksInv(cfg, b) && StorageStep(BooksOf(db, id), b)
    ensures DbInv(cfg, Store(db, id, b))
    ensures DbKept(db, Store(db, id, b))
  {
    hide LogInv, Recalculated, ObjectsOk, AccountOf, Signed;
    var after := Store(db, id, b);
    forall w | w in after.workspaces
      ensures LogInv(after.workspaces[w], after.lastServerSeq) && after.workspaces[w].owner in after.accounts
      ensures AllSigned(cfg, w, after.workspaces[w])
    {
      SignaturesStay(cfg, id, db.workspaces[id], b.ws);
      StorageKeepsLog(db.workspaces[id], b.ws, db.lastServerSeq);
    }
    forall u | u in after.accounts ensures AccountOk(cfg, after, u) {
      assert AccountOk(cfg, db, u);
      AccountMoves(db.workspaces, id, b.ws, u);
    }
  }

  lemma SignaturesStay(cfg: Config, w: Uuid, v: Workspace, ws: Workspace)
    requires AllSigned(cfg, w, v) && ws.commits == v.commits && DevicesKept(v.devices, ws.devices)
    ensures AllSigned(cfg, w, ws)
  {
    forall id | id in ws.commits ensures Signed(cfg, w, ws, id) {
      assert Signed(cfg, w, v, id);
    }
  }

  /** As above when neither the counters nor the account move. */
  lemma StoreWorkspaceKeepsInv(cfg: Config, db: Db, id: Uuid, ws: Workspace, serverSeq: int)
    requires DbInv(cfg, db) && id in db.workspaces && db.lastServerSeq <= serverSeq
    requires LedgerInv(cfg, ws) && LogInv(ws, serverSeq) && AllSigned(cfg, id, ws)
    requires ws.usage == db.workspaces[id].usage
    requires WorkspaceKept(db.workspaces[id], ws)
    ensures DbInv(cfg, StoreWorkspace(db, id, ws).(lastServerSeq := serverSeq))
    ensures DbKept(db, StoreWorkspace(db, id, ws).(lastServerSeq := serverSeq))
  {
    hide LogInv, LedgerInv, AccountOf, Signed;
    var after := StoreWorkspace(db, id, ws).(lastServerSeq := serverSeq);
    forall w | w in after.workspaces
      ensures LedgerInv(cfg, after.workspaces[w]) && LogInv(after.workspaces[w], serverSeq)
        && AllSigned(cfg, w, after.workspaces[w])
        && after.workspaces[w].owner in after.accounts
    {
      if w != id {
        SeqsGrow(db.workspaces[w], db.lastServerSeq, serverSeq);
      }
    }
    forall u | u in after.accounts ensures AccountOk(cfg, after, u) {
      assert AccountOk(cfg, db, u);
      AccountMoves(db.workspaces, id, ws, u);
    }
  }

  lemma BooksOk(cfg: Config, db: Db, id: Uuid)
    requires DbInv(cfg, db) && id in db.workspaces
    ensures db.workspaces[id].owner in db.accounts && BooksInv(cfg, BooksOf(db, id))
  {
    hide LogInv, Recalculated, ObjectsOk, AccountOf;
    assert AccountOk(cfg, db, db.workspaces[id].owner);
  }

  // ----- The calls -----

  lemma EnsureKeepsInv(cfg: Config, db: Db, user: Uuid)
    requires ValidConfig(cfg) && DbInv(cfg, db)
    ensures DbInv(cfg, EnsureAccount(db, user))
    ensures DbKept(db, EnsureAccount(db, user))
  {
    hide LogInv, LedgerInv, AccountOf;
    if user !in db.accounts {
      NobodysAccount(db.workspaces, user);
      forall u | u in db.accounts ensures AccountOk(cfg, EnsureAccount(db, user), u) {
        assert AccountOk(cfg, db, u);
      }
    }
  }

  lemma FreshWorkspaceOk(cfg: Config, owner: Uuid, last: int)
    requires ValidConfig(cfg)
    ensures LedgerInv(cfg, FreshWorkspace(owner)) && LogInv(FreshWorkspace(owner), last)
    ensures FreshWorkspace(owner).owner == owner && forall w: Uuid :: AllSigned(cfg, w, FreshWorkspace(owner))
  {
    AllZero(Sizes(map[], Available));
    AllZero(Sizes(map[], Pending));
    AllZero(Marks(map[], Available));
    assert IsHistory(FreshWorkspace(owner), []);
  }

  lemma NothingTaken(db: Db)
    ensures DbKept(db, db)
  {
  }

  /** A new, empty workspace adds one to its owner's workspaces and nothing else. */
  lemma NewWorkspaceKeepsAccounts(cfg: Config, db: Db, user: Uuid, id: Uuid, u: Uuid)
    requires AccountsOk(cfg, db) && id !in db.workspaces && user in db.accounts
    requires db.accounts[user].workspaceCount < cfg.maxWorkspaces && u in db.accounts
    ensures var account := db.accounts[user];
            AccountOk(cfg, db.(workspaces := db.workspaces[id := FreshWorkspace(user)],
                               accounts := db.accounts[user := account.(workspaceCount := account.workspaceCount + 1)]),
                      u)
  {
    hide AccountOf;
    assert AccountOk(cfg, db, u);
    AccountAdds(db.workspaces, id, FreshWorkspace(user), u);
  }

  lemma CreateWorkspaceKeepsInv(cfg: Config, db: Db, user: Uuid, cryptoVersion: string, id: Uuid)
    requires ValidConfig(cfg) && DbInv(cfg, db)
    ensures DbInv(cfg, CreateWorkspace(cfg, db, user, cryptoVersion, id).0)
    ensures DbKept(db, CreateWorkspace(cfg, db, user, cryptoVersion, id).0)
  {
    hide LogInv, LedgerInv, AccountOk, TrimSpace, FreshWorkspace, AllSigned, WorkspaceKept;
    NothingTaken(db);
    var (after, r) := CreateWorkspace(cfg, db, user, cryptoVersion, id);
    if r.Success? {
      EnsureKeepsInv(cfg, db, user);
      FreshWorkspaceOk(cfg, user, db.lastServerSeq);
      forall u | u in after.accounts ensures AccountOk(cfg, after, u) {
        NewWorkspaceKeepsAccounts(cfg, EnsureAccount(db, user), user, id, u);
      }
    }
  }

  lemma RegisterDeviceKeepsInv(cfg: Config, db: Db, user: Uuid, workspaceId: Uuid, publicKey: seq<bv8>, id: Uuid)
    requires DbInv(cfg, db)
    ensures DbInv(cfg, RegisterDevice(db, user, workspaceId, publicKey, id).0)
    ensures DbKept(db, RegisterDevice(db, user, workspaceId, publicKey, id).0)
  {
    hide LogInv, Recalculated, AccountOf, ObjectOk;
    var (after, r) := RegisterDevice(db, user, workspaceId, publicKey, id);
    if r.Success? {
      var v, w := db.workspaces[workspaceId], after.workspaces[workspaceId];
      assert id !in v.devices;
      DeviceKeepsLog(v, w, id, db.lastServerSeq);
      SignaturesStay(cfg, workspaceId, v, w);
      assert LedgerInv(cfg, w);
      StoreWorkspaceKeepsInv(cfg, db, workspaceId, w, db.lastServerSeq);
    }
  }

  lemma DeviceKeepsLog(v: Workspace, w: Workspace, id: Uuid, last: int)
    requires LogInv(v, last) && id !in v.devices && id in w.devices && w.devices[id].lastSeq == 0
    requires w.devices[id].user == v.owner && |w.devices[id].publicKey| == 32
    requires w == v.(devices := v.devices[id := w.devices[id]])
    ensures LogInv(w, last)
  {
    hide LinkedObjects, DeviceOrder, SeqsBelow, Published, IsHistory, ParentsOk, ShapeOk;
    forall d: Uuid ensures CursorOk(w, d) {
      DeviceKeepsCursor(v, w, id, d);
    }
    forall c | c in w.commits ensures CommitOk(w, c) {
      assert CommitOk(v, c);
    }
    ParentsAndHistoryFrame(v, w);
  }

  lemma DeviceKeepsCursor(v: Workspace, w: Workspace, id: Uuid, d: Uuid)
    requires CommitsOk(v) && CursorOk(v, d) && id !in v.devices && id in w.devices && w.devices[id].lastSeq == 0
    requires w == v.(devices := v.devices[id := w.devices[id]])
    ensures CursorOk(w, d)
  {
    hide LinkedObjects, Published, ShapeOk;
    forall c | c in v.commits ensures v.commits[c].author != id {
      assert CommitOk(v, c);
    }
  }

  /** Parents and history look at the commits and the head only. */
  lemma ParentsAndHistoryFrame(v: Workspace, w: Workspace)
    requires AllParentsOk(v) && HasHistory(v)
    requires w.commits == v.commits && w.head == v.head && w.headVersion == v.headVersion
    ensures AllParentsOk(w) && HasHistory(w)
  {
    forall id | id in w.commits ensures ParentsOk(w, id) {
      assert ParentsOk(v, id);
    }
    var h :| IsHistory(v, h);
    assert IsHistory(w, h);
  }

  lemma ReserveKeepsInv(cfg: Config, db: Db, user: Uuid, workspaceId: Uuid, device: Uuid,
                        requests: seq<ReservationRequest>, ids: seq<string>, now: int)
    requires DbInv(cfg, db) && |ids| == |requests|
    ensures DbInv(cfg, ReserveObjectIds(cfg, db, user, workspaceId, device, requests, ids, now).0)
    ensures DbKept(db, ReserveObjectIds(cfg, db, user, workspaceId, device, requests, ids, now).0)
  {
    hide LogInv, LedgerInv, AccountOf, ReserveAll;
    var (after, r) := ReserveObjectIds(cfg, db, user, workspaceId, device, requests, ids, now);
    if r.Success? {
      BooksOk(cfg, db, workspaceId);
      var b := BooksOf(db, workspaceId);
      ReserveKeeps(cfg, b, device, requests, ids, now);
      StoreKeepsInv(cfg, db, workspaceId, Books(after.workspaces[workspaceId], b.account));
      assert db.accounts == db.accounts[user := db.accounts[user]];
    }
  }

  lemma UploadKeepsInv(cfg: Config, db: Db, user: Uuid, workspaceId: Uuid, device: Uuid, attempt: string,
                       requests: seq<UploadRequest>, now: int, unsigned: set<string>)
    requires DbInv(cfg, db)
    ensures DbInv(cfg, CreateObjectUploadBatch(cfg, db, user, workspaceId, device, attempt, requests, now, unsigned).0)
    ensures DbKept(db, CreateObjectUploadBatch(cfg, db, user, workspaceId, device, attempt, requests, now, unsigned).0)
  {
    hide LogInv, LedgerInv, AccountOf, CreateUploads, TrimSpace;
    var (after, r) := CreateObjectUploadBatch(cfg, db, user, workspaceId, device, attempt, requests, now, unsigned);
    if r.Success? {
      BooksOk(cfg, db, workspaceId);
      CreateUploadsKeeps(cfg, BooksOf(db, workspaceId), device, requests, now, unsigned);
      StoreKeepsInv(cfg, db, workspaceId,
        CreateUploads(cfg, BooksOf(db, workspaceId), device, requests, now, unsigned).value.books);
    }
  }

  lemma CompleteKeepsInv(cfg: Config, db: Db, user: Uuid, workspaceId: Uuid, device: Uuid, attempt: string,
                         requests: seq<CompleteRequest>, now: int, unreachable: set<string>)
    requires DbInv(cfg, db)
    ensures DbInv(cfg,
      CompleteObjectUploadBatch(cfg, db, user, workspaceId, device, attempt, requests, now, unreachable).0)
    ensures DbKept(db,
      CompleteObjectUploadBatch(cfg, db, user, workspaceId, device, attempt, requests, now, unreachable).0)
  {
    hide LogInv, LedgerInv, AccountOf, CompleteAll, TrimSpace;
    var (after, r) :=
      CompleteObjectUploadBatch(cfg, db, user, workspaceId, device, attempt, requests, now, unreachable);
    if r.Success? {
      BooksOk(cfg, db, workspaceId);
      var c := Completion({}, BooksOf(db, workspaceId), []);
      CompleteAllKeeps(cfg, device, now, unreachable, c, requests);
      StoreKeepsInv(cfg, db, workspaceId, CompleteAll(device, now, unreachable, c, requests).value.books);
    }
  }

  lemma DirectKeepsInv(cfg: Config, db: Db, user: Uuid, workspaceId: Uuid, device: Uuid, objectId: string,
                       sha: string, size: int, bytes: seq<bv8>, putFails: bool)
    requires DbInv(cfg, db)
    ensures DbInv(cfg, UploadObjectBytesDev(cfg, db, user, workspaceId, device, objectId, sha, size, bytes, putFails).0)
    ensures DbKept(db, UploadObjectBytesDev(cfg, db, user, workspaceId, device, objectId, sha, size, bytes, putFails).0)
  {
    hide LogInv, LedgerInv, AccountOf, UploadDirect, TrimSpace, NormalizeDigest, IsDigest, IsHexOfDigestLength;
    var (after, r) := UploadObjectBytesDev(cfg, db, user, workspaceId, device, objectId, sha, size, bytes, putFails);
    if DirectArguments(cfg, sha, size, bytes).None? && Authorized(db, user, workspaceId) {
      BooksOk(cfg, db, workspaceId);
      NormalizeDigestIsProjection(sha);
      var b := BooksOf(db, workspaceId);
      if cfg.driver == Local {
        LocalAccountHasNoPending(cfg, db, user);
        assert AccountOk(cfg, db, user);
      }
      if UploadDirect(cfg, b, objectId, NormalizeDigest(sha), size, putFails).Success? {
        UploadDirectKeeps(cfg, b, objectId, NormalizeDigest(sha), size, putFails);
        StoreKeepsInv(cfg, db, workspaceId, UploadDirect(cfg, b, objectId, NormalizeDigest(sha), size, putFails).value);
      }
    }
  }

  lemma ClientPutKeepsInv(cfg: Config, db: Db, workspaceId: Uuid, id: string, blob: Blob)
    requires DbInv(cfg, db)
    ensures DbInv(cfg, ClientPut(cfg, db, workspaceId, id, blob))
    ensures DbKept(db, ClientPut(cfg, db, workspaceId, id, blob))
  {
    hide Recalculated, AccountOf, LogInv, IsDigest;
    if workspaceId in db.workspaces && cfg.driver == S3Compatible {
      var v := db.workspaces[workspaceId];
      var w := v.(blobs := v.blobs[id := blob]);
      StorageKeepsLog(v, w, db.lastServerSeq);
      assert LedgerInv(cfg, w);
      StoreWorkspaceKeepsInv(cfg, db, workspaceId, w, db.lastServerSeq);
    }
  }

  lemma PublishKeepsInv(cfg: Config, db: Db, user: Uuid, p: PublishParams, gap: nat)
    requires DbInv(cfg, db)
    ensures DbInv(cfg, PublishCommit(cfg, db, user, p, gap).0)
    ensures DbKept(db, PublishCommit(cfg, db, user, p, gap).0)
  {
    hide LogInv, Recalculated, AccountOf, Normalize, Refusal, Append, CommitMatches, ParentsValid, Published,
         NormalIds, Trimmed, IsDigest, Sorted, ObjectOk, AllSigned;
    var (after, r) := PublishCommit(cfg, db, user, p, gap);
    if r.Success? && !r.value.idempotent {
      NormalizeIsProjection(p);
      var n := Normalize(p).value;
      var ws := db.workspaces[n.workspaceId];
      AdmittedIsAdmissible(cfg, ws, user, n);
      AppendKeepsLog(ws, n, db.lastServerSeq, db.lastServerSeq + 1 + gap);
      var w := after.workspaces[n.workspaceId];
      AppendFrame(ws, n, db.lastServerSeq + 1 + gap);
      AppendKeepsSignatures(cfg, ws, user, n, db.lastServerSeq + 1 + gap);
      assert LedgerInv(cfg, w);
      StoreWorkspaceKeepsInv(cfg, db, n.workspaceId, w, db.lastServerSeq + 1 + gap);
    }
  }

  /** What is admitted is signed by its device, and stored as it was signed. */
  lemma AppendKeepsSignatures(cfg: Config, ws: Workspace, user: Uuid, n: PublishParams, serverSeq: int)
    requires Normal(n) && n.commitId !in ws.commits && Refusal(cfg, ws, user, n).None? && Admissible(ws, n)
    requires AllSigned(cfg, n.workspaceId, ws)
    ensures AllSigned(cfg, n.workspaceId, Append(ws, n, serverSeq))
  {
    hide NormalIds, Trimmed, IsDigest, Sorted, ParentsValid, ObjectsError, AddLink, AddRefLinks, Published;
    forall id | id in Append(ws, n, serverSeq).commits ensures Signed(cfg, n.workspaceId, Append(ws, n, serverSeq), id)
    {
      assert id in ws.commits ==> Signed(cfg, n.workspaceId, ws, id);
    }
  }

  lemma AppendFrame(ws: Workspace, n: PublishParams, serverSeq: int)
    requires n.kind.Some? && n.author in ws.devices && forall r :: r in n.refs ==> r in ws.objects
    requires ws.devices[n.author].lastSeq <= n.deviceSeq
    ensures var w := Append(ws, n, serverSeq);
            w.objects == ws.objects && w.usage == ws.usage && w.blobs == ws.blobs
            && (n.commitId !in ws.commits ==> WorkspaceKept(ws, w))
  {
  }

  // ----- Garbage collection -----

  /** Deleting one orphan row and its blob. */
  lemma DeleteOneOrphan(cfg: Config, ws: Workspace, id: string, now: int)
    requires ObjectsOk(cfg, ws) && id in ws.objects && IsExpiredOrphan(ws.objects[id], now)
    ensures var next := ws.(objects := ws.objects[id := DeletedRow(ws.objects[id])], blobs := ws.blobs - {id});
            && ObjectsOk(cfg, next) && AvailableKept(ws.objects, next.objects)
            && Recalculated(next.objects).storageBytes == Recalculated(ws.objects).storageBytes
            && Recalculated(next.objects).pendingBytes <= Recalculated(ws.objects).pendingBytes
  {
    hide Recalculated, IsDigest;
    assert ObjectOk(cfg, ws.objects[id], BlobAt(ws.blobs, id));
    UpdateRowAll(ws.objects, id, DeletedRow(ws.objects[id]));
    BlobDropped(cfg, ws, id, ws.blobs - {id}, ws.objects[id := DeletedRow(ws.objects[id])]);
  }

  /** A blob may go when its row is not available; so may the row change to one that is not. */
  lemma BlobDropped(cfg: Config, ws: Workspace, id: string, blobs: map<string, Blob>, objects: map<string, SyncObject>)
    requires ObjectsOk(cfg, ws)
    requires forall x :: x != id ==> BlobAt(blobs, x) == BlobAt(ws.blobs, x)
    requires objects == ws.objects || (id in objects && objects == ws.objects[id := objects[id]])
    requires id in objects ==> ObjectOk(cfg, objects[id], BlobAt(blobs, id))
    ensures ObjectsOk(cfg, ws.(objects := objects, blobs := blobs))
  {
    hide ObjectOk;
    forall x | x in objects ensures ObjectOk(cfg, objects[x], BlobAt(blobs, x)) {
      if x != id {
        assert ObjectOk(cfg, ws.objects[x], BlobAt(ws.blobs, x));
      }
    }
  }

  /** When the rows roll back, the rows whose blobs are gone were not available. */
  lemma RowBack(cfg: Config, ws: Workspace, id: string, now: int, blobs: map<string, Blob>)
    requires id in ws.objects && IsExpiredOrphan(ws.objects[id], now)
    requires ObjectsOk(cfg, ws)
    requires ObjectsOk(cfg, ws.(objects := ws.objects[id := DeletedRow(ws.objects[id])], blobs := blobs))
    ensures ObjectsOk(cfg, ws.(blobs := blobs))
  {
    hide IsDigest;
    forall x | x in ws.objects ensures ObjectOk(cfg, ws.objects[x], BlobAt(blobs, x)) {
      if x == id {
        assert ObjectOk(cfg, ws.objects[x], BlobAt(ws.blobs, x));
      } else {
        assert ObjectOk(cfg, ws.objects[id := DeletedRow(ws.objects[id])][x], BlobAt(blobs, x));
      }
    }
  }

  lemma RestAreOrphans(objects: map<string, SyncObject>, rows: seq<string>, now: int)
    requires rows != []
    requires forall i :: 0 <= i < |rows| ==> rows[i] in objects && IsExpiredOrphan(objects[rows[i]], now)
    requires forall i, j :: 0 <= i < j < |rows| ==> rows[i] != rows[j]
    ensures var next, rest := objects[rows[0] := DeletedRow(objects[rows[0]])], rows[1..];
            && (forall i :: 0 <= i < |rest| ==> rest[i] in next && IsExpiredOrphan(next[rest[i]], now))
            && (forall i, j :: 0 <= i < j < |rest| ==> rest[i] != rest[j])
  {
  }

  /** The loop deletes unpublished rows and their blobs only. */
  lemma {:induction false} DeleteOrphansEffect(cfg: Config, ws: Workspace, rows: seq<string>, now: int,
                                               stuck: set<string>)
    requires ObjectsOk(cfg, ws)
    requires forall i :: 0 <= i < |rows| ==> rows[i] in ws.objects && IsExpiredOrphan(ws.objects[rows[i]], now)
    requires forall i, j :: 0 <= i < j < |rows| ==> rows[i] != rows[j]
    ensures var (blobs, r) := DeleteOrphans(ws.objects, ws.blobs, rows, stuck);
            && ObjectsOk(cfg, ws.(blobs := blobs))
            && (r.Success? ==>
                  && ObjectsOk(cfg, ws.(objects := r.value, blobs := blobs))
                  && AvailableKept(ws.objects, r.value)
                  && Recalculated(r.value).storageBytes == Recalculated(ws.objects).storageBytes
                  && Recalculated(r.value).pendingBytes <= Recalculated(ws.objects).pendingBytes)
    decreases |rows|
  {
    hide ObjectsOk, Recalculated, IsExpiredOrphan, DeletedRow;
    if rows != [] && rows[0] !in stuck {
      var id := rows[0];
      var next := ws.(objects := ws.objects[id := DeletedRow(ws.objects[id])], blobs := ws.blobs - {id});
      RestAreOrphans(ws.objects, rows, now);
      DeleteOneOrphan(cfg, ws, id, now);
      OrphanIsLive(ws.objects, id, now);
      DeleteOrphansEffect(cfg, next, rows[1..], now, stuck);
      RowBack(cfg, ws, id, now, DeleteOrphans(next.objects, next.blobs, rows[1..], stuck).0);
    }
  }

  lemma OrphanIsLive(objects: map<string, SyncObject>, id: string, now: int)
    requires id in objects && IsExpiredOrphan(objects[id], now)
    ensures Live(objects, id)
  {
  }

  /** On an invariant state, recalculating after a storage step sets every counter to what conservation
      already says it is. */
  lemma RecalculateBothKeepsInv(cfg: Config, db: Db, user: Uuid, id: Uuid, ws: Workspace)
    requires DbInv(cfg, db) && id in db.workspaces && db.workspaces[id].owner == user
    requires SameHistory(db.workspaces[id], ws) && AvailableKept(db.workspaces[id].objects, ws.objects)
      && ObjectsOk(cfg, ws)
    requires Recalculated(ws.objects).storageBytes == Recalculated(db.workspaces[id].objects).storageBytes
    requires Recalculated(ws.objects).pendingBytes <= Recalculated(db.workspaces[id].objects).pendingBytes
    ensures DbInv(cfg, RecalculateBoth(db, user, id, ws))
    ensures DbKept(db, RecalculateBoth(db, user, id, ws))
  {
    hide LogInv, Recalculated, ObjectOk, AccountOf;
    BooksOk(cfg, db, id);
    var b := BooksOf(db, id);
    var w := ws.(usage := Recalculated(ws.objects));
    var account := b.account.(pendingBytes := b.account.pendingBytes + w.usage.pendingBytes - b.ws.usage.pendingBytes);
    assert AccountOk(cfg, db, user);
    AccountMoves(db.workspaces, id, w, user);
    assert account == AccountOf(db.workspaces[id := w], user);
    StoreKeepsInv(cfg, db, id, Books(w, account));
    assert RecalculateBoth(db, user, id, ws) == Store(db, id, Books(w, account));
  }

  lemma GcKeepsInv(cfg: Config, db: Db, user: Uuid, workspaceId: Uuid, dryRun: bool, now: int, limit: int,
                   locked: set<string>, rows: seq<string>, stuck: set<string>)
    requires ValidConfig(cfg) && DbInv(cfg, db)
    requires workspaceId in db.workspaces ==> OrphanRows(db.workspaces[workspaceId].objects, now, limit, locked, rows)
    ensures DbInv(cfg, RunWorkspaceGC(db, user, workspaceId, dryRun, rows, stuck).0)
    ensures DbKept(db, RunWorkspaceGC(db, user, workspaceId, dryRun, rows, stuck).0)
  {
    hide LogInv, Recalculated, ObjectOk, AccountOf, DeleteOrphans, RecalculateBoth, OrphanLe;
    if Authorized(db, user, workspaceId) {
      EnsureKeepsInv(cfg, db, user);
      var ws := db.workspaces[workspaceId];
      DeleteOrphansEffect(cfg, ws, rows, now, stuck);
      var (blobs, r) := DeleteOrphans(ws.objects, ws.blobs, rows, stuck);
      match r
      case Success(objects) =>
        RecalculateBothKeepsInv(cfg, EnsureAccount(db, user), user, workspaceId,
          ws.(objects := objects, blobs := blobs));
      case Failure(_) =>
        StorageKeepsLog(ws, ws.(blobs := blobs), db.lastServerSeq);
        StoreWorkspaceKeepsInv(cfg, db, workspaceId, ws.(blobs := blobs), db.lastServerSeq);
    }
  }

  /** Conservation makes recalculation a no-op: in an invariant state it changes nothing at all. */
  lemma RecalculateChangesNothing(cfg: Config, db: Db, user: Uuid, workspaceId: Uuid)
    requires DbInv(cfg, db)
    ensures RecalculateSyncUsage(db, user, workspaceId).0 == db
    ensures workspaceId in db.workspaces && db.workspaces[workspaceId].owner == user ==>
      RecalculateSyncUsage(db, user, workspaceId).1 == Success(db.workspaces[workspaceId].usage)
  {
    hide LogInv, Recalculated, ObjectsOk, AccountOf;
    if Authorized(db, user, workspaceId) {
      var ws := db.workspaces[workspaceId];
      assert ws.(usage := Recalculated(ws.objects)) == ws;
      assert db.workspaces[workspaceId := ws] == db.workspaces;
      assert AccountOk(cfg, db, user);
      assert db.accounts[user := AccountOf(db.workspaces, user)] == db.accounts;
    }
  }

  /** Every call keeps the invariant. */
  lemma ApplyKeepsInv(cfg: Config, db: Db, op: Op)
    requires ValidConfig(cfg) && DbInv(cfg, db) && Legal(db, op)
    ensures DbInv(cfg, Apply(cfg, db, op))
    ensures DbKept(db, Apply(cfg, db, op))
  {
    hide DbInv, CreateWorkspace, RegisterDevice, ReserveObjectIds, CreateObjectUploadBatch, CompleteObjectUploadBatch,
         UploadObjectBytesDev, ClientPut, PublishCommit, RunWorkspaceGC, RecalculateSyncUsage, OrphanRows;
    match op
    case CreateWorkspaceOp(user, cryptoVersion, id) => CreateWorkspaceKeepsInv(cfg, db, user, cryptoVersion, id);
    case RegisterDeviceOp(user, workspaceId, publicKey, id) =>
      RegisterDeviceKeepsInv(cfg, db, user, workspaceId, publicKey, id);
    case ReserveOp(user, workspaceId, device, reservations, ids, now) =>
      ReserveKeepsInv(cfg, db, user, workspaceId, device, reservations, ids, now);
    case UploadOp(user, workspaceId, device, attempt, uploads, now, unsigned) =>
      UploadKeepsInv(cfg, db, user, workspaceId, device, attempt, uploads, now, unsigned);
    case CompleteOp(user, workspaceId, device, attempt, completions, now, unreachable) =>
      CompleteKeepsInv(cfg, db, user, workspaceId, device, attempt, completions, now, unreachable);
    case DirectOp(user, workspaceId, device, objectId, sha, size, bytes, putFails) =>
      DirectKeepsInv(cfg, db, user, workspaceId, device, objectId, sha, size, bytes, putFails);
    case ClientPutOp(workspaceId, objectId, blob) => ClientPutKeepsInv(cfg, db, workspaceId, objectId, blob);
    case PublishOp(user, params, gap) => PublishKeepsInv(cfg, db, user, params, gap);
    case GcOp(user, workspaceId, dryRun, now, limit, locked, rows, stuck) =>
      GcKeepsInv(cfg, db, user, workspaceId, dryRun, now, EffectiveLimit(limit), locked, rows, stuck);
    case RecalculateOp(user, workspaceId) => RecalculateChangesNothing(cfg, db, user, workspaceId);
  }

  lemma {:induction false} RunKeepsInv(cfg: Config, db: Db, ops: seq<Op>)
    requires ValidConfig(cfg) && DbInv(cfg, db) && AllLegal(cfg, db, ops)
    ensures DbInv(cfg, Run(cfg, db, ops))
    ensures DbKept(db, Run(cfg, db, ops))
    decreases |ops|
  {
    hide DbInv, Apply;
    if ops != [] {
      ApplyKeepsInv(cfg, db, ops[0]);
      RunKeepsInv(cfg, Apply(cfg, db, ops[0]), ops[1..]);
    }
  }

  /** The invariant holds in every state any run can reach. */
  lemma ReachableInv(cfg: Config, ops: seq<Op>)
    requires ValidConfig(cfg) && AllLegal(cfg, EMPTY_DB, ops)
    ensures DbInv(cfg, Run(cfg, EMPTY_DB, ops))
  {
    RunKeepsInv(cfg, EMPTY_DB, ops);
  }
}
