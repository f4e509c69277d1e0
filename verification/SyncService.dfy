/** The service object: each call works on a copy of the committed rows and commits it at the end, so an
    early return leaves the database as it was. Each call is proved equal to its specification. */
module SyncService {
  import opened Wrappers
  import opened Text
  import opened SyncTypes
  import opened SyncCommits
  import opened SyncStorage
  import opened SyncLedger
  import opened SyncGraph
  import Spec = SyncServer
  import opened SyncInvariant

  /** hasDuplicate, with the set of values seen so far. */
  method FindDuplicate(values: seq<string>) returns (found: bool)
    ensures found == HasDuplicate(values)
  {
    var seen := {};
    for i := 0 to |values|
      invariant seen == set k | 0 <= k < i :: values[k]
      invariant !HasDuplicate(values[..i])
    {
      if values[i] in seen {
        var k :| 0 <= k < i && values[k] == values[i];
        return true;
      }
      seen := seen + {values[i]};
      assert values[..i + 1] == values[..i] + [values[i]];
    }
    assert values[..|values|] == values;
    return false;
  }

  lemma {:induction false} NormalizeIdsAppend(values: seq<string>, v: string)
    ensures NormalizeIds(values + [v]) == NormalizeIds(values) + NormalizeIds([v])
  {
    hide TrimSpace;
    if values == [] {
      assert values + [v] == [v];
    } else {
      assert (values + [v])[1..] == values[1..] + [v];
      NormalizeIdsAppend(values[1..], v);
    }
  }

  /** normalizeIDsPreserveOrder. */
  method TrimIds(values: seq<string>) returns (out: seq<string>)
    ensures out == NormalizeIds(values)
  {
    hide TrimSpace;
    out := [];
    for i := 0 to |values|
      invariant out == NormalizeIds(values[..i])
    {
      var trimmed := TrimSpace(values[i]);
      NormalizeIdsAppend(values[..i], values[i]);
      assert values[..i + 1] == values[..i] + [values[i]];
      if trimmed != "" {
        out := out + [trimmed];
      }
    }
    assert values[..|values|] == values;
  }

  method NormalizeParams(p: PublishParams) returns (r: Result<PublishParams, SyncError>)
    ensures r == Normalize(p)
  {
    hide TrimSpace, NormalizeDigest, IsHexOfDigestLength, NormalizeIds, Sort;
    var n := p.(
      commitId := TrimSpace(p.commitId),
      expectedHead := TrimSpace(p.expectedHead),
      body := TrimSpace(p.body),
      bodySha := NormalizeDigest(p.bodySha));
    if n.workspaceId == NIL_UUID || n.commitId == "" || n.author == NIL_UUID || n.body == "" || n.deviceSeq <= 0
       || n.bodySize <= 0 || |n.signature| != SIGNATURE_SIZE
    {
      return Failure(InvalidArgument);
    }
    if n.kind.None? || !IsHexOfDigestLength(n.bodySha) {
      return Failure(InvalidArgument);
    }
    var parents := TrimIds(p.parents);
    var duplicate := FindDuplicate(parents);
    if duplicate {
      return Failure(InvalidCommitParent);
    }
    var trimmed := TrimIds(p.refs);
    var refs := Sort(trimmed);
    duplicate := FindDuplicate(refs);
    if duplicate || n.body in refs {
      return Failure(InvalidArgument);
    }
    return Success(n.(parents := parents, refs := refs));
  }

  /** The loop over referenced rows, with the checkpoint-pack flag it accumulates. */
  method CheckRefs(objects: map<string, SyncObject>, refs: seq<string>)
    returns (error: Option<SyncError>, hasPack: bool)
    requires forall id :: id in refs ==> id in objects
    ensures error == RefsError(objects, refs)
    ensures error.None? ==> hasPack == HasCheckpointPack(objects, refs)
  {
    hasPack := false;
    for i := 0 to |refs|
      invariant RefsError(objects, refs) == RefsError(objects, refs[i..])
      invariant hasPack == HasCheckpointPack(objects, refs[..i])
    {
      var row := objects[refs[i]];
      assert refs[i..] == [refs[i]] + refs[i + 1..];
      if row.state != Available {
        return Some(ObjectNotAvailable), hasPack;
      }
      if row.kind == CommitBody {
        return Some(InvalidArgument), hasPack;
      }
      assert refs[..i + 1] == refs[..i] + [refs[i]];
      if row.kind == CheckpointPack {
        hasPack := true;
      }
    }
    assert refs[..|refs|] == refs;
    return None, hasPack;
  }

  method ValidateObjects(ws: Workspace, n: PublishParams) returns (error: Option<SyncError>)
    ensures error == ObjectsError(ws, n)
  {
    if !Live(ws.objects, n.body) {
      return Some(ObjectNotAvailable);
    }
    var body := ws.objects[n.body];
    if body.state != Available || body.kind != CommitBody {
      return Some(ObjectNotAvailable);
    }
    if body.sha != n.bodySha || body.size != n.bodySize {
      return Some(ObjectMetadataMismatch);
    }
    if |n.refs| == 0 {
      if n.kind == Some(Checkpoint) {
        return Some(ObjectNotAvailable);
      }
      return None;
    }
    var rows := FoundRefs(ws.objects, n.refs);
    if |rows| != |n.refs| {
      return Some(ObjectNotAvailable);
    }
    var hasPack;
    error, hasPack := CheckRefs(ws.objects, rows);
    if error.None? && n.kind == Some(Checkpoint) && !hasPack {
      return Some(ObjectNotAvailable);
    }
  }

  /** The link inserts of one publication, body first. */
  method LinkRefs(links: set<Link>, objects: map<string, SyncObject>, commitId: string, refs: seq<string>)
    returns (out: set<Link>)
    requires forall id :: id in refs ==> id in objects
    ensures out == AddRefLinks(links, objects, commitId, refs)
  {
    hide AddLink;
    out := links;
    for i := 0 to |refs|
      invariant AddRefLinks(links, objects, commitId, refs) == AddRefLinks(out, objects, commitId, refs[i..])
    {
      assert refs[i..] == [refs[i]] + refs[i + 1..];
      out := AddLink(out, Link(commitId, refs[i], RoleOf(objects[refs[i]].kind)));
    }
  }

  // ----- Query answers computed by loops -----

  method NewestOf(commits: map<string, Commit>, ids: set<string>) returns (best: string)
    requires ids != {} && ids <= commits.Keys
    ensures best in ids && forall c :: c in ids ==> commits[c].serverSeq <= commits[best].serverSeq
  {
    var rest := ids;
    best :| best in rest;
    while rest != {}
      invariant rest <= ids && best in ids
      invariant forall c :: c in ids - rest ==> commits[c].serverSeq <= commits[best].serverSeq
      decreases rest
    {
      var c :| c in rest;
      if commits[c].serverSeq > commits[best].serverSeq {
        best := c;
      }
      rest := rest - {c};
    }
    assert ids - rest == ids;
  }

  /** ListSyncCommitsByWorkspaceDesc. */
  method ListCommitsDesc(commits: map<string, Commit>) returns (rows: seq<string>)
    ensures ListedDesc(commits, rows)
  {
    rows := [];
    var rest := commits.Keys;
    while rest != {}
      invariant rest <= commits.Keys
      invariant forall i :: 0 <= i < |rows| ==> rows[i] in commits && rows[i] !in rest
      invariant forall c :: c in commits && c !in rest ==> c in rows
      invariant forall i, j :: 0 <= i < j < |rows| ==>
        rows[i] != rows[j] && commits[rows[i]].serverSeq >= commits[rows[j]].serverSeq
      invariant forall i, c :: 0 <= i < |rows| && c in rest ==> commits[rows[i]].serverSeq >= commits[c].serverSeq
      decreases rest
    {
      var best := NewestOf(commits, rest);
      rows := rows + [best];
      rest := rest - {best};
    }
  }

  lemma NothingToSum(user: Uuid)
    ensures Recalculated(map[]) == Usage(0, 0, 0)
    ensures Spec.AccountOf(map[], user) == Spec.EMPTY_ACCOUNT
  {
  }

  /** RecalculateSyncUsageWorkspace. */
  method RecalculateUsage(objects: map<string, SyncObject>) returns (usage: Usage)
    ensures usage == Recalculated(objects)
  {
    hide Recalculated;
    usage := Usage(0, 0, 0);
    var rest := objects.Keys;
    ghost var done: map<string, SyncObject> := map[];
    NothingToSum(0);
    while rest != {}
      invariant rest <= objects.Keys && done == objects - rest
      invariant usage == Recalculated(done)
      decreases rest
    {
      var id :| id in rest;
      var row := objects[id];
      UpdateRowAll(done, id, row);
      match row.state {
        case Available =>
          usage := usage.(storageBytes := usage.storageBytes + row.size, objectCount := usage.objectCount + 1);
        case Pending => usage := usage.(pendingBytes := usage.pendingBytes + row.size);
        case _ =>
      }
      rest, done := rest - {id}, done[id := row];
    }
    assert objects - {} == objects;
  }

  /** RecalculateSyncUsageAccount. */
  method RecalculateAccount(workspaces: map<Uuid, Workspace>, user: Uuid) returns (account: Account)
    ensures account == Spec.AccountOf(workspaces, user)
  {
    hide Spec.AccountOf;
    account := Spec.EMPTY_ACCOUNT;
    var rest := workspaces.Keys;
    ghost var done: map<Uuid, Workspace> := map[];
    NothingToSum(user);
    while rest != {}
      invariant rest <= workspaces.Keys && done == workspaces - rest
      invariant account == Spec.AccountOf(done, user)
      decreases rest
    {
      var w :| w in rest;
      var ws := workspaces[w];
      AccountAdds(done, w, ws, user);
      if ws.owner == user {
        account := Account(account.workspaceCount + 1, account.storageBytes + ws.usage.storageBytes,
                           account.pendingBytes + ws.usage.pendingBytes);
      }
      rest, done := rest - {w}, done[w := ws];
    }
    assert workspaces - {} == workspaces;
  }

  // ----- The service -----

  datatype UsageSnapshot = UsageSnapshot(account: Account, workspace: Usage)

  datatype GcReport = GcReport(
    latestCheckpoint: Option<CheckpointInfo>,
    reachableCommits: nat,
    reachableObjects: nat,
    preservedCommits: nat,
    preservedObjects: nat,
    oldHistory: seq<string>,
    candidates: seq<string>,
    deleted: seq<string>,
    before: UsageSnapshot,
    after: UsageSnapshot)

  class Service {
    const cfg: Config
    var db: Db

    /** Counters, quotas and the commit logs are in order. */
    ghost predicate Valid()
      reads this
    {
      ValidConfig(cfg) && DbInv(cfg, db)
    }

    constructor (cfg: Config)
      ensures this.cfg == cfg && db == EMPTY_DB
      ensures ValidConfig(cfg) ==> Valid()
    {
      this.cfg := cfg;
      db := EMPTY_DB;
    }

    method CreateWorkspace(user: Uuid, cryptoVersion: string, id: Uuid) returns (r: Result<Uuid, SyncError>)
      modifies this`db
      ensures (db, r) == Spec.CreateWorkspace(cfg, old(db), user, cryptoVersion, id)
      ensures old(Valid()) ==> Valid() && DbKept(old(db), db)
      ensures r.Failure? ==> db == old(db)
    {
      hide DbInv, DbKept, ValidConfig, TrimSpace;
      if Valid() {
        CreateWorkspaceKeepsInv(cfg, db, user, cryptoVersion, id);
      }
      if TrimSpace(cryptoVersion) == "" {
        return Failure(InvalidArgument);
      }
      var q := Spec.EnsureAccount(db, user);
      var account := q.accounts[user];
      if account.workspaceCount >= cfg.maxWorkspaces {
        return Failure(Quota(WorkspaceCount, cfg.maxWorkspaces, account.workspaceCount, 1));
      }
      if id in q.workspaces {
        return Failure(ConstraintViolation);
      }
      q := q.(workspaces := q.workspaces[id := Spec.FreshWorkspace(user)]);
      q := q.(accounts := q.accounts[user := account.(workspaceCount := account.workspaceCount + 1)]);
      db := q;
      return Success(id);
    }

    method ReserveObjectIds(user: Uuid, workspaceId: Uuid, device: Uuid, requests: seq<ReservationRequest>,
                            ids: seq<string>, now: int) returns (r: Result<seq<string>, SyncError>)
      requires |ids| == |requests|
      modifies this`db
      ensures (db, r) == Spec.ReserveObjectIds(cfg, old(db), user, workspaceId, device, requests, ids, now)
      ensures old(Valid()) ==> Valid() && DbKept(old(db), db)
      ensures r.Failure? ==> db == old(db)
    {
      hide DbInv, DbKept, ValidConfig, TrimSpace;
      if Valid() {
        ReserveKeepsInv(cfg, db, user, workspaceId, device, requests, ids, now);
      }
      if |requests| == 0 || |requests| > MAX_RESERVATIONS {
        return Failure(InvalidArgument);
      }
      if !Authorized(db, user, workspaceId) || !ActiveDevice(db.workspaces[workspaceId], user, device) {
        return Failure(PermissionDenied);
      }
      var ws := db.workspaces[workspaceId];
      for i := 0 to |requests|
        invariant ReserveAll(cfg, db.workspaces[workspaceId], device, requests, ids, now)
               == ReserveAll(cfg, ws, device, requests[i..], ids[i..], now)
      {
        if TrimSpace(requests[i].clientRef) == "" || requests[i].kind.None? {
          return Failure(InvalidArgument);
        }
        if ids[i] in ws.objects {
          return Failure(ConstraintViolation);
        }
        ws := ws.(objects := ws.objects[ids[i] := ReservedRow(cfg, device, requests[i].kind.value, now)]);
      }
      db := Spec.StoreWorkspace(db, workspaceId, ws);
      return Success(ids);
    }

    method CreateObjectUploadBatch(user: Uuid, workspaceId: Uuid, device: Uuid, attempt: string,
                                   requests: seq<UploadRequest>, now: int, unsigned: set<string>)
      returns (r: Result<seq<Candidate>, SyncError>)
      modifies this`db
      ensures (db, r) ==
        Spec.CreateObjectUploadBatch(cfg, old(db), user, workspaceId, device, attempt, requests, now, unsigned)
      ensures old(Valid()) ==> Valid() && DbKept(old(db), db)
      ensures r.Failure? ==> db == old(db)
    {
      hide DbInv, DbKept, ValidConfig, ScanUpload, TrimSpace;
      if Valid() {
        UploadKeepsInv(cfg, db, user, workspaceId, device, attempt, requests, now, unsigned);
      }
      var refused := UploadArguments(cfg, attempt, |requests|);
      if refused.Some? {
        return Failure(refused.value);
      }
      if !Authorized(db, user, workspaceId) || !ActiveDevice(db.workspaces[workspaceId], user, device) {
        return Failure(PermissionDenied);
      }
      if user !in db.accounts {
        return Failure(NoRows);
      }
      var b := Spec.BooksOf(db, workspaceId);
      var scan := UploadScan({}, [], 0);
      for i := 0 to |requests|
        invariant ScanUploads(cfg, b.ws, device, now, UploadScan({}, [], 0), requests)
               == ScanUploads(cfg, b.ws, device, now, scan, requests[i..])
      {
        var next := ScanUpload(cfg, b.ws, device, now, scan, requests[i]);
        if next.Failure? {
          return Failure(next.error);
        }
        scan := next.value;
      }
      var overQuota := CheckUploadQuota(cfg, b.account, b.ws.usage, scan.bytes);
      if overQuota.Some? {
        return Failure(overQuota.value);
      }
      var q := b;
      if scan.bytes > 0 {
        q := AddPending(q, scan.bytes);
      }
      ghost var charged := q;
      var expiry := now + cfg.maxPendingAge;
      var targets := [];
      for i := 0 to |scan.candidates|
        invariant targets == scan.candidates[..i]
        invariant MarkAllPending(charged, scan.candidates, expiry, unsigned) ==
          MarkAllPending(q, scan.candidates[i..], expiry, unsigned)
      {
        var c := scan.candidates[i];
        if c.id !in q.ws.objects || q.ws.objects[c.id].state !in {Reserved, Pending} {
          return Failure(NoRows);
        }
        q := PutObject(q, c.id, PendingRow(q.ws.objects[c.id], c, expiry));
        if c.id in unsigned {
          return Failure(StoreError);
        }
        targets := targets + [c];
      }
      assert scan.candidates[..|scan.candidates|] == scan.candidates;
      db := Spec.Store(db, workspaceId, q);
      return Success(targets);
    }

    method CompleteObjectUploadBatch(user: Uuid, workspaceId: Uuid, device: Uuid, attempt: string,
                                     requests: seq<CompleteRequest>, now: int, unreachable: set<string>)
      returns (r: Result<seq<UploadOutcome>, SyncError>)
      modifies this`db
      ensures (db, r) ==
        Spec.CompleteObjectUploadBatch(cfg, old(db), user, workspaceId, device, attempt, requests, now, unreachable)
      ensures old(Valid()) ==> Valid() && DbKept(old(db), db)
      ensures r.Failure? ==> db == old(db)
    {
      hide DbInv, DbKept, ValidConfig, CompleteOne, TrimSpace;
      if Valid() {
        CompleteKeepsInv(cfg, db, user, workspaceId, device, attempt, requests, now, unreachable);
      }
      var refused := UploadArguments(cfg, attempt, |requests|);
      if refused.Some? {
        return Failure(refused.value);
      }
      if !Authorized(db, user, workspaceId) || !ActiveDevice(db.workspaces[workspaceId], user, device) {
        return Failure(PermissionDenied);
      }
      if user !in db.accounts {
        return Failure(NoRows);
      }
      var c := Completion({}, Spec.BooksOf(db, workspaceId), []);
      ghost var start := c;
      for i := 0 to |requests|
        invariant CompleteAll(device, now, unreachable, start, requests) ==
          CompleteAll(device, now, unreachable, c, requests[i..])
      {
        var next := CompleteOne(device, now, unreachable, c, requests[i]);
        if next.Failure? {
          return Failure(next.error);
        }
        c := next.value;
      }
      db := Spec.Store(db, workspaceId, c.books);
      return Success(c.results);
    }

    method UploadObjectBytesDev(user: Uuid, workspaceId: Uuid, device: Uuid, objectId: string, sha: string, size: int,
                                bytes: seq<bv8>, putFails: bool) returns (r: Result<SyncObject, SyncError>)
      modifies this`db
      ensures (db, r) ==
        Spec.UploadObjectBytesDev(cfg, old(db), user, workspaceId, device, objectId, sha, size, bytes, putFails)
      ensures old(Valid()) ==> Valid() && DbKept(old(db), db)
      ensures r.Failure? ==> db == old(db)
    {
      hide DbInv, DbKept, ValidConfig, DirectArguments, NormalizeDigest;
      if Valid() {
        DirectKeepsInv(cfg, db, user, workspaceId, device, objectId, sha, size, bytes, putFails);
      }
      var refused := DirectArguments(cfg, sha, size, bytes);
      if refused.Some? {
        return Failure(refused.value);
      }
      if !Authorized(db, user, workspaceId) || !ActiveDevice(db.workspaces[workspaceId], user, device) {
        return Failure(PermissionDenied);
      }
      if user !in db.accounts {
        return Failure(NoRows);
      }
      var b := Spec.BooksOf(db, workspaceId);
      var overQuota := DirectQuota(cfg, b.account, b.ws.usage, size);
      if overQuota.Some? {
        return Failure(overQuota.value);
      }
      if !Live(b.ws.objects, objectId) {
        return Failure(PermissionDenied);
      }
      var digest := NormalizeDigest(sha);
      var current := b.ws.objects[objectId];
      if current.provider != Local {
        return Failure(DevBytesDisabled);
      }
      if current.state == Available {
        if current.sha == digest && current.size == size {
          assert Spec.Store(db, workspaceId, b) == db by {
            assert db.workspaces[workspaceId := b.ws] == db.workspaces
              && db.accounts[b.ws.owner := b.account] == db.accounts;
          }
          return Success(current);
        }
        return Failure(ObjectMetadataMismatch);
      }
      if current.state != Reserved && current.state != Pending {
        return Failure(ObjectNotAvailable);
      }
      if putFails {
        return Failure(StoreError);
      }
      b := b.(ws := b.ws.(blobs := b.ws.blobs[objectId := Blob(size, digest)]));
      b := PutObject(b, objectId, AvailableRow(current, digest, size));
      b := AddAvailable(b, size);
      db := Spec.Store(db, workspaceId, b);
      return Success(b.ws.objects[objectId]);
    }

    /** Admission, then the inserts and updates of one publication in order. */
    method PublishCommit(user: Uuid, p: PublishParams, gap: nat) returns (r: Result<PublishResult, SyncError>)
      modifies this`db
      ensures (db, r) == Spec.PublishCommit(cfg, old(db), user, p, gap)
      ensures old(Valid()) ==> Valid() && DbKept(old(db), db)
      ensures r.Failure? ==> db == old(db)
    {
      hide DbInv, DbKept, ValidConfig, Normalize, ObjectsError, AddLink, AddRefLinks, PayloadOfRow;
      if Valid() {
        PublishKeepsInv(cfg, db, user, p, gap);
      }
      var normalized := NormalizeParams(p);
      if normalized.Failure? {
        return Failure(normalized.error);
      }
      var n := normalized.value;
      if !Authorized(db, user, n.workspaceId) {
        return Failure(PermissionDenied);
      }
      if n.kind.None? {
        return Failure(InvalidArgument);
      }
      var ws := db.workspaces[n.workspaceId];
      var payload := CanonicalPayload(n);
      if n.commitId in ws.commits {
        var existing := ws.commits[n.commitId];
        if !CommitMatches(n.workspaceId, n.commitId, existing, payload, n.signature) {
          return Failure(DuplicateCommitPayload);
        }
        return Success(PublishResult(existing, ws.headVersion, true));
      }
      if TextValue(ws.head) != n.expectedHead {
        return Failure(HeadConflict(n.workspaceId, TextValue(ws.head), ws.headVersion));
      }
      if !ActiveDevice(ws, user, n.author) {
        return Failure(PermissionDenied);
      }
      var device := ws.devices[n.author];
      if n.deviceSeq <= device.lastSeq {
        return Failure(DuplicateDeviceSeq);
      }
      if |device.publicKey| != PUBLIC_KEY_SIZE || !cfg.verify(device.publicKey, payload, n.signature) {
        return Failure(InvalidSignature);
      }
      if !ParentsValid(ws, n) {
        return Failure(InvalidCommitParent);
      }
      var fault := ValidateObjects(ws, n);
      if fault.Some? {
        return Failure(fault.value);
      }
      RefusalNoneImpliesRefsPresent(cfg, ws, user, n);

      var serverSeq := db.lastServerSeq + 1 + gap;
      var commit := RowOf(n, serverSeq);
      var links := AddLink(ws.links, Link(n.commitId, n.body, BodyRole));
      links := LinkRefs(links, ws.objects, n.commitId, n.refs);
      var lastCheckpoint := "";
      if n.kind == Some(Checkpoint) {
        lastCheckpoint := n.commitId;
      }
      var q := ws.(commits := ws.commits[n.commitId := commit], links := links);
      q := q.(devices := q.devices[n.author := device.(lastSeq := n.deviceSeq)]);
      q := q.(cursors := q.cursors[n.author := MergeCursor(q.cursors, n.author, n.commitId, lastCheckpoint)]);
      q := q.(head := ToText(n.commitId), headVersion := q.headVersion + 1);
      assert q == Append(ws, n, serverSeq);
      db := Spec.StoreWorkspace(db, n.workspaceId, q).(lastServerSeq := serverSeq);
      return Success(PublishResult(commit, q.headVersion, false));
    }

    /** `rows` is the database's answer to the orphan query; its clauses are in Spec.OrphanRows. */
    method RunWorkspaceGC(user: Uuid, workspaceId: Uuid, dryRun: bool, ghost now: int, ghost limit: int,
                          ghost locked: set<string>, rows: seq<string>, stuck: set<string>)
      returns (r: Result<GcReport, SyncError>)
      requires workspaceId in db.workspaces ==>
                 Spec.OrphanRows(db.workspaces[workspaceId].objects, now, Spec.EffectiveLimit(limit), locked, rows)
      modifies this`db
      ensures db == Spec.RunWorkspaceGC(old(db), user, workspaceId, dryRun, rows, stuck).0
      ensures r.Failure? ==> Spec.RunWorkspaceGC(old(db), user, workspaceId, dryRun, rows, stuck).1 == Failure(r.error)
      ensures r.Success? ==>
        Spec.RunWorkspaceGC(old(db), user, workspaceId, dryRun, rows, stuck).1 == Success(r.value.deleted)
      ensures r.Success? ==> GcReportOk(old(db), db, user, workspaceId, dryRun, rows, r.value)
      ensures r.Success? && (dryRun || rows == []) ==> db.workspaces == old(db.workspaces)
      ensures old(Valid()) ==> Valid() && DbKept(old(db), db)
    {
      hide DbInv, DbKept, ValidConfig, Recalculated, Spec.AccountOf, Spec.OrphanRows, Spec.DeleteOrphans, GcReportOk,
           ReportsGraph;
      if Valid() {
        GcKeepsInv(cfg, db, user, workspaceId, dryRun, now, Spec.EffectiveLimit(limit), locked, rows, stuck);
      }
      if !Authorized(db, user, workspaceId) {
        return Failure(PermissionDenied);
      }
      var q := Spec.EnsureAccount(db, user);
      var ws := q.workspaces[workspaceId];
      var report, listing := ReportOn(ws, UsageSnapshot(q.accounts[user], ws.usage), rows);
      if dryRun || |rows| == 0 {
        ReportIsOk(db, q, user, workspaceId, dryRun, rows, listing, report);
        db := q;
        return Success(report);
      }
      var blobs, objects := DeleteObjects(ws.objects, ws.blobs, rows, stuck);
      if objects.Failure? {
        db := Spec.StoreWorkspace(db, workspaceId, ws.(blobs := blobs));
        return Failure(objects.error);
      }
      var usage := RecalculateUsage(objects.value);
      q := Spec.StoreWorkspace(q, workspaceId, ws.(objects := objects.value, blobs := blobs, usage := usage));
      var account := RecalculateAccount(q.workspaces, user);
      q := q.(accounts := q.accounts[user := account]);
      report := report.(deleted := rows, after := UsageSnapshot(account, usage));
      ReportIsOk(db, q, user, workspaceId, dryRun, rows, listing, report);
      db := q;
      return Success(report);
    }

    method RecalculateSyncUsage(user: Uuid, workspaceId: Uuid) returns (r: Result<Usage, SyncError>)
      modifies this`db
      ensures (db, r) == Spec.RecalculateSyncUsage(old(db), user, workspaceId)
      ensures old(Valid()) ==> Valid() && DbKept(old(db), db)
      ensures r.Failure? ==> db == old(db)
    {
      hide DbInv, DbKept, ValidConfig, Recalculated, Spec.AccountOf;
      if Valid() {
        RecalculateChangesNothing(cfg, db, user, workspaceId);
        NothingTaken(db);
      }
      if !Authorized(db, user, workspaceId) {
        return Failure(PermissionDenied);
      }
      var ws := db.workspaces[workspaceId];
      var usage := RecalculateUsage(ws.objects);
      var q := Spec.StoreWorkspace(db, workspaceId, ws.(usage := usage));
      var account := RecalculateAccount(q.workspaces, user);
      db := q.(accounts := q.accounts[user := account]);
      return Success(usage);
    }
  }

  /** What a report says before anything is deleted. */
  method ReportOn(ws: Workspace, before: UsageSnapshot, rows: seq<string>)
    returns (report: GcReport, ghost listing: seq<string>)
    ensures ReportsGraph(ws, listing, report)
    ensures report.candidates == rows && report.deleted == [] && report.before == before && report.after == before
  {
    var commits := ListCommitsDesc(ws.commits);
    listing := commits;
    var graph := new SyncReachableGraph();
    graph.Build(ws, commits);
    report := GcReport(graph.latestCheckpoint, |graph.commitIds|, |graph.objectIds|, |graph.preservedCommitIds|,
                       |graph.preservedObjectIds|, graph.oldHistory, rows, [], before, before);
  }

  /** The deletion loop: blob, then row, of each orphan. */
  method DeleteObjects(objects: map<string, SyncObject>, blobs: map<string, Blob>, rows: seq<string>,
                       stuck: set<string>)
      returns (left: map<string, Blob>, r: Result<map<string, SyncObject>, SyncError>)
    ensures (left, r) == Spec.DeleteOrphans(objects, blobs, rows, stuck)
  {
    var kept := objects;
    left := blobs;
    for i := 0 to |rows|
      invariant Spec.DeleteOrphans(objects, blobs, rows, stuck) == Spec.DeleteOrphans(kept, left, rows[i..], stuck)
    {
      if rows[i] in stuck {
        return left, Failure(StoreError);
      }
      left := left - {rows[i]};
      if !Live(kept, rows[i]) {
        return left, Failure(NoRows);
      }
      kept := kept[rows[i] := Spec.DeletedRow(kept[rows[i]])];
    }
    return left, Success(kept);
  }

  lemma ReportIsOk(before: Db, after: Db, user: Uuid, workspaceId: Uuid, dryRun: bool, rows: seq<string>,
                   listing: seq<string>, report: GcReport)
    requires workspaceId in before.workspaces && workspaceId in after.workspaces && user in after.accounts
    requires ReportsGraph(before.workspaces[workspaceId], listing, report.(deleted := [], after := report.before))
    requires report.candidates == rows && report.deleted == (if dryRun then [] else rows)
    requires dryRun || rows == [] ==> report.after == report.before
    requires report.before.workspace == before.workspaces[workspaceId].usage
    requires report.before.account == if user in before.accounts then before.accounts[user] else Spec.EMPTY_ACCOUNT
    requires report.after == UsageSnapshot(after.accounts[user], after.workspaces[workspaceId].usage)
    ensures GcReportOk(before, after, user, workspaceId, dryRun, rows, report)
  {
    assert ReportsGraph(before.workspaces[workspaceId], listing, report);
  }

  /** The report counts the exact reachable and preserved sets of the workspace as it was. */
  ghost predicate ReportsGraph(ws: Workspace, listing: seq<string>, report: GcReport) {
    && ListedDesc(ws.commits, listing)
    && report.latestCheckpoint == LatestCheckpoint(ws.commits, listing)
    && report.reachableCommits == |ReachableSet(ws.commits, TextValue(ws.head))|
    && report.reachableObjects == |ObjectsOfAll(ws, ReachableSet(ws.commits, TextValue(ws.head)))|
    && report.preservedCommits == |PreservedCommits(ws, report.latestCheckpoint)|
    && report.preservedObjects == |ObjectsOfAll(ws, PreservedCommits(ws, report.latestCheckpoint))|
    && report.oldHistory == OldHistory(ws, report.latestCheckpoint, listing)
  }

  /** It lists the orphans, and as deleted all of them or, in a dry run, none; a run that deletes nothing leaves the
      usage as it was. */
  ghost predicate GcReportOk(before: Db, after: Db, user: Uuid, workspaceId: Uuid, dryRun: bool, rows: seq<string>,
                             report: GcReport)
  {
    && workspaceId in before.workspaces && workspaceId in after.workspaces && user in after.accounts
    && (exists listing :: ReportsGraph(before.workspaces[workspaceId], listing, report))
    && report.candidates == rows && report.deleted == (if dryRun then [] else rows)
    && (dryRun || rows == [] ==> report.after == report.before)
    && report.before.workspace == before.workspaces[workspaceId].usage
    && report.before.account == (if user in before.accounts then before.accounts[user] else Spec.EMPTY_ACCOUNT)
    && report.after == UsageSnapshot(after.accounts[user], after.workspaces[workspaceId].usage)
  }
}
