/** Byte conservation and quota ceilings: what every storage call keeps in one workspace and its account. */
module SyncLedger {
  import opened Wrappers
  import opened Text
  import opened Sums
  import opened SyncTypes
  import opened SyncStorage

  ghost function Sizes(objects: map<string, SyncObject>, state: ObjectState): map<string, int> {
    map id | id in objects :: if objects[id].state == state then objects[id].size else 0
  }

  ghost function Marks(objects: map<string, SyncObject>, state: ObjectState): map<string, int> {
    map id | id in objects :: if objects[id].state == state then 1 else 0
  }

  /** Total size, and number, of the objects in one state: what the Recalculate queries compute. */
  ghost function StateBytes(objects: map<string, SyncObject>, state: ObjectState): int {
    Sum(Sizes(objects, state))
  }

  ghost function StateCount(objects: map<string, SyncObject>, state: ObjectState): int {
    Sum(Marks(objects, state))
  }

  ghost function Recalculated(objects: map<string, SyncObject>): Usage {
    Usage(StateBytes(objects, Available), StateCount(objects, Available), StateBytes(objects, Pending))
  }

  function BlobAt(blobs: map<string, Blob>, id: string): Option<Blob> {
    if id in blobs then Some(blobs[id]) else None
  }

  /** With the local store nothing but the direct upload writes blobs, so an available object has the blob
      its row describes; a presigned URL lets a client overwrite the blob later. */
  ghost predicate ObjectOk(cfg: Config, o: SyncObject, blob: Option<Blob>) {
    && o.provider == cfg.driver
    && o.size >= 0
    && (o.state in {Pending, Available} ==> 0 < o.size <= cfg.maxBlobBytes && IsDigest(o.sha))
    && (o.state == Pending ==> cfg.driver == S3Compatible)
    && (o.state == Available ==> blob.Some?)
    && (o.state == Available && cfg.driver == Local ==> blob == Some(Blob(o.size, o.sha)))
  }

  ghost predicate ObjectsOk(cfg: Config, ws: Workspace) {
    forall id :: id in ws.objects ==> ObjectOk(cfg, ws.objects[id], BlobAt(ws.blobs, id))
  }

  /** The cached counters are exact and within their ceilings, and every object is in order. */
  ghost predicate LedgerInv(cfg: Config, ws: Workspace) {
    && ObjectsOk(cfg, ws)
    && ws.usage == Recalculated(ws.objects)
    && ws.usage.pendingBytes <= cfg.maxPendingBytes
    && ws.usage.storageBytes + ws.usage.pendingBytes <= cfg.maxWorkspaceBytes
  }

  ghost predicate BooksInv(cfg: Config, b: Books) {
    && LedgerInv(cfg, b.ws)
    && b.account.storageBytes + b.account.pendingBytes <= cfg.maxUserBytes
  }

  /** An available object is final: no call changes its row. */
  ghost predicate AvailableKept(before: map<string, SyncObject>, after: map<string, SyncObject>) {
    forall id :: id in before && before[id].state == Available ==> id in after && after[id] == before[id]
  }

  /** The part of a workspace no storage call touches. */
  ghost predicate SameHistory(v: Workspace, w: Workspace) {
    && w.owner == v.owner && w.head == v.head && w.headVersion == v.headVersion && w.devices == v.devices
    && w.cursors == v.cursors && w.commits == v.commits && w.links == v.links
  }

  /** The account moves by exactly what the workspace counters move. */
  ghost predicate MovesTogether(b: Books, c: Books) {
    && c.account.workspaceCount == b.account.workspaceCount
    && c.account.pendingBytes - b.account.pendingBytes == c.ws.usage.pendingBytes - b.ws.usage.pendingBytes
    && c.account.storageBytes - b.account.storageBytes == c.ws.usage.storageBytes - b.ws.usage.storageBytes
  }

  ghost predicate StorageStep(b: Books, c: Books) {
    SameHistory(b.ws, c.ws) && AvailableKept(b.ws.objects, c.ws.objects) && MovesTogether(b, c)
  }

  // ----- The counters under one row update -----

  ghost function SizeIn(o: SyncObject, state: ObjectState): int {
    if o.state == state then o.size else 0
  }

  lemma UpdateRow(objects: map<string, SyncObject>, id: string, o: SyncObject, state: ObjectState)
    ensures StateBytes(objects[id := o], state)
         == StateBytes(objects, state) - (if id in objects then SizeIn(objects[id], state) else 0) + SizeIn(o, state)
  {
    hide Sum;
    assert Sizes(objects[id := o], state) == Sizes(objects, state)[id := SizeIn(o, state)];
    SumUpdate(Sizes(objects, state), id, SizeIn(o, state));
  }

  ghost function MarkIn(o: SyncObject, state: ObjectState): int {
    if o.state == state then 1 else 0
  }

  lemma UpdateCount(objects: map<string, SyncObject>, id: string, o: SyncObject, state: ObjectState)
    ensures StateCount(objects[id := o], state)
         == StateCount(objects, state) - (if id in objects then MarkIn(objects[id], state) else 0) + MarkIn(o, state)
  {
    hide Sum;
    assert Marks(objects[id := o], state) == Marks(objects, state)[id := MarkIn(o, state)];
    SumUpdate(Marks(objects, state), id, MarkIn(o, state));
  }

  lemma UpdateRowAll(objects: map<string, SyncObject>, id: string, o: SyncObject)
    ensures Recalculated(objects[id := o]).pendingBytes == Recalculated(objects).pendingBytes
              - (if id in objects then SizeIn(objects[id], Pending) else 0) + SizeIn(o, Pending)
    ensures Recalculated(objects[id := o]).storageBytes == Recalculated(objects).storageBytes
              - (if id in objects then SizeIn(objects[id], Available) else 0) + SizeIn(o, Available)
    ensures Recalculated(objects[id := o]).objectCount == Recalculated(objects).objectCount
              - (if id in objects then MarkIn(objects[id], Available) else 0) + MarkIn(o, Available)
  {
    hide StateBytes, StateCount;
    UpdateRow(objects, id, o, Pending);
    UpdateRow(objects, id, o, Available);
    UpdateCount(objects, id, o, Available);
  }

  /** The CHECK constraints on the counters never fire, and no object outweighs its counter. */
  lemma CountersNonNegative(cfg: Config, ws: Workspace, id: string)
    requires LedgerInv(cfg, ws)
    ensures ws.usage.storageBytes >= 0 && ws.usage.pendingBytes >= 0 && ws.usage.objectCount >= 0
    ensures id in ws.objects ==> SizeIn(ws.objects[id], Pending) <= ws.usage.pendingBytes
    ensures id in ws.objects ==> SizeIn(ws.objects[id], Available) <= ws.usage.storageBytes
  {
    SumLowerBound(Sizes(ws.objects, Available), id);
    SumLowerBound(Sizes(ws.objects, Pending), id);
    SumLowerBound(Marks(ws.objects, Available), id);
  }

  /** Replacing the row of an object that is not available, by one that is in order. */
  lemma RowReplaced(cfg: Config, b: Books, id: string, o: SyncObject)
    requires ObjectsOk(cfg, b.ws) && ObjectOk(cfg, o, BlobAt(b.ws.blobs, id))
    requires id in b.ws.objects ==> b.ws.objects[id].state != Available
    ensures ObjectsOk(cfg, PutObject(b, id, o).ws)
    ensures AvailableKept(b.ws.objects, PutObject(b, id, o).ws.objects)
  {
    hide ObjectOk;
    var c := PutObject(b, id, o);
    forall x | x in c.ws.objects ensures ObjectOk(cfg, c.ws.objects[x], BlobAt(c.ws.blobs, x)) {
      if x != id {
        assert ObjectOk(cfg, b.ws.objects[x], BlobAt(b.ws.blobs, x));
      }
    }
  }

  // ----- Reservation -----

  lemma ReserveOneKeeps(cfg: Config, b: Books, id: string, device: Uuid, kind: ObjectKind, now: int)
    requires BooksInv(cfg, b) && id !in b.ws.objects
    ensures var c := PutObject(b, id, ReservedRow(cfg, device, kind, now)); BooksInv(cfg, c) && StorageStep(b, c)
  {
    hide Recalculated, ObjectsOk, AvailableKept;
    var row := ReservedRow(cfg, device, kind, now);
    UpdateRowAll(b.ws.objects, id, row);
    RowReplaced(cfg, b, id, row);
  }

  lemma StepsCompose(a: Books, b: Books, c: Books)
    requires StorageStep(a, b) && StorageStep(b, c)
    ensures StorageStep(a, c)
  {
  }

  lemma {:induction false} ReserveKeeps(cfg: Config, b: Books, device: Uuid, requests: seq<ReservationRequest>,
                                        ids: seq<string>, now: int)
    requires |ids| == |requests| && BooksInv(cfg, b)
    requires ReserveAll(cfg, b.ws, device, requests, ids, now).Success?
    ensures var c := Books(ReserveAll(cfg, b.ws, device, requests, ids, now).value, b.account);
            BooksInv(cfg, c) && StorageStep(b, c)
    decreases |requests|
  {
    hide BooksInv, StorageStep, TrimSpace, ReservedRow;
    if requests == [] {
      NoStep(b);
    } else {
      var next := PutObject(b, ids[0], ReservedRow(cfg, device, requests[0].kind.value, now));
      ReserveOneKeeps(cfg, b, ids[0], device, requests[0].kind.value, now);
      ReserveKeeps(cfg, next, device, requests[1..], ids[1..], now);
      StepsCompose(b, next, Books(ReserveAll(cfg, b.ws, device, requests, ids, now).value, b.account));
    }
  }

  lemma NoStep(b: Books)
    ensures StorageStep(b, b)
  {
  }

  // ----- Upload batches -----

  ghost function FreshBytes(objects: map<string, SyncObject>, candidates: seq<Candidate>): int {
    if candidates == [] then 0 else
      (if candidates[0].id in objects && objects[candidates[0].id].state == Reserved then candidates[0].size else 0)
      + FreshBytes(objects, candidates[1..])
  }

  ghost predicate CandidateOk(cfg: Config, objects: map<string, SyncObject>, c: Candidate) {
    && 0 < c.size <= cfg.maxBlobBytes && IsDigest(c.sha)
    && c.id in objects
    && (objects[c.id].state == Reserved || (objects[c.id].state == Pending && objects[c.id].size == c.size))
  }

  ghost predicate CandidatesOk(cfg: Config, objects: map<string, SyncObject>, candidates: seq<Candidate>) {
    && (forall i :: 0 <= i < |candidates| ==> CandidateOk(cfg, objects, candidates[i]))
    && (forall i, j :: 0 <= i < j < |candidates| ==> candidates[i].id != candidates[j].id)
  }

  ghost predicate ScanOk(cfg: Config, objects: map<string, SyncObject>, scan: UploadScan) {
    && CandidatesOk(cfg, objects, scan.candidates)
    && (forall i :: 0 <= i < |scan.candidates| ==> scan.candidates[i].id in scan.seen)
    && scan.bytes == FreshBytes(objects, scan.candidates)
  }

  lemma {:induction false} FreshBytesAppend(objects: map<string, SyncObject>, candidates: seq<Candidate>, c: Candidate)
    ensures FreshBytes(objects, candidates + [c]) == FreshBytes(objects, candidates) + FreshBytes(objects, [c])
  {
    if candidates == [] {
      assert candidates + [c] == [c];
    } else {
      assert (candidates + [c])[1..] == candidates[1..] + [c];
      FreshBytesAppend(objects, candidates[1..], c);
    }
  }

  lemma {:induction false} FreshBytesFrame(objects: map<string, SyncObject>, id: string, o: SyncObject,
                                           candidates: seq<Candidate>)
    requires forall i :: 0 <= i < |candidates| ==> candidates[i].id != id
    ensures FreshBytes(objects[id := o], candidates) == FreshBytes(objects, candidates)
  {
    if candidates != [] {
      FreshBytesFrame(objects, id, o, candidates[1..]);
    }
  }

  lemma {:induction false} FreshBytesNonNegative(cfg: Config, objects: map<string, SyncObject>,
      candidates: seq<Candidate>)
    requires CandidatesOk(cfg, objects, candidates)
    ensures FreshBytes(objects, candidates) >= 0
  {
    if candidates != [] {
      FreshBytesNonNegative(cfg, objects, candidates[1..]);
    }
  }

  lemma ScanUploadKeeps(cfg: Config, ws: Workspace, device: Uuid, now: int, scan: UploadScan, r: UploadRequest)
    requires ScanOk(cfg, ws.objects, scan)
    requires ScanUpload(cfg, ws, device, now, scan, r).Success?
    ensures ScanOk(cfg, ws.objects, ScanUpload(cfg, ws, device, now, scan, r).value)
  {
    hide IsSpace, TrimSpace, IsDigest, IsHexOfDigestLength;
    NormalizeDigestIsProjection(r.sha);
    var c := Candidate(TrimSpace(r.objectId), NormalizeDigest(r.sha), r.size);
    FreshBytesAppend(ws.objects, scan.candidates, c);
    assert FreshBytes(ws.objects, [c]) == if ws.objects[c.id].state == Reserved then c.size else 0;
  }

  lemma {:induction false} ScanUploadsKeeps(cfg: Config, ws: Workspace, device: Uuid, now: int, scan: UploadScan,
                                            requests: seq<UploadRequest>)
    requires ScanOk(cfg, ws.objects, scan)
    requires ScanUploads(cfg, ws, device, now, scan, requests).Success?
    ensures ScanOk(cfg, ws.objects, ScanUploads(cfg, ws, device, now, scan, requests).value)
    decreases |requests|
  {
    hide ScanUpload, ScanOk;
    if requests != [] {
      ScanUploadKeeps(cfg, ws, device, now, scan, requests[0]);
      ScanUploadsKeeps(cfg, ws, device, now, ScanUpload(cfg, ws, device, now, scan, requests[0]).value, requests[1..]);
    }
  }

  /** Marking one candidate keeps the rest of the batch in order. */
  lemma MarkOnePending(cfg: Config, b: Books, candidates: seq<Candidate>, expiry: int)
    requires cfg.driver == S3Compatible && candidates != []
    requires CandidatesOk(cfg, b.ws.objects, candidates) && ObjectsOk(cfg, b.ws)
    ensures var c := candidates[0];
            var row := PendingRow(b.ws.objects[c.id], c, expiry);
            var objects := b.ws.objects[c.id := row];
            && CandidatesOk(cfg, objects, candidates[1..]) && ObjectsOk(cfg, b.ws.(objects := objects))
            && FreshBytes(objects, candidates[1..]) == FreshBytes(b.ws.objects, candidates[1..])
            && AvailableKept(b.ws.objects, objects)
  {
    hide IsDigest, FreshBytes;
    var c := candidates[0];
    FreshBytesFrame(b.ws.objects, c.id, PendingRow(b.ws.objects[c.id], c, expiry), candidates[1..]);
  }

  /** Marking a batch pending adds exactly the fresh bytes; re-presigned objects add nothing. */
  lemma {:induction false} MarkAllPendingEffect(cfg: Config, b: Books, candidates: seq<Candidate>, expiry: int,
                                                unsigned: set<string>)
    requires cfg.driver == S3Compatible
    requires CandidatesOk(cfg, b.ws.objects, candidates) && ObjectsOk(cfg, b.ws)
    requires MarkAllPending(b, candidates, expiry, unsigned).Success?
    ensures var c := MarkAllPending(b, candidates, expiry, unsigned).value;
            && c == Books(b.ws.(objects := c.ws.objects), b.account)
            && ObjectsOk(cfg, c.ws) && AvailableKept(b.ws.objects, c.ws.objects)
            && Recalculated(c.ws.objects)
               == Recalculated(b.ws.objects).(pendingBytes := Recalculated(b.ws.objects).pendingBytes
                                                              + FreshBytes(b.ws.objects, candidates))
    decreases |candidates|
  {
    hide IsDigest, Recalculated, ObjectOk;
    if candidates != [] {
      var c := candidates[0];
      var row := PendingRow(b.ws.objects[c.id], c, expiry);
      MarkOnePending(cfg, b, candidates, expiry);
      UpdateRowAll(b.ws.objects, c.id, row);
      MarkAllPendingEffect(cfg, PutObject(b, c.id, row), candidates[1..], expiry, unsigned);
    }
  }

  lemma CreateUploadsKeeps(cfg: Config, b: Books, device: Uuid, requests: seq<UploadRequest>, now: int,
                           unsigned: set<string>)
    requires BooksInv(cfg, b) && cfg.driver == S3Compatible
    requires CreateUploads(cfg, b, device, requests, now, unsigned).Success?
    ensures var c := CreateUploads(cfg, b, device, requests, now, unsigned).value.books;
            BooksInv(cfg, c) && StorageStep(b, c)
  {
    hide ScanUploads, MarkAllPending, Recalculated, CandidatesOk, ObjectOk;
    EmptyScanOk(cfg, b.ws.objects);
    ScanUploadsKeeps(cfg, b.ws, device, now, UploadScan({}, [], 0), requests);
    var scan := ScanUploads(cfg, b.ws, device, now, UploadScan({}, [], 0), requests).value;
    FreshBytesNonNegative(cfg, b.ws.objects, scan.candidates);
    var charged := if scan.bytes > 0 then AddPending(b, scan.bytes) else b;
    assert ObjectsOk(cfg, charged.ws);
    MarkAllPendingEffect(cfg, charged, scan.candidates, now + cfg.maxPendingAge, unsigned);
  }

  lemma EmptyScanOk(cfg: Config, objects: map<string, SyncObject>)
    ensures ScanOk(cfg, objects, UploadScan({}, [], 0))
  {
  }

  // ----- Completion -----

  /** A pending object that fails releases its bytes. */
  lemma FailKeeps(cfg: Config, b: Books, id: string, reason: ErrorReason)
    requires BooksInv(cfg, b) && id in b.ws.objects && b.ws.objects[id].state == Pending
    ensures var row := b.ws.objects[id];
            var c := PutObject(ReleasePending(b, row.size), id, row.(state := Failed, error := Some(reason)));
            row.size > 0 && BooksInv(cfg, c) && StorageStep(b, c)
  {
    hide Recalculated, AvailableKept, IsDigest;
    var row := b.ws.objects[id];
    var failed := row.(state := Failed, error := Some(reason));
    assert ObjectOk(cfg, row, BlobAt(b.ws.blobs, id));
    UpdateRowAll(b.ws.objects, id, failed);
    RowReplaced(cfg, ReleasePending(b, row.size), id, failed);
  }

  /** A pending object that becomes available moves its bytes from pending to stored. */
  lemma SucceedKeeps(cfg: Config, b: Books, id: string)
    requires BooksInv(cfg, b) && id in b.ws.objects && b.ws.objects[id].state == Pending && id in b.ws.blobs
    ensures var row := b.ws.objects[id];
            var c := CompleteBytes(PutObject(b, id, AvailableRow(row, row.sha, row.size)), row.size);
            BooksInv(cfg, c) && StorageStep(b, c)
  {
    hide Recalculated, AvailableKept, IsDigest;
    var row := b.ws.objects[id];
    var available := AvailableRow(row, row.sha, row.size);
    assert ObjectOk(cfg, row, BlobAt(b.ws.blobs, id));
    UpdateRowAll(b.ws.objects, id, available);
    RowReplaced(cfg, b, id, available);
  }

  lemma CompleteOneKeeps(cfg: Config, device: Uuid, now: int, unreachable: set<string>, c: Completion,
                         r: CompleteRequest)
    requires BooksInv(cfg, c.books)
    requires CompleteOne(device, now, unreachable, c, r).Success?
    ensures var d := CompleteOne(device, now, unreachable, c, r).value;
            BooksInv(cfg, d.books) && StorageStep(c.books, d.books)
  {
    hide TrimSpace, IsHexOfDigestLength, NormalizeDigest, BooksInv, StorageStep, AvailableRow;
    var id := TrimSpace(r.objectId);
    var row := c.books.ws.objects[id];
    if row.state == Available {
      NoStep(c.books);
    } else {
      match CompletionFault(row, NormalizeDigest(r.sha), r.size, now, FindBlob(c.books.ws, id))
      case Some(reason) => FailKeeps(cfg, c.books, id, reason);
      case None => SucceedKeeps(cfg, c.books, id);
    }
  }

  lemma {:induction false} CompleteAllKeeps(cfg: Config, device: Uuid, now: int, unreachable: set<string>,
                                            c: Completion, requests: seq<CompleteRequest>)
    requires BooksInv(cfg, c.books)
    requires CompleteAll(device, now, unreachable, c, requests).Success?
    ensures var d := CompleteAll(device, now, unreachable, c, requests).value;
            BooksInv(cfg, d.books) && StorageStep(c.books, d.books)
    decreases |requests|
  {
    hide CompleteOne, BooksInv;
    if requests != [] {
      CompleteOneKeeps(cfg, device, now, unreachable, c, requests[0]);
      CompleteAllKeeps(cfg, device, now, unreachable, CompleteOne(device, now, unreachable, c, requests[0]).value,
        requests[1..]);
    }
  }

  // ----- Direct upload -----

  lemma UploadDirectKeeps(cfg: Config, b: Books, id: string, sha: string, size: int, putFails: bool)
    requires BooksInv(cfg, b) && IsDigest(sha) && 0 < size <= cfg.maxBlobBytes
    requires cfg.driver == Local ==> b.account.pendingBytes == 0
    requires UploadDirect(cfg, b, id, sha, size, putFails).Success?
    ensures var c := UploadDirect(cfg, b, id, sha, size, putFails).value;
            BooksInv(cfg, c) && StorageStep(b, c)
  {
    hide Recalculated, IsDigest;
    var c := UploadDirect(cfg, b, id, sha, size, putFails).value;
    LocalHasNoPendingBytes(cfg, b.ws);
    UpdateRowAll(b.ws.objects, id, c.ws.objects[id]);
  }

  /** The auxiliary invariant behind the direct upload, which releases no pending bytes: with the local
      store nothing is ever pending. */
  lemma LocalHasNoPendingBytes(cfg: Config, ws: Workspace)
    requires LedgerInv(cfg, ws) && cfg.driver == Local
    ensures ws.usage.pendingBytes == 0
  {
    AllZero(Sizes(ws.objects, Pending));
  }

  lemma {:induction false} AllZero<K>(m: map<K, int>)
    requires forall k :: k in m ==> m[k] == 0
    ensures Sum(m) == 0
    decreases m
  {
    if m != map[] {
      var k :| k in m;
      SumPick(m, k);
      AllZero(m - {k});
    }
  }
}
