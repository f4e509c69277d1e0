/** What a successful upload or completion batch does to each object, whatever else is in the batch. */
module SyncOutcomes {
  import opened Wrappers
  import opened Text
  import opened SyncTypes
  import opened SyncStorage
  import opened SyncLedger

  // ----- Upload batches -----

  function CandidateOf(r: UploadRequest): Candidate {
    Candidate(TrimSpace(r.objectId), NormalizeDigest(r.sha), r.size)
  }

  lemma {:induction false} ScanListsRequests(cfg: Config, ws: Workspace, device: Uuid, now: int, scan: UploadScan,
                                             requests: seq<UploadRequest>)
    requires ScanUploads(cfg, ws, device, now, scan, requests).Success?
    ensures var after := ScanUploads(cfg, ws, device, now, scan, requests).value.candidates;
            && |after| == |scan.candidates| + |requests| && scan.candidates <= after
            && forall i :: 0 <= i < |requests| ==> after[|scan.candidates| + i] == CandidateOf(requests[i])
    decreases |requests|
  {
    hide TrimSpace, NormalizeDigest, IsHexOfDigestLength;
    if requests != [] {
      var next := ScanUpload(cfg, ws, device, now, scan, requests[0]).value;
      assert next.candidates == scan.candidates + [CandidateOf(requests[0])];
      ScanListsRequests(cfg, ws, device, now, next, requests[1..]);
      var after := ScanUploads(cfg, ws, device, now, scan, requests).value.candidates;
      forall i | 0 <= i < |requests| ensures after[|scan.candidates| + i] == CandidateOf(requests[i]) {
        if i > 0 {
          assert requests[i] == requests[1..][i - 1];
        }
      }
    }
  }

  lemma {:induction false} MarkAllPendingRows(cfg: Config, b: Books, candidates: seq<Candidate>, expiry: int,
                                              unsigned: set<string>, id: string)
    requires CandidatesOk(cfg, b.ws.objects, candidates)
    requires MarkAllPending(b, candidates, expiry, unsigned).Success?
    ensures var after := MarkAllPending(b, candidates, expiry, unsigned).value.ws.objects;
            && (forall i :: 0 <= i < |candidates| ==>
                  candidates[i].id in after
                    && after[candidates[i].id] == PendingRow(b.ws.objects[candidates[i].id], candidates[i], expiry))
            && ((forall i :: 0 <= i < |candidates| ==> candidates[i].id != id) ==>
                  (id in after <==> id in b.ws.objects) && (id in after ==> after[id] == b.ws.objects[id]))
    decreases |candidates|
  {
    hide IsDigest;
    if candidates != [] {
      var c := candidates[0];
      var next := PutObject(b, c.id, PendingRow(b.ws.objects[c.id], c, expiry));
      MarkAllPendingRows(cfg, next, candidates[1..], expiry, unsigned, id);
      MarkAllPendingRows(cfg, next, candidates[1..], expiry, unsigned, c.id);
      var after := MarkAllPending(b, candidates, expiry, unsigned).value.ws.objects;
      forall i | 0 <= i < |candidates|
        ensures candidates[i].id in after
          && after[candidates[i].id] == PendingRow(b.ws.objects[candidates[i].id], candidates[i], expiry)
      {
        if i > 0 {
          assert candidates[i] == candidates[1..][i - 1];
        }
      }
    }
  }

  /** The deadline has not passed. */
  predicate InTime(row: SyncObject, now: int) {
    match row.expiresAt
    case None => true
    case Some(deadline) => now < deadline
  }

  predicate SameDescriptor(row: SyncObject, sha: string, size: int) {
    row.sha == NormalizeDigest(sha) && row.size == size
  }

  /** A request that can be granted: for an object of the device, fresh or presigned before with this descriptor and
      still in time. */
  predicate Uploadable(cfg: Config, objects: map<string, SyncObject>, device: Uuid, now: int, r: UploadRequest) {
    var id := TrimSpace(r.objectId);
    && id != "" && r.kind.Some? && IsHexOfDigestLength(NormalizeDigest(r.sha)) && 0 < r.size <= cfg.maxBlobBytes
    && id in objects && objects[id].owner == device
    && objects[id].kind == r.kind.value && objects[id].provider == cfg.driver
    && match objects[id].state
       case Reserved => true
       case Pending => SameDescriptor(objects[id], r.sha, r.size) && InTime(objects[id], now)
       case _ => false
  }

  /** What each error says about a request; `seen` are the ids requested before it. */
  predicate UploadRefused(cfg: Config, objects: map<string, SyncObject>, seen: set<string>, device: Uuid, now: int,
                          r: UploadRequest, e: SyncError)
  {
    var id := TrimSpace(r.objectId);
    var named := id != "" && id !in seen && r.kind.Some? && IsHexOfDigestLength(NormalizeDigest(r.sha));
    var sized := named && 0 < r.size <= cfg.maxBlobBytes;
    var owned := sized && id in objects && objects[id].state != Deleted && objects[id].owner == device;
    var typed := owned && objects[id].kind == r.kind.value && objects[id].provider == cfg.driver;
    match e
    case InvalidArgument => !named
    case Quota(SingleBlob, max, current, requested) =>
      named && r.size > cfg.maxBlobBytes && r.size > 0 && max == cfg.maxBlobBytes && current == 0 && requested == r.size
    case PermissionDenied => sized && !owned
    case ObjectMetadataMismatch =>
      || (named && r.size <= 0) || (owned && !typed)
      || (typed && objects[id].state == Pending && !SameDescriptor(objects[id], r.sha, r.size))
    case ObjectNotAvailable =>
      && typed && objects[id].state != Reserved
      && (objects[id].state == Pending ==> SameDescriptor(objects[id], r.sha, r.size) && !InTime(objects[id], now))
    case _ => false
  }

  lemma ScanUploadAnswers(cfg: Config, ws: Workspace, device: Uuid, now: int, scan: UploadScan, r: UploadRequest,
                          e: SyncError)
    ensures ScanUpload(cfg, ws, device, now, scan, r).Success? <==>
      Uploadable(cfg, ws.objects, device, now, r) && TrimSpace(r.objectId) !in scan.seen
    ensures ScanUpload(cfg, ws, device, now, scan, r) == Failure(e) <==>
      UploadRefused(cfg, ws.objects, scan.seen, device, now, r, e)
  {
    hide TrimSpace, NormalizeDigest, IsHexOfDigestLength;
  }

  function UploadIds(requests: seq<UploadRequest>): set<string> {
    set r | r in requests :: TrimSpace(r.objectId)
  }

  /** Request `i` is the first that cannot be granted, for this reason. */
  predicate UploadRefusedAt(cfg: Config, objects: map<string, SyncObject>, seen: set<string>, device: Uuid, now: int,
                            requests: seq<UploadRequest>, i: nat, e: SyncError)
  {
    && i < |requests|
    && (forall j :: 0 <= j < i ==> Uploadable(cfg, objects, device, now, requests[j]))
    && UploadRefused(cfg, objects, seen + UploadIds(requests[..i]), device, now, requests[i], e)
  }

  predicate AllUploadable(cfg: Config, objects: map<string, SyncObject>, device: Uuid, now: int,
                          requests: seq<UploadRequest>)
  {
    && (forall i :: 0 <= i < |requests| ==> Uploadable(cfg, objects, device, now, requests[i]))
    && (forall i, j :: 0 <= i < j < |requests| ==> TrimSpace(requests[i].objectId) != TrimSpace(requests[j].objectId))
  }

  predicate UploadsAvoid(requests: seq<UploadRequest>, seen: set<string>) {
    forall i :: 0 <= i < |requests| ==> TrimSpace(requests[i].objectId) !in seen
  }

  lemma UploadableHead(cfg: Config, objects: map<string, SyncObject>, device: Uuid, now: int,
                       requests: seq<UploadRequest>, seen: set<string>)
    requires requests != []
    ensures var id := TrimSpace(requests[0].objectId);
            AllUploadable(cfg, objects, device, now, requests) && UploadsAvoid(requests, seen) <==>
              && Uploadable(cfg, objects, device, now, requests[0]) && id !in seen
              && AllUploadable(cfg, objects, device, now, requests[1..]) && UploadsAvoid(requests[1..], seen + {id})
  {
    hide TrimSpace, Uploadable;
    assert forall i :: 0 < i < |requests| ==> requests[i] == requests[1..][i - 1];
    assert forall i :: 0 <= i < |requests| - 1 ==> requests[1..][i] == requests[i + 1];
  }

  lemma {:induction false} ScanUploadsSucceeds(cfg: Config, ws: Workspace, device: Uuid, now: int, scan: UploadScan,
                                               requests: seq<UploadRequest>)
    ensures ScanUploads(cfg, ws, device, now, scan, requests).Success? <==>
      AllUploadable(cfg, ws.objects, device, now, requests) && UploadsAvoid(requests, scan.seen)
    decreases |requests|
  {
    hide ScanUpload, TrimSpace, Uploadable, AllUploadable, UploadsAvoid;
    if requests == [] {
      NoUploads(cfg, ws.objects, device, now, scan.seen);
    } else {
      var head := ScanUpload(cfg, ws, device, now, scan, requests[0]);
      ScanUploadAnswers(cfg, ws, device, now, scan, requests[0], NoRows);
      UploadableHead(cfg, ws.objects, device, now, requests, scan.seen);
      if head.Success? {
        ScanUploadSees(cfg, ws, device, now, scan, requests[0]);
        ScanUploadsSucceeds(cfg, ws, device, now, head.value, requests[1..]);
      }
    }
  }

  lemma NoUploads(cfg: Config, objects: map<string, SyncObject>, device: Uuid, now: int, seen: set<string>)
    ensures AllUploadable(cfg, objects, device, now, []) && UploadsAvoid([], seen)
  {
  }

  lemma {:induction false} ScanUploadsFails(cfg: Config, ws: Workspace, device: Uuid, now: int, scan: UploadScan,
                                            requests: seq<UploadRequest>) returns (i: nat)
    requires ScanUploads(cfg, ws, device, now, scan, requests).Failure?
    ensures UploadRefusedAt(cfg, ws.objects, scan.seen, device, now, requests, i,
                            ScanUploads(cfg, ws, device, now, scan, requests).error)
    decreases |requests|
  {
    hide ScanUpload, TrimSpace, Uploadable, UploadRefused, UploadRefusedAt;
    var head := ScanUpload(cfg, ws, device, now, scan, requests[0]);
    i := 0;
    if head.Failure? {
      ScanUploadAnswers(cfg, ws, device, now, scan, requests[0], head.error);
      UploadRefusedFirst(cfg, ws.objects, scan.seen, device, now, requests, head.error);
    } else {
      ScanUploadAnswers(cfg, ws, device, now, scan, requests[0], NoRows);
      ScanUploadSees(cfg, ws, device, now, scan, requests[0]);
      i := ScanUploadsFails(cfg, ws, device, now, head.value, requests[1..]);
      UploadRefusedLater(cfg, ws.objects, scan.seen, device, now, requests, i,
                         ScanUploads(cfg, ws, device, now, head.value, requests[1..]).error);
      i := i + 1;
    }
  }

  lemma UploadRefusedFirst(cfg: Config, objects: map<string, SyncObject>, seen: set<string>, device: Uuid, now: int,
                           requests: seq<UploadRequest>, e: SyncError)
    requires requests != [] && UploadRefused(cfg, objects, seen, device, now, requests[0], e)
    ensures UploadRefusedAt(cfg, objects, seen, device, now, requests, 0, e)
  {
    hide UploadRefused;
    assert UploadIds(requests[..0]) == {} && seen + {} == seen;
  }

  lemma UploadRefusedLater(cfg: Config, objects: map<string, SyncObject>, seen: set<string>, device: Uuid, now: int,
                           requests: seq<UploadRequest>, i: nat, e: SyncError)
    requires requests != [] && Uploadable(cfg, objects, device, now, requests[0])
    requires UploadRefusedAt(cfg, objects, seen + {TrimSpace(requests[0].objectId)}, device, now, requests[1..], i, e)
    ensures UploadRefusedAt(cfg, objects, seen, device, now, requests, i + 1, e)
  {
    hide TrimSpace, Uploadable, UploadRefused, UploadIds;
    UploadIdsGrow(requests, i, seen);
    assert forall j :: 0 < j <= i ==> requests[j] == requests[1..][j - 1];
  }

  lemma ScanUploadSees(cfg: Config, ws: Workspace, device: Uuid, now: int, scan: UploadScan, r: UploadRequest)
    requires ScanUpload(cfg, ws, device, now, scan, r).Success?
    ensures ScanUpload(cfg, ws, device, now, scan, r).value.seen == scan.seen + {TrimSpace(r.objectId)}
  {
    hide TrimSpace, NormalizeDigest, IsHexOfDigestLength;
  }

  lemma UploadIdsGrow(requests: seq<UploadRequest>, i: nat, seen: set<string>)
    requires i < |requests|
    ensures seen + {TrimSpace(requests[0].objectId)} + UploadIds(requests[1..][..i])
         == seen + UploadIds(requests[..i + 1])
  {
    hide TrimSpace;
    assert requests[..i + 1] == [requests[0]] + requests[1..][..i];
  }

  predicate WithinQuota(cfg: Config, b: Books, more: int) {
    && b.ws.usage.pendingBytes + more <= cfg.maxPendingBytes
    && b.account.storageBytes + b.account.pendingBytes + more <= cfg.maxUserBytes
    && b.ws.usage.storageBytes + b.ws.usage.pendingBytes + more <= cfg.maxWorkspaceBytes
  }

  /** What each quota error says: the first ceiling that the bytes would break. */
  predicate QuotaExceeded(cfg: Config, b: Books, more: int, e: SyncError) {
    var pending := b.ws.usage.pendingBytes;
    var user, workspace := b.account.storageBytes + b.account.pendingBytes, b.ws.usage.storageBytes + pending;
    match e
    case Quota(PendingUpload, max, current, requested) =>
      max == cfg.maxPendingBytes < pending + more && current == pending && requested == more
    case Quota(UserTotalStorage, max, current, requested) =>
      pending + more <= cfg.maxPendingBytes && max == cfg.maxUserBytes < user + more && current == user
      && requested == more
    case Quota(WorkspaceStorage, max, current, requested) =>
      && pending + more <= cfg.maxPendingBytes && user + more <= cfg.maxUserBytes
      && max == cfg.maxWorkspaceBytes < workspace + more && current == workspace && requested == more
    case _ => false
  }

  function Requested(requests: seq<UploadRequest>): (r: seq<Candidate>)
    ensures |r| == |requests| && forall i :: 0 <= i < |r| ==> r[i] == CandidateOf(requests[i])
  {
    seq(|requests|, i requires 0 <= i < |requests| => CandidateOf(requests[i]))
  }

  /** What a scan that succeeds hands to the second loop. */
  lemma ScanResult(cfg: Config, ws: Workspace, device: Uuid, now: int, requests: seq<UploadRequest>)
    requires ScanUploads(cfg, ws, device, now, UploadScan({}, [], 0), requests).Success?
    ensures var scan := ScanUploads(cfg, ws, device, now, UploadScan({}, [], 0), requests).value;
            && scan.candidates == Requested(requests) && CandidatesOk(cfg, ws.objects, scan.candidates)
            && scan.bytes == FreshBytes(ws.objects, scan.candidates) >= 0
  {
    hide ScanUploads, CandidatesOk, FreshBytes, TrimSpace, NormalizeDigest, IsDigest, ObjectOk;
    var empty := UploadScan({}, [], 0);
    EmptyScanOk(cfg, ws.objects);
    ScanUploadsKeeps(cfg, ws, device, now, empty, requests);
    ScanListsRequests(cfg, ws, device, now, empty, requests);
    var scan := ScanUploads(cfg, ws, device, now, empty, requests).value;
    assert |empty.candidates| == 0;
    forall i | 0 <= i < |requests| ensures scan.candidates[i] == CandidateOf(requests[i]) {
      assert scan.candidates[|empty.candidates| + i] == CandidateOf(requests[i]);
    }
    assert scan.candidates == Requested(requests);
    FreshBytesNonNegative(cfg, ws.objects, scan.candidates);
  }

  lemma {:induction false} MarkAllPendingAnswers(cfg: Config, b: Books, candidates: seq<Candidate>, expiry: int,
                                                 unsigned: set<string>)
    requires CandidatesOk(cfg, b.ws.objects, candidates)
    ensures MarkAllPending(b, candidates, expiry, unsigned).Success? <==>
      forall i :: 0 <= i < |candidates| ==> candidates[i].id !in unsigned
    ensures MarkAllPending(b, candidates, expiry, unsigned).Failure? ==>
      MarkAllPending(b, candidates, expiry, unsigned) == Failure(StoreError)
    ensures MarkAllPending(b, candidates, expiry, unsigned).Success? ==>
      MarkAllPending(b, candidates, expiry, unsigned).value.ws.blobs == b.ws.blobs
    decreases |candidates|
  {
    hide IsDigest;
    if candidates != [] && candidates[0].id !in unsigned {
      var c := candidates[0];
      MarkAllPendingAnswers(cfg, PutObject(b, c.id, PendingRow(b.ws.objects[c.id], c, expiry)), candidates[1..], expiry,
                            unsigned);
      assert forall i :: 0 < i < |candidates| ==> candidates[i] == candidates[1..][i - 1];
    }
  }

  /** A batch is granted exactly when each request can be, no object is requested twice, the fresh bytes are within
      all three quotas and the store signs every object; otherwise the first of these that fails is the error. */
  lemma UploadBatchAnswers(cfg: Config, b: Books, device: Uuid, requests: seq<UploadRequest>, now: int,
                           unsigned: set<string>)
    ensures var r := CreateUploads(cfg, b, device, requests, now, unsigned);
            var more := FreshBytes(b.ws.objects, Requested(requests));
            var granted := AllUploadable(cfg, b.ws.objects, device, now, requests);
            var signed := UploadIds(requests) !! unsigned;
            && (r.Success? <==> granted && WithinQuota(cfg, b, more) && signed)
            && (r.Success? ==> r.value.candidates == Requested(requests))
            && (r.Failure? && !granted ==>
                  exists i: nat :: UploadRefusedAt(cfg, b.ws.objects, {}, device, now, requests, i, r.error))
            && (r.Failure? && granted && !WithinQuota(cfg, b, more) ==> QuotaExceeded(cfg, b, more, r.error))
            && (r.Failure? && granted && WithinQuota(cfg, b, more) ==> r.error == StoreError)
  {
    hide ScanUploads, MarkAllPending, TrimSpace, AllUploadable, UploadRefusedAt, FreshBytes, CandidatesOk, UploadIds;
    var scan := ScanUploads(cfg, b.ws, device, now, UploadScan({}, [], 0), requests);
    ScanUploadsSucceeds(cfg, b.ws, device, now, UploadScan({}, [], 0), requests);
    if scan.Failure? {
      var i := ScanUploadsFails(cfg, b.ws, device, now, UploadScan({}, [], 0), requests);
    } else {
      ScanResult(cfg, b.ws, device, now, requests);
      var charged := if scan.value.bytes > 0 then AddPending(b, scan.value.bytes) else b;
      MarkAllPendingAnswers(cfg, charged, scan.value.candidates, now + cfg.maxPendingAge, unsigned);
      IdsOfRequests(requests, unsigned);
    }
  }

  lemma IdsOfRequests(requests: seq<UploadRequest>, ids: set<string>)
    ensures UploadIds(requests) !! ids <==> forall i :: 0 <= i < |requests| ==> CandidateOf(requests[i]).id !in ids
  {
    hide TrimSpace;
    forall i | 0 <= i < |requests| ensures CandidateOf(requests[i]).id in UploadIds(requests) {
      assert requests[i] in requests;
    }
  }

  /** After a successful upload batch every requested object, fresh or presigned before, is pending under
      the requested descriptor with a new deadline, and every other object and every blob is as it was. */
  lemma UploadBatchOutcome(cfg: Config, b: Books, device: Uuid, requests: seq<UploadRequest>, now: int,
                           unsigned: set<string>, id: string)
    requires CreateUploads(cfg, b, device, requests, now, unsigned).Success?
    ensures var after := CreateUploads(cfg, b, device, requests, now, unsigned).value.books.ws;
            && after.blobs == b.ws.blobs
            && (forall i :: 0 <= i < |requests| ==>
                  var r, x := requests[i], TrimSpace(requests[i].objectId);
                  && x in b.ws.objects && x in after.objects && r.kind.Some?
                  && after.objects[x] == SyncObject(r.kind.value, cfg.driver, NormalizeDigest(r.sha), r.size, Pending,
                                                    None, device, Some(now + cfg.maxPendingAge)))
            && ((forall i :: 0 <= i < |requests| ==> TrimSpace(requests[i].objectId) != id) ==>
                  (id in after.objects <==> id in b.ws.objects)
                  && (id in after.objects ==> after.objects[id] == b.ws.objects[id]))
  {
    hide ScanUploads, MarkAllPending, TrimSpace, NormalizeDigest, IsHexOfDigestLength, FreshBytes, CandidatesOk;
    ScanUploadsSucceeds(cfg, b.ws, device, now, UploadScan({}, [], 0), requests);
    ScanResult(cfg, b.ws, device, now, requests);
    var scan := ScanUploads(cfg, b.ws, device, now, UploadScan({}, [], 0), requests).value;
    var charged := if scan.bytes > 0 then AddPending(b, scan.bytes) else b;
    MarkAllPendingRows(cfg, charged, scan.candidates, now + cfg.maxPendingAge, unsigned, id);
    MarkAllPendingAnswers(cfg, charged, scan.candidates, now + cfg.maxPendingAge, unsigned);
    forall i | 0 <= i < |requests| ensures Uploadable(cfg, b.ws.objects, device, now, requests[i]) {
    }
  }

  // ----- Completion batches -----

  /** The upload is sound: in time, as announced, and the store holds what was announced. */
  predicate Sound(row: SyncObject, r: CompleteRequest, now: int, found: Option<Blob>) {
    && InTime(row, now)
    && row.size == r.size && row.sha == NormalizeDigest(r.sha)
    && found.Some? && found.value.size == row.size && NormalizeDigest(found.value.sha) == row.sha
  }

  /** What each reason for a failed upload means; no two of them fit the same upload. */
  predicate Explains(reason: ErrorReason, row: SyncObject, r: CompleteRequest, now: int, found: Option<Blob>) {
    var inTime, size, sha := InTime(row, now), row.size == r.size, row.sha == NormalizeDigest(r.sha);
    match reason
    case UploadExpired => !inTime
    case SizeMismatch => inTime && (!size || (sha && found.Some? && found.value.size != row.size))
    case ChecksumMismatch =>
      && inTime && size
      && (!sha || (found.Some? && found.value.size == row.size && NormalizeDigest(found.value.sha) != row.sha))
    case StorageProviderError => inTime && size && sha && found.None?
  }

  /** Exactly the unsound uploads have a reason, and only one. */
  lemma OneReason(row: SyncObject, r: CompleteRequest, now: int, found: Option<Blob>, a: ErrorReason, b: ErrorReason)
    ensures Sound(row, r, now, found) ==> !Explains(a, row, r, now, found)
    ensures !Sound(row, r, now, found) ==> exists e :: Explains(e, row, r, now, found)
    ensures Explains(a, row, r, now, found) && Explains(b, row, r, now, found) ==> a == b
  {
    hide NormalizeDigest, CompletionFault;
    FaultExplains(row, r, now, found);
  }

  predicate Same(before: map<string, SyncObject>, after: map<string, SyncObject>, id: string) {
    (id in after <==> id in before) && (id in after ==> after[id] == before[id])
  }

  /** An available object stays; a pending one becomes available with its row's descriptor exactly when the upload
      is sound, and otherwise fails for the reason that explains it. Nothing else can be completed. */
  predicate Settled(before: SyncObject, after: SyncObject, r: CompleteRequest, now: int, found: Option<Blob>) {
    match before.state
    case Available => after == before && before.sha == NormalizeDigest(r.sha) && before.size == r.size
    case Pending =>
      if Sound(before, r, now, found) then after == before.(state := Available, expiresAt := None, error := None)
      else
        && after.error.Some? && Explains(after.error.value, before, r, now, found)
        && after == before.(state := Failed, error := after.error)
    case _ => false
  }

  /** What is reported of a settled object. */
  function Reported(id: string, row: SyncObject): UploadOutcome {
    UploadOutcome(id, row, if row.state == Failed then row.error else None)
  }

  lemma FaultExplains(row: SyncObject, r: CompleteRequest, now: int, found: Option<Blob>)
    ensures var fault := CompletionFault(row, NormalizeDigest(r.sha), r.size, now, found);
            && (fault.None? <==> Sound(row, r, now, found))
            && (fault.Some? ==> Explains(fault.value, row, r, now, found))
  {
    hide NormalizeDigest;
  }

  lemma CompleteOneOutcome(device: Uuid, now: int, unreachable: set<string>, c: Completion, r: CompleteRequest,
                           other: string)
    requires CompleteOne(device, now, unreachable, c, r).Success?
    ensures var d := CompleteOne(device, now, unreachable, c, r).value;
            var id := TrimSpace(r.objectId);
            && id !in c.seen && d.seen == c.seen + {id}
            && id in c.books.ws.objects && id in d.books.ws.objects
            && d.books.ws.blobs == c.books.ws.blobs
            && c.books.ws.objects[id].owner == device
            && Settled(c.books.ws.objects[id], d.books.ws.objects[id], r, now, FindBlob(c.books.ws, id))
            && d.results == c.results + [Reported(id, d.books.ws.objects[id])]
            && (other != id ==> Same(c.books.ws.objects, d.books.ws.objects, other))
  {
    hide TrimSpace, NormalizeDigest, IsHexOfDigestLength, CompletionFault, Sound, Explains;
    var id := TrimSpace(r.objectId);
    FaultExplains(c.books.ws.objects[id], r, now, FindBlob(c.books.ws, id));
  }

  /** A completion batch settles each requested object by its own request alone and touches no other. */
  lemma {:induction false} CompletionBatchOutcome(device: Uuid, now: int, unreachable: set<string>, c: Completion,
                                                  requests: seq<CompleteRequest>, id: string)
    requires CompleteAll(device, now, unreachable, c, requests).Success?
    ensures var d := CompleteAll(device, now, unreachable, c, requests).value;
            && d.books.ws.blobs == c.books.ws.blobs
            && (id in c.seen ==> Same(c.books.ws.objects, d.books.ws.objects, id))
            && (id in c.seen ==> forall i :: 0 <= i < |requests| ==> TrimSpace(requests[i].objectId) != id)
            && ((forall i :: 0 <= i < |requests| ==> TrimSpace(requests[i].objectId) != id) ==>
                  Same(c.books.ws.objects, d.books.ws.objects, id))
            && (forall i :: 0 <= i < |requests| && TrimSpace(requests[i].objectId) == id ==>
                  && id in c.books.ws.objects && id in d.books.ws.objects
                  && Settled(c.books.ws.objects[id], d.books.ws.objects[id], requests[i], now,
                    FindBlob(c.books.ws, id)))
    decreases |requests|
  {
    hide CompleteOne, TrimSpace, Settled;
    if requests != [] {
      var next := CompleteOne(device, now, unreachable, c, requests[0]).value;
      CompleteOneOutcome(device, now, unreachable, c, requests[0], id);
      CompletionBatchOutcome(device, now, unreachable, next, requests[1..], id);
      forall i | 0 < i < |requests| ensures requests[i] == requests[1..][i - 1] {
      }
      assert forall i :: 0 <= i < |requests| - 1 ==> requests[1..][i] == requests[i + 1];
    }
  }

  /** A completion batch reports, request by request, the row each object has at its end. */
  lemma {:induction false} CompletionBatchReport(device: Uuid, now: int, unreachable: set<string>, c: Completion,
                                                 requests: seq<CompleteRequest>)
    requires CompleteAll(device, now, unreachable, c, requests).Success?
    ensures var d := CompleteAll(device, now, unreachable, c, requests).value;
            && |d.results| == |c.results| + |requests| && c.results <= d.results
            && forall i :: 0 <= i < |requests| ==>
                 var id := TrimSpace(requests[i].objectId);
                 id in d.books.ws.objects && d.results[|c.results| + i] == Reported(id, d.books.ws.objects[id])
    decreases |requests|
  {
    hide CompleteOne, TrimSpace, Settled;
    if requests != [] {
      var id := TrimSpace(requests[0].objectId);
      var next := CompleteOne(device, now, unreachable, c, requests[0]).value;
      CompleteOneOutcome(device, now, unreachable, c, requests[0], id);
      CompletionBatchOutcome(device, now, unreachable, next, requests[1..], id);
      CompletionBatchReport(device, now, unreachable, next, requests[1..]);
      var d := CompleteAll(device, now, unreachable, c, requests).value;
      forall i | 0 <= i < |requests|
        ensures var id := TrimSpace(requests[i].objectId);
                id in d.books.ws.objects && d.results[|c.results| + i] == Reported(id, d.books.ws.objects[id])
      {
        if i > 0 {
          assert requests[i] == requests[1..][i - 1];
        }
      }
    }
  }

  /** A request that is settled: for a pending object of the device, or an available one that is as described. */
  predicate Completable(objects: map<string, SyncObject>, device: Uuid, now: int, unreachable: set<string>,
                        r: CompleteRequest)
  {
    var id := TrimSpace(r.objectId);
    && id != "" && IsHexOfDigestLength(NormalizeDigest(r.sha)) && r.size > 0
    && id in objects && objects[id].owner == device
    && match objects[id].state
       case Available => SameDescriptor(objects[id], r.sha, r.size)
       case Pending => InTime(objects[id], now) && SameDescriptor(objects[id], r.sha, r.size) ==> id !in unreachable
       case _ => false
  }

  /** What each error says about a completion; `seen` are the ids completed before it. */
  predicate CompletionRefused(objects: map<string, SyncObject>, seen: set<string>, device: Uuid, now: int,
                              unreachable: set<string>, r: CompleteRequest, e: SyncError)
  {
    var id := TrimSpace(r.objectId);
    var named := id != "" && id !in seen && IsHexOfDigestLength(NormalizeDigest(r.sha));
    var owned := named && r.size > 0 && id in objects && objects[id].state != Deleted && objects[id].owner == device;
    match e
    case InvalidArgument => !named
    case PermissionDenied => named && r.size > 0 && !owned
    case ObjectMetadataMismatch =>
      (named && r.size <= 0) || (owned && objects[id].state == Available && !SameDescriptor(objects[id], r.sha, r.size))
    case ObjectNotAvailable => owned && objects[id].state in {Reserved, Failed}
    case StoreError =>
      && owned && objects[id].state == Pending && InTime(objects[id], now)
      && SameDescriptor(objects[id], r.sha, r.size) && id in unreachable
    case _ => false
  }

  lemma CompleteOneAnswers(device: Uuid, now: int, unreachable: set<string>, c: Completion, r: CompleteRequest,
                           e: SyncError)
    ensures CompleteOne(device, now, unreachable, c, r).Success? <==>
      Completable(c.books.ws.objects, device, now, unreachable, r) && TrimSpace(r.objectId) !in c.seen
    ensures CompleteOne(device, now, unreachable, c, r) == Failure(e) <==>
      CompletionRefused(c.books.ws.objects, c.seen, device, now, unreachable, r, e)
  {
    hide TrimSpace, NormalizeDigest, IsHexOfDigestLength, CompletionFault;
  }

  function CompletionIds(requests: seq<CompleteRequest>): set<string> {
    set r | r in requests :: TrimSpace(r.objectId)
  }

  /** Request `i` is the first that cannot be settled, for this reason. */
  predicate CompletionRefusedAt(objects: map<string, SyncObject>, seen: set<string>, device: Uuid, now: int,
                                unreachable: set<string>, requests: seq<CompleteRequest>, i: nat, e: SyncError)
  {
    && i < |requests|
    && (forall j :: 0 <= j < i ==>
          Completable(objects, device, now, unreachable, requests[j]) && TrimSpace(requests[j].objectId) !in seen)
    && CompletionRefused(objects, seen + CompletionIds(requests[..i]), device, now, unreachable, requests[i], e)
  }

  predicate AllCompletable(objects: map<string, SyncObject>, device: Uuid, now: int, unreachable: set<string>,
                           requests: seq<CompleteRequest>)
  {
    && (forall i :: 0 <= i < |requests| ==> Completable(objects, device, now, unreachable, requests[i]))
    && (forall i, j :: 0 <= i < j < |requests| ==> TrimSpace(requests[i].objectId) != TrimSpace(requests[j].objectId))
  }

  /** One completion leaves what the others ask about as it was. */
  lemma OthersCompletable(before: map<string, SyncObject>, after: map<string, SyncObject>, seen: set<string>,
                          device: Uuid, now: int, unreachable: set<string>, r: CompleteRequest, e: SyncError)
    requires TrimSpace(r.objectId) !in seen ==> Same(before, after, TrimSpace(r.objectId))
    ensures CompletionRefused(after, seen, device, now, unreachable, r, e) <==>
      CompletionRefused(before, seen, device, now, unreachable, r, e)
    ensures TrimSpace(r.objectId) !in seen ==>
      (Completable(after, device, now, unreachable, r) <==> Completable(before, device, now, unreachable, r))
  {
    hide TrimSpace, NormalizeDigest, IsHexOfDigestLength;
  }

  predicate CompletionsAvoid(requests: seq<CompleteRequest>, seen: set<string>) {
    forall i :: 0 <= i < |requests| ==> TrimSpace(requests[i].objectId) !in seen
  }

  lemma CompletableHead(objects: map<string, SyncObject>, device: Uuid, now: int, unreachable: set<string>,
                        requests: seq<CompleteRequest>, seen: set<string>)
    requires requests != []
    ensures var id := TrimSpace(requests[0].objectId);
            AllCompletable(objects, device, now, unreachable, requests) && CompletionsAvoid(requests, seen) <==>
              && Completable(objects, device, now, unreachable, requests[0]) && id !in seen
              && AllCompletable(objects, device, now, unreachable, requests[1..])
              && CompletionsAvoid(requests[1..], seen + {id})
  {
    hide TrimSpace, Completable;
    assert forall i :: 0 < i < |requests| ==> requests[i] == requests[1..][i - 1];
    assert forall i :: 0 <= i < |requests| - 1 ==> requests[1..][i] == requests[i + 1];
  }

  /** A settled request leaves what the rest asks about as it was. */
  lemma RestCompletable(device: Uuid, now: int, unreachable: set<string>, c: Completion, done: CompleteRequest,
                        rest: seq<CompleteRequest>)
    requires CompleteOne(device, now, unreachable, c, done).Success?
    requires CompletionsAvoid(rest, c.seen + {TrimSpace(done.objectId)})
    ensures var after := CompleteOne(device, now, unreachable, c, done).value.books.ws.objects;
            AllCompletable(after, device, now, unreachable, rest) <==>
            AllCompletable(c.books.ws.objects, device, now, unreachable, rest)
  {
    hide CompleteOne, TrimSpace, Completable;
    forall i | 0 <= i < |rest|
      ensures Completable(CompleteOne(device, now, unreachable, c, done).value.books.ws.objects, device, now,
                          unreachable, rest[i])
         <==> Completable(c.books.ws.objects, device, now, unreachable, rest[i])
    {
      OneSettled(device, now, unreachable, c, done, rest[i], c.seen + {TrimSpace(done.objectId)}, NoRows);
    }
  }

  lemma {:induction false} CompletionsSucceed(device: Uuid, now: int, unreachable: set<string>, c: Completion,
                                              requests: seq<CompleteRequest>)
    ensures CompleteAll(device, now, unreachable, c, requests).Success? <==>
      && AllCompletable(c.books.ws.objects, device, now, unreachable, requests)
      && CompletionsAvoid(requests, c.seen)
    decreases |requests|
  {
    hide CompleteOne, TrimSpace, Completable, AllCompletable, CompletionsAvoid, Settled;
    if requests == [] {
      NoCompletions(c.books.ws.objects, device, now, unreachable, c.seen);
    } else {
      var head := CompleteOne(device, now, unreachable, c, requests[0]);
      CompleteOneAnswers(device, now, unreachable, c, requests[0], NoRows);
      CompletableHead(c.books.ws.objects, device, now, unreachable, requests, c.seen);
      if head.Success? {
        CompleteOneOutcome(device, now, unreachable, c, requests[0], "");
        CompletionsSucceed(device, now, unreachable, head.value, requests[1..]);
        if CompletionsAvoid(requests[1..], c.seen + {TrimSpace(requests[0].objectId)}) {
          RestCompletable(device, now, unreachable, c, requests[0], requests[1..]);
        }
      }
    }
  }

  lemma NoCompletions(objects: map<string, SyncObject>, device: Uuid, now: int, unreachable: set<string>,
                      seen: set<string>)
    ensures AllCompletable(objects, device, now, unreachable, []) && CompletionsAvoid([], seen)
  {
  }

  lemma {:induction false} CompletionsFail(device: Uuid, now: int, unreachable: set<string>, c: Completion,
                                           requests: seq<CompleteRequest>) returns (i: nat)
    requires CompleteAll(device, now, unreachable, c, requests).Failure?
    ensures CompletionRefusedAt(c.books.ws.objects, c.seen, device, now, unreachable, requests, i,
                                CompleteAll(device, now, unreachable, c, requests).error)
    decreases |requests|
  {
    hide CompleteOne, TrimSpace, Completable, CompletionRefused, CompletionRefusedAt;
    var head := CompleteOne(device, now, unreachable, c, requests[0]);
    i := 0;
    if head.Failure? {
      CompleteOneAnswers(device, now, unreachable, c, requests[0], head.error);
      CompletionRefusedFirst(c.books.ws.objects, c.seen, device, now, unreachable, requests, head.error);
    } else {
      i := CompletionsFail(device, now, unreachable, head.value, requests[1..]);
      CompletionRefusedLater(device, now, unreachable, c, requests, i,
                             CompleteAll(device, now, unreachable, head.value, requests[1..]).error);
      i := i + 1;
    }
  }

  lemma CompletionRefusedFirst(objects: map<string, SyncObject>, seen: set<string>, device: Uuid, now: int,
                               unreachable: set<string>, requests: seq<CompleteRequest>, e: SyncError)
    requires requests != [] && CompletionRefused(objects, seen, device, now, unreachable, requests[0], e)
    ensures CompletionRefusedAt(objects, seen, device, now, unreachable, requests, 0, e)
  {
    hide CompletionRefused;
    assert CompletionIds(requests[..0]) == {} && seen + {} == seen;
  }

  lemma CompletionRefusedLater(device: Uuid, now: int, unreachable: set<string>, c: Completion,
                               requests: seq<CompleteRequest>, i: nat, e: SyncError)
    requires requests != [] && CompleteOne(device, now, unreachable, c, requests[0]).Success?
    requires var d := CompleteOne(device, now, unreachable, c, requests[0]).value;
             CompletionRefusedAt(d.books.ws.objects, d.seen, device, now, unreachable, requests[1..], i, e)
    ensures CompletionRefusedAt(c.books.ws.objects, c.seen, device, now, unreachable, requests, i + 1, e)
  {
    hide CompleteOne, TrimSpace, Completable, CompletionRefused, CompletionIds, Settled;
    var d := CompleteOne(device, now, unreachable, c, requests[0]).value;
    CompleteOneAnswers(device, now, unreachable, c, requests[0], NoRows);
    CompleteOneOutcome(device, now, unreachable, c, requests[0], "");
    CompletionIdsGrow(requests, i, c.seen);
    OneSettled(device, now, unreachable, c, requests[0], requests[i + 1],
               d.seen + CompletionIds(requests[1..][..i]), e);
    forall j | 0 < j <= i
      ensures Completable(c.books.ws.objects, device, now, unreachable, requests[j])
        && TrimSpace(requests[j].objectId) !in c.seen
    {
      assert requests[j] == requests[1..][j - 1];
      OneSettled(device, now, unreachable, c, requests[0], requests[j], d.seen, e);
    }
  }

  /** A batch is settled exactly when each request can be and no object is named twice; otherwise the first that
      cannot is the error. */
  lemma CompletionBatchAnswers(device: Uuid, now: int, unreachable: set<string>, b: Books,
                               requests: seq<CompleteRequest>)
    ensures var r := CompleteAll(device, now, unreachable, Completion({}, b, []), requests);
            && (r.Success? <==> AllCompletable(b.ws.objects, device, now, unreachable, requests))
            && (r.Failure? ==>
                  exists i: nat ::
                    CompletionRefusedAt(b.ws.objects, {}, device, now, unreachable, requests, i, r.error))
  {
    hide CompleteAll, AllCompletable, CompletionRefusedAt;
    var c := Completion({}, b, []);
    CompletionsSucceed(device, now, unreachable, c, requests);
    if CompleteAll(device, now, unreachable, c, requests).Failure? {
      var i := CompletionsFail(device, now, unreachable, c, requests);
    }
  }

  lemma OneSettled(device: Uuid, now: int, unreachable: set<string>, c: Completion, done: CompleteRequest,
                   r: CompleteRequest, seen: set<string>, e: SyncError)
    requires CompleteOne(device, now, unreachable, c, done).Success?
    requires TrimSpace(done.objectId) in seen
    ensures var before, after :=
              c.books.ws.objects, CompleteOne(device, now, unreachable, c, done).value.books.ws.objects;
            && (CompletionRefused(after, seen, device, now, unreachable, r, e) <==>
                CompletionRefused(before, seen, device, now, unreachable, r, e))
            && (TrimSpace(r.objectId) !in seen ==>
                  (Completable(after, device, now, unreachable, r) <==>
                   Completable(before, device, now, unreachable, r)))
  {
    hide CompleteOne, TrimSpace, Completable, CompletionRefused, Settled, Same;
    CompleteOneOutcome(device, now, unreachable, c, done, TrimSpace(r.objectId));
    OthersCompletable(c.books.ws.objects, CompleteOne(device, now, unreachable, c, done).value.books.ws.objects, seen,
                      device, now, unreachable, r, e);
  }

  lemma CompletionIdsGrow(requests: seq<CompleteRequest>, i: nat, seen: set<string>)
    requires i < |requests|
    ensures seen + {TrimSpace(requests[0].objectId)} + CompletionIds(requests[1..][..i])
         == seen + CompletionIds(requests[..i + 1])
  {
    hide TrimSpace;
    assert requests[..i + 1] == [requests[0]] + requests[1..][..i];
  }

  // ----- Reservations -----

  predicate Reservable(r: ReservationRequest) {
    TrimSpace(r.clientRef) != "" && r.kind.Some?
  }

  /** Request `i` is the first that cannot be reserved: it is malformed, or its drawn id is taken. */
  predicate ReservationRefusedAt(objects: map<string, SyncObject>, requests: seq<ReservationRequest>, ids: seq<string>,
                                 i: nat, e: SyncError)
    requires |ids| == |requests|
  {
    && i < |requests|
    && (forall j :: 0 <= j < i ==> Reservable(requests[j]) && ids[j] !in objects)
    && match e
       case InvalidArgument => !Reservable(requests[i])
       case ConstraintViolation => Reservable(requests[i]) && (ids[i] in objects || ids[i] in ids[..i])
       case _ => false
  }

  /** Reservation succeeds exactly when every request is well formed and the drawn ids are new. */
  lemma {:induction false} ReservationSucceeds(cfg: Config, ws: Workspace, device: Uuid,
                                               requests: seq<ReservationRequest>, ids: seq<string>, now: int)
    requires |ids| == |requests|
    ensures ReserveAll(cfg, ws, device, requests, ids, now).Success? <==>
      (forall i :: 0 <= i < |requests| ==> Reservable(requests[i]) && ids[i] !in ws.objects) && !HasDuplicate(ids)
    decreases |requests|
  {
    hide TrimSpace, HasDuplicate, ReservedRow;
    if requests == [] {
      assert !HasDuplicate(ids) by { NoDuplicates(); }
    } else {
      HeadDuplicate(ids);
      assert forall i :: 0 < i < |requests| ==> requests[i] == requests[1..][i - 1] && ids[i] == ids[1..][i - 1];
      assert forall i :: 0 <= i < |ids| - 1 ==> ids[1..][i] == ids[i + 1] && requests[1..][i] == requests[i + 1];
      if Reservable(requests[0]) && ids[0] !in ws.objects {
        var row := ReservedRow(cfg, device, requests[0].kind.value, now);
        ReservationSucceeds(cfg, ws.(objects := ws.objects[ids[0] := row]), device, requests[1..], ids[1..], now);
      }
    }
  }

  lemma NoDuplicates()
    ensures !HasDuplicate<string>([])
  {
  }

  lemma {:induction false} ReservationFails(cfg: Config, ws: Workspace, device: Uuid,
                                            requests: seq<ReservationRequest>, ids: seq<string>, now: int)
    returns (i: nat)
    requires |ids| == |requests| && ReserveAll(cfg, ws, device, requests, ids, now).Failure?
    ensures ReservationRefusedAt(ws.objects, requests, ids, i, ReserveAll(cfg, ws, device, requests, ids, now).error)
    decreases |requests|
  {
    hide TrimSpace, ReservedRow;
    i := 0;
    if Reservable(requests[0]) && ids[0] !in ws.objects {
      var row := ReservedRow(cfg, device, requests[0].kind.value, now);
      i := ReservationFails(cfg, ws.(objects := ws.objects[ids[0] := row]), device, requests[1..], ids[1..], now);
      assert ids[..i + 2] == [ids[0]] + ids[1..][..i + 1];
      assert ids[..i + 1] == [ids[0]] + ids[1..][..i];
      assert forall j :: 0 < j <= i ==> requests[j] == requests[1..][j - 1] && ids[j] == ids[1..][j - 1];
      i := i + 1;
    }
  }

  /** Each request gets a row of its own under its drawn id: reserved by the device, of the kind asked for, empty,
      and with a deadline. Every other row, and the rest of the workspace, stays. */
  lemma {:induction false} ReservationOutcome(cfg: Config, ws: Workspace, device: Uuid,
                                              requests: seq<ReservationRequest>, ids: seq<string>, now: int, id: string)
    requires |ids| == |requests| && ReserveAll(cfg, ws, device, requests, ids, now).Success?
    ensures var after := ReserveAll(cfg, ws, device, requests, ids, now).value;
            && after == ws.(objects := after.objects)
            && (forall i :: 0 <= i < |requests| && ids[i] == id ==>
                  && id in after.objects && requests[i].kind.Some?
                  && after.objects[id] == SyncObject(requests[i].kind.value, cfg.driver, "", 0, Reserved, None, device,
                                                     Some(now + cfg.maxPendingAge)))
            && (id !in ids ==> Same(ws.objects, after.objects, id))
            && (id in ws.objects ==> id !in ids)
    decreases |requests|
  {
    hide TrimSpace;
    if requests != [] {
      var row := ReservedRow(cfg, device, requests[0].kind.value, now);
      ReservationOutcome(cfg, ws.(objects := ws.objects[ids[0] := row]), device, requests[1..], ids[1..], now, id);
      assert forall i :: 0 < i < |requests| ==> requests[i] == requests[1..][i - 1] && ids[i] == ids[1..][i - 1];
      assert ids == [ids[0]] + ids[1..];
    }
  }
}
