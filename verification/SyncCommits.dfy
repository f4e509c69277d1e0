/** Publishing a commit: normalisation, the signed payload, admission and the append itself. */
module SyncCommits {
  import opened Wrappers
  import opened Text
  import opened SyncTypes

  datatype PublishParams = PublishParams(
    workspaceId: Uuid,
    commitId: string,
    kind: Option<CommitKind>,
    expectedHead: string,
    parents: seq<string>,
    author: Uuid,
    deviceSeq: int,
    body: string,
    bodySha: string,
    bodySize: int,
    refs: seq<string>,
    signature: seq<bv8>)

  datatype PublishResult = PublishResult(commit: Commit, headVersion: int, idempotent: bool)

  const SIGNATURE_SIZE := 64
  const PUBLIC_KEY_SIZE := 32

  // ----- Normalisation -----

  function NormalizeIds(values: seq<string>): seq<string> {
    if values == [] then [] else
      var trimmed := TrimSpace(values[0]);
      (if trimmed == "" then [] else [trimmed]) + NormalizeIds(values[1..])
  }

  predicate NormalIds(ids: seq<string>) {
    forall i :: 0 <= i < |ids| ==> ids[i] != "" && Trimmed(ids[i])
  }

  lemma {:induction false} NormalizeIdsIsNormal(values: seq<string>)
    ensures NormalIds(NormalizeIds(values))
  {
    hide IsSpace, Trimmed, TrimSpace;
    if values != [] {
      TrimSpaceIsProjection(values[0]);
      NormalizeIdsIsNormal(values[1..]);
    }
  }

  function NormalizeIdsSorted(values: seq<string>): seq<string> {
    Sort(NormalizeIds(values))
  }

  /** Ids that are non-empty and trimmed are what normalisation produces and leaves alone. */
  lemma {:induction false} NormalizeIdsFixesNormal(ids: seq<string>)
    requires NormalIds(ids)
    ensures NormalizeIds(ids) == ids
  {
    hide IsSpace, Trimmed, TrimSpace;
    if ids != [] {
      TrimSpaceIsProjection(ids[0]);
      NormalizeIdsFixesNormal(ids[1..]);
      assert ids == [ids[0]] + ids[1..];
    }
  }

  lemma NormalIdsPermute(a: seq<string>, b: seq<string>)
    requires NormalIds(a) && multiset(a) == multiset(b)
    ensures NormalIds(b)
  {
    hide Trimmed;
    forall i | 0 <= i < |b| ensures b[i] != "" && Trimmed(b[i]) {
      assert b[i] in multiset(b);
      var k :| 0 <= k < |a| && a[k] == b[i];
    }
  }

  lemma NormalizeIdsSortedIsProjection(values: seq<string>)
    ensures NormalIds(NormalizeIdsSorted(values))
    ensures NormalizeIdsSorted(NormalizeIdsSorted(values)) == NormalizeIdsSorted(values)
  {
    hide NormalIds, NormalizeIds, Sort, Sorted;
    var out := NormalizeIdsSorted(values);
    NormalizeIdsIsNormal(values);
    NormalIdsPermute(NormalizeIds(values), out);
    NormalizeIdsFixesNormal(out);
    SortOfSorted(out);
  }

  /** The checks and rewrites PublishCommit applies before it looks at the database. */
  function Normalize(p: PublishParams): Result<PublishParams, SyncError> {
    var n := p.(
      commitId := TrimSpace(p.commitId),
      expectedHead := TrimSpace(p.expectedHead),
      body := TrimSpace(p.body),
      bodySha := NormalizeDigest(p.bodySha));
    if n.workspaceId == NIL_UUID || n.commitId == "" || n.author == NIL_UUID || n.body == ""
       || n.deviceSeq <= 0 || n.bodySize <= 0 || |n.signature| != SIGNATURE_SIZE then
      Failure(InvalidArgument)
    else if n.kind.None? || !IsHexOfDigestLength(n.bodySha) then
      Failure(InvalidArgument)
    else
      var parents := NormalizeIds(p.parents);
      if HasDuplicate(parents) then Failure(InvalidCommitParent) else
      var refs := NormalizeIdsSorted(p.refs);
      if HasDuplicate(refs) || n.body in refs then Failure(InvalidArgument) else
      Success(n.(parents := parents, refs := refs))
  }

  /** What a normalised request satisfies. */
  predicate Normal(n: PublishParams) {
    && n.workspaceId != NIL_UUID && n.author != NIL_UUID
    && n.commitId != "" && Trimmed(n.commitId)
    && n.body != "" && Trimmed(n.body)
    && Trimmed(n.expectedHead)
    && n.deviceSeq > 0 && n.bodySize > 0 && |n.signature| == SIGNATURE_SIZE
    && n.kind.Some?
    && IsDigest(n.bodySha)
    && NormalIds(n.parents) && NormalIds(n.refs)
    && !HasDuplicate(n.parents) && !HasDuplicate(n.refs) && Sorted(n.refs)
    && n.body !in n.refs
  }

  /** Normalisation maps every request to a normal one or an error and fixes exactly the normal ones;
      applying it twice is applying it once. */
  lemma NormalizeIsProjection(p: PublishParams)
    ensures Normalize(p).Success? ==> Normal(Normalize(p).value) && Normalize(Normalize(p).value) == Normalize(p)
    ensures Normal(p) <==> Normalize(p) == Success(p)
  {
    hide IsSpace, Trimmed, NormalIds, TrimSpace, Sorted, IsDigest;
    TrimSpaceIsProjection(p.commitId);
    TrimSpaceIsProjection(p.expectedHead);
    TrimSpaceIsProjection(p.body);
    NormalizeDigestIsProjection(p.bodySha);
    NormalizeIdsIsNormal(p.parents);
    NormalizeIdsSortedIsProjection(p.refs);
    if Normalize(p).Success? {
      NormalIsFixed(Normalize(p).value);
    }
    if Normal(p) {
      NormalIsFixed(p);
    }
  }

  lemma NormalIsFixed(n: PublishParams)
    requires Normal(n)
    ensures Normalize(n) == Success(n)
  {
    hide IsSpace, Trimmed, NormalIds, TrimSpace, Sorted;
    TrimSpaceIsProjection(n.commitId);
    TrimSpaceIsProjection(n.expectedHead);
    TrimSpaceIsProjection(n.body);
    NormalizeDigestIsProjection(n.bodySha);
    NormalizeIdsFixesNormal(n.parents);
    NormalizeIdsFixesNormal(n.refs);
    SortOfSorted(n.refs);
  }

  predicate WellFormed(p: PublishParams) {
    && p.workspaceId != NIL_UUID && p.author != NIL_UUID
    && TrimSpace(p.commitId) != "" && TrimSpace(p.body) != "" && p.deviceSeq > 0 && p.bodySize > 0
    && |p.signature| == 64 && p.kind.Some? && IsHexOfDigestLength(NormalizeDigest(p.bodySha))
  }

  /** When each error is given. */
  lemma NormalizeErrors(p: PublishParams)
    ensures var refs := NormalizeIds(p.refs);
            Normalize(p).Success? <==>
              && WellFormed(p) && !HasDuplicate(NormalizeIds(p.parents))
              && !HasDuplicate(refs) && TrimSpace(p.body) !in refs
    ensures Normalize(p).Failure? ==> Normalize(p).error in {InvalidArgument, InvalidCommitParent}
    ensures Normalize(p) == Failure(InvalidCommitParent) <==> WellFormed(p) && HasDuplicate(NormalizeIds(p.parents))
  {
    hide TrimSpace, NormalizeDigest, IsHexOfDigestLength, NormalizeIds, HasDuplicate, Sort;
    var refs, sorted := NormalizeIds(p.refs), NormalizeIdsSorted(p.refs);
    DuplicatesPermute(refs, sorted);
    assert TrimSpace(p.body) in multiset(sorted) <==> TrimSpace(p.body) in multiset(refs);
  }

  lemma DuplicatesPermute(a: seq<string>, b: seq<string>)
    requires multiset(a) == multiset(b)
    ensures HasDuplicate(a) <==> HasDuplicate(b)
  {
    DuplicateCounts(a);
    DuplicateCounts(b);
  }

  /** A list has a duplicate when some value counts twice. */
  lemma {:induction false} DuplicateCounts(s: seq<string>)
    ensures HasDuplicate(s) <==> exists x :: x in s && multiset(s)[x] >= 2
  {
    if s != [] {
      assert s == [s[0]] + s[1..];
      DuplicateCounts(s[1..]);
      assert multiset(s) == multiset{s[0]} + multiset(s[1..]);
      HeadDuplicate(s);
      if s[0] in s[1..] {
        assert s[0] in multiset(s[1..]) && multiset(s)[s[0]] >= 2;
      } else if HasDuplicate(s[1..]) {
        var x :| x in s[1..] && multiset(s[1..])[x] >= 2;
        assert x in s && multiset(s)[x] >= 2;
      }
      if exists x :: x in s && multiset(s)[x] >= 2 {
        var x :| x in s && multiset(s)[x] >= 2;
        if x != s[0] {
          assert multiset(s[1..])[x] >= 2 && x in s[1..];
        } else {
          assert x in multiset(s[1..]);
        }
      }
    }
  }

  ghost predicate AllPadded(ids: seq<string>, padded: seq<string>) {
    |padded| == |ids| && forall i :: 0 <= i < |ids| ==> Padded(ids[i], padded[i])
  }

  lemma {:induction false} NormalizeIdsForgetsPadding(ids: seq<string>, padded: seq<string>)
    requires AllPadded(ids, padded)
    ensures NormalizeIds(padded) == NormalizeIds(ids)
  {
    hide TrimSpace, Padded;
    if ids != [] {
      TrimForgetsPadding(ids[0], padded[0]);
      NormalizeIdsForgetsPadding(ids[1..], padded[1..]);
    }
  }

  /** Spaces around ids and digest, and the case of the digest, make no difference. */
  lemma NormalizeForgetsPadding(p: PublishParams, q: PublishParams, digest: string)
    requires q == p.(commitId := q.commitId, expectedHead := q.expectedHead, body := q.body, bodySha := q.bodySha,
                     parents := q.parents, refs := q.refs)
    requires Padded(p.commitId, q.commitId) && Padded(p.expectedHead, q.expectedHead) && Padded(p.body, q.body)
    requires AllPadded(p.parents, q.parents) && AllPadded(p.refs, q.refs)
    requires Padded(digest, q.bodySha) && IsDigest(p.bodySha) && Trimmed(digest) && ToLower(digest) == p.bodySha
    ensures Normalize(q) == Normalize(p)
  {
    hide TrimSpace, Padded, AllPadded, NormalizeIds, ToLower, IsHexOfDigestLength, HasDuplicate, Trimmed, IsDigest;
    TrimForgetsPadding(p.commitId, q.commitId);
    TrimForgetsPadding(p.expectedHead, q.expectedHead);
    TrimForgetsPadding(p.body, q.body);
    TrimForgetsPadding(digest, q.bodySha);
    TrimSpaceIsProjection(digest);
    NormalizeDigestIsProjection(p.bodySha);
    NormalizeIdsForgetsPadding(p.parents, q.parents);
    NormalizeIdsForgetsPadding(p.refs, q.refs);
  }

  /** Listing the referenced objects in another order is the same request. */
  lemma NormalizeForgetsReferenceOrder(p: PublishParams, refs: seq<string>)
    requires multiset(NormalizeIds(p.refs)) == multiset(NormalizeIds(refs))
    ensures Normalize(p.(refs := refs)) == Normalize(p)
  {
    hide IsSpace, TrimSpace, NormalizeIds, Sorted;
    SortedIsCanonical(NormalizeIdsSorted(p.refs), NormalizeIdsSorted(refs));
  }

  // ----- The signed payload -----

  function CanonicalPayload(n: PublishParams): CommitPayload
    requires n.kind.Some?
  {
    CommitPayload(n.workspaceId, n.commitId, n.kind.value, n.expectedHead, n.parents, n.author,
                  n.deviceSeq, n.body, n.bodySha, n.bodySize, n.refs)
  }

  function PayloadOfRow(workspaceId: Uuid, commitId: string, c: Commit): CommitPayload {
    CommitPayload(workspaceId, commitId, c.kind, TextValue(c.expectedHead), c.parents, c.author,
                  c.deviceSeq, c.body, c.bodySha, c.bodySize, NormalizeIdsSorted(c.refs))
  }

  /** The signed payload names every field of the request but the signature. */
  lemma PayloadIsInjective(n: PublishParams, m: PublishParams)
    requires n.kind.Some? && m.kind.Some?
    ensures CanonicalPayload(n) == CanonicalPayload(m) <==> n == m.(signature := n.signature)
  {
    hide NormalizeIdsSorted;
  }

  predicate CommitMatches(workspaceId: Uuid, commitId: string, c: Commit, payload: CommitPayload, signature: seq<bv8>) {
    PayloadOfRow(workspaceId, commitId, c) == payload && c.signature == signature
  }

  function RowOf(n: PublishParams, serverSeq: int): Commit
    requires n.kind.Some?
  {
    Commit(n.kind.value, ToText(n.expectedHead), n.parents, n.author, n.deviceSeq, n.body, n.bodySha,
           n.bodySize, n.refs, n.signature, serverSeq)
  }

  /** The payload rebuilt from a stored row is the payload that was signed, and it matches a second
      normalised request for the same commit exactly when that request is equal in every field. */
  lemma StoredRowMatchesOnlyItself(n: PublishParams, m: PublishParams, serverSeq: int)
    requires Normal(n) && Normal(m) && n.workspaceId == m.workspaceId && n.commitId == m.commitId
    ensures CommitMatches(n.workspaceId, n.commitId, RowOf(n, serverSeq), CanonicalPayload(m), m.signature) <==> m == n
  {
    NormalizeIdsFixesNormal(n.refs);
    SortOfSorted(n.refs);
  }

  // ----- Admission -----

  /** The shape of the parent list that each commit kind allows. */
  predicate ParentShape(n: PublishParams) {
    match n.kind
    case Some(Checkpoint) =>
      if n.expectedHead == "" then |n.parents| == 0 else n.parents == [n.expectedHead]
    case Some(Incremental) => n.expectedHead != "" && n.parents == [n.expectedHead]
    case Some(Merge) => n.expectedHead != "" && |n.parents| >= 2 && n.expectedHead in n.parents
    case None => false
  }

  predicate ParentsValid(ws: Workspace, n: PublishParams) {
    ParentShape(n) && forall p :: p in n.parents ==> p in ws.commits
  }

  /** The rows a commit refers to, in request order; deleted rows are not found. */
  function FoundRefs(objects: map<string, SyncObject>, refs: seq<string>): (found: seq<string>)
    ensures |found| <= |refs|
    ensures forall id :: id in found <==> id in refs && Live(objects, id)
    ensures |found| == |refs| ==> found == refs
  {
    if refs == [] then [] else
      (if Live(objects, refs[0]) then [refs[0]] else []) + FoundRefs(objects, refs[1..])
  }

  /** The loop over the referenced rows: the first offending row decides the error. */
  function RefsError(objects: map<string, SyncObject>, refs: seq<string>): (e: Option<SyncError>)
    requires forall id :: id in refs ==> id in objects
    ensures e.None? <==> forall id :: id in refs ==> objects[id].state == Available && objects[id].kind != CommitBody
  {
    if refs == [] then None
    else if objects[refs[0]].state != Available then Some(ObjectNotAvailable)
    else if objects[refs[0]].kind == CommitBody then Some(InvalidArgument)
    else RefsError(objects, refs[1..])
  }

  predicate HasCheckpointPack(objects: map<string, SyncObject>, refs: seq<string>) {
    exists id :: id in refs && id in objects && objects[id].kind == CheckpointPack
  }

  /** validateCommitObjects: None when the body and every referenced object may be published. */
  function ObjectsError(ws: Workspace, n: PublishParams): Option<SyncError> {
    if !Live(ws.objects, n.body) then Some(ObjectNotAvailable) else
    var body := ws.objects[n.body];
    if body.state != Available || body.kind != CommitBody then Some(ObjectNotAvailable)
    else if body.sha != n.bodySha || body.size != n.bodySize then Some(ObjectMetadataMismatch)
    else if n.refs == [] then
      if n.kind == Some(Checkpoint) then Some(ObjectNotAvailable) else None
    else
      var found := FoundRefs(ws.objects, n.refs);
      if |found| != |n.refs| then Some(ObjectNotAvailable) else
      match RefsError(ws.objects, found)
      case Some(e) => Some(e)
      case None =>
        if n.kind == Some(Checkpoint) && !HasCheckpointPack(ws.objects, found) then Some(ObjectNotAvailable)
        else None
  }

  /** Why a commit that is not stored yet is refused; None admits it. */
  function Refusal(cfg: Config, ws: Workspace, user: Uuid, n: PublishParams): Option<SyncError>
    requires n.kind.Some?
  {
    if TextValue(ws.head) != n.expectedHead then
      Some(HeadConflict(n.workspaceId, TextValue(ws.head), ws.headVersion))
    else if !ActiveDevice(ws, user, n.author) then Some(PermissionDenied)
    else if n.deviceSeq <= ws.devices[n.author].lastSeq then Some(DuplicateDeviceSeq)
    else if |ws.devices[n.author].publicKey| != PUBLIC_KEY_SIZE
            || !cfg.verify(ws.devices[n.author].publicKey, CanonicalPayload(n), n.signature) then
      Some(InvalidSignature)
    else if !ParentsValid(ws, n) then Some(InvalidCommitParent)
    else ObjectsError(ws, n)
  }

  /** What an object must be for a published commit to stay restorable. */
  predicate Published(objects: map<string, SyncObject>, c: Commit) {
    && c.body in objects && objects[c.body].state == Available && objects[c.body].kind == CommitBody
    && objects[c.body].sha == c.bodySha && objects[c.body].size == c.bodySize
    && (forall id :: id in c.refs ==> id in objects && objects[id].state == Available && objects[id].kind != CommitBody)
    && (c.kind == Checkpoint ==> HasCheckpointPack(objects, c.refs))
  }

  /** Object validation accepts exactly the commits whose objects make them restorable. */
  lemma ObjectsErrorIsExact(ws: Workspace, n: PublishParams, serverSeq: int)
    requires n.kind.Some?
    ensures ObjectsError(ws, n).None? <==> Published(ws.objects, RowOf(n, serverSeq))
  {
    var found := FoundRefs(ws.objects, n.refs);
    if |found| == |n.refs| {
      assert found == n.refs;
    } else if forall id :: id in n.refs ==> Live(ws.objects, id) {
      AllFound(ws.objects, n.refs);
    }
  }

  lemma {:induction false} AllFound(objects: map<string, SyncObject>, refs: seq<string>)
    requires forall id :: id in refs ==> Live(objects, id)
    ensures FoundRefs(objects, refs) == refs
  {
    if refs != [] {
      AllFound(objects, refs[1..]);
      assert refs == [refs[0]] + refs[1..];
    }
  }

  // ----- The append -----

  function RoleOf(kind: ObjectKind): Role {
    match kind
    case ContentPack => ContentPackRole
    case CheckpointPack => CheckpointPackRole
    case LargeObject => LargeObjectRole
    case CommitBody => BodyRole
  }

  /** ON CONFLICT DO NOTHING: one link per commit and object. */
  function AddLink(links: set<Link>, link: Link): set<Link> {
    if exists l :: l in links && l.commitId == link.commitId && l.objectId == link.objectId then links
    else links + {link}
  }

  function AddRefLinks(links: set<Link>, objects: map<string, SyncObject>, commitId: string, refs: seq<string>)
    : set<Link>
    requires forall id :: id in refs ==> id in objects
    decreases refs
  {
    if refs == [] then links
    else
      assert refs == [refs[0]] + refs[1..];
      AddRefLinks(AddLink(links, Link(commitId, refs[0], RoleOf(objects[refs[0]].kind))), objects, commitId, refs[1..])
  }

  function MergeCursor(cursors: map<Uuid, Cursor>, device: Uuid, lastSeen: string, checkpoint: string): Cursor {
    var previous := if device in cursors then cursors[device].lastCheckpoint else None;
    Cursor(ToText(lastSeen), if checkpoint == "" then previous else Some(checkpoint))
  }

  /** The workspace after an admitted commit. */
  function Append(ws: Workspace, n: PublishParams, serverSeq: int): Workspace
    requires n.kind.Some? && n.author in ws.devices
    requires forall id :: id in n.refs ==> id in ws.objects
  {
    var withBody := AddLink(ws.links, Link(n.commitId, n.body, BodyRole));
    ws.(
      commits := ws.commits[n.commitId := RowOf(n, serverSeq)],
      links := AddRefLinks(withBody, ws.objects, n.commitId, n.refs),
      devices := ws.devices[n.author := ws.devices[n.author].(lastSeq := n.deviceSeq)],
      cursors := ws.cursors[n.author := MergeCursor(ws.cursors, n.author, n.commitId,
                                                    if n.kind == Some(Checkpoint) then n.commitId else "")],
      head := ToText(n.commitId),
      headVersion := ws.headVersion + 1)
  }

  lemma RefusalNoneImpliesRefsPresent(cfg: Config, ws: Workspace, user: Uuid, n: PublishParams)
    requires n.kind.Some? && Refusal(cfg, ws, user, n).None?
    ensures n.author in ws.devices && forall id :: id in n.refs ==> id in ws.objects
  {
    ObjectsErrorIsExact(ws, n, 0);
  }

  /** PublishCommit on an authorised workspace. The identity column hands out any number above the last
      one; `gap` counts the numbers burnt by rolled-back inserts. */
  function PublishIn(cfg: Config, ws: Workspace, user: Uuid, n: PublishParams, serverSeq: int)
    : (Workspace, Result<PublishResult, SyncError>)
    requires n.kind.Some?
  {
    if n.commitId in ws.commits then
      var existing := ws.commits[n.commitId];
      if CommitMatches(n.workspaceId, n.commitId, existing, CanonicalPayload(n), n.signature)
      then (ws, Success(PublishResult(existing, ws.headVersion, true)))
      else (ws, Failure(DuplicateCommitPayload))
    else
      match Refusal(cfg, ws, user, n)
      case Some(e) => (ws, Failure(e))
      case None =>
        RefusalNoneImpliesRefsPresent(cfg, ws, user, n);
        var after := Append(ws, n, serverSeq);
        (after, Success(PublishResult(after.commits[n.commitId], after.headVersion, false)))
  }
}
