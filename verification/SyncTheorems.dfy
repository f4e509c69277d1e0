/** What the invariant means for a user of the server, in every reachable state and over every run. */
module SyncTheorems {
  import opened Wrappers
  import opened Text
  import opened SyncTypes
  import opened SyncCommits
  import opened SyncLedger
  import opened SyncGraph
  import opened SyncLog
  import opened SyncServer
  import opened SyncInvariant

  /** A commit can be downloaded in full: its rows are available with the right kinds and their blobs exist; with
      the local store the blobs are those the rows describe. */
  ghost predicate Restorable(cfg: Config, ws: Workspace, id: string)
    requires id in ws.commits
  {
    var c := ws.commits[id];
    && Published(ws.objects, c)
    && (forall o :: o in CommitObjects(ws, id) ==> o in ws.objects && o in ws.blobs)
    && (cfg.driver == Local ==>
          forall o :: o in CommitObjects(ws, id) ==> ws.blobs[o] == Blob(ws.objects[o].size, ws.objects[o].sha))
  }

  /** After any run, every published commit is restorable; and if there is a head, the preserved set holds
      a checkpoint that refers to an available checkpoint pack, which is preserved with it. */
  lemma Restorability(cfg: Config, ops: seq<Op>, w: Uuid, rows: seq<string>)
    requires ValidConfig(cfg) && AllLegal(cfg, EMPTY_DB, ops)
    requires w in Run(cfg, EMPTY_DB, ops).workspaces
    requires ListedDesc(Run(cfg, EMPTY_DB, ops).workspaces[w].commits, rows)
    ensures var ws := Run(cfg, EMPTY_DB, ops).workspaces[w];
            var preserved := PreservedCommits(ws, LatestCheckpoint(ws.commits, rows));
            && (forall c :: c in ws.commits ==> Restorable(cfg, ws, c))
            && (ws.head.Some? ==>
                  exists c, pack :: c in preserved && c in ws.commits && ws.commits[c].kind == Checkpoint
                    && pack in ws.commits[c].refs && pack in ObjectsOfAll(ws, preserved)
                    && pack in ws.objects && ws.objects[pack].state == Available
                      && ws.objects[pack].kind == CheckpointPack)
  {
    hide AccountsOk, Recalculated, DeviceOrder, ParentsOk, AllLegal, Run, LatestCheckpoint;
    ReachableInv(cfg, ops);
    var ws := Run(cfg, EMPTY_DB, ops).workspaces[w];
    forall c | c in ws.commits ensures Restorable(cfg, ws, c) {
      CommitIsRestorable(cfg, ws, c);
    }
    if ws.head.Some? {
      PreservedCheckpoint(ws, Run(cfg, EMPTY_DB, ops).lastServerSeq, rows);
    }
  }

  lemma CommitIsRestorable(cfg: Config, ws: Workspace, c: string)
    requires LedgerInv(cfg, ws) && CommitsOk(ws) && c in ws.commits
    ensures Restorable(cfg, ws, c)
  {
    hide Recalculated, LinkedObjects, IsDigest;
    assert CommitOk(ws, c);
    forall o | o in CommitObjects(ws, c)
      ensures o in ws.objects && o in ws.blobs
      ensures cfg.driver == Local ==> ws.blobs[o] == Blob(ws.objects[o].size, ws.objects[o].sha)
    {
      assert o == ws.commits[c].body || o in ws.commits[c].refs;
      assert ObjectOk(cfg, ws.objects[o], BlobAt(ws.blobs, o));
    }
  }

  lemma PreservedCheckpoint(ws: Workspace, last: int, rows: seq<string>)
    requires LogInv(ws, last) && ListedDesc(ws.commits, rows) && ws.head.Some?
    ensures var preserved := PreservedCommits(ws, LatestCheckpoint(ws.commits, rows));
            exists c, pack :: c in preserved && c in ws.commits && ws.commits[c].kind == Checkpoint
              && pack in ws.commits[c].refs && pack in ObjectsOfAll(ws, preserved)
              && pack in ws.objects && ws.objects[pack].state == Available && ws.objects[pack].kind == CheckpointPack
  {
    hide LatestCheckpoint, DeviceOrder, ParentsOk, LinkedObjects, ListedDesc, OldHistory, Reaches;
    var h :| IsHistory(ws, h);
    var k := GraphOfLog(ws, last, h, rows);
    var c := h[k];
    assert c in h[..k + 1] by { assert h[..k + 1][k] == c; }
    assert CommitOk(ws, c);
    var pack :| pack in ws.commits[c].refs && pack in ws.objects && ws.objects[pack].kind == CheckpointPack;
    assert pack in CommitObjects(ws, c);
  }

  /** After any run the log is linear: the walk along expected heads lists every commit once with falling
      server sequences, ends at a parentless checkpoint, and is as long as the head version; every commit
      is reachable from the head through parents; no parent path returns to its start; and the device
      sequence numbers of one device rise with the server sequence. */
  lemma LinearHistory(cfg: Config, ops: seq<Op>, w: Uuid) returns (h: seq<string>)
    requires ValidConfig(cfg) && AllLegal(cfg, EMPTY_DB, ops)
    requires w in Run(cfg, EMPTY_DB, ops).workspaces
    ensures var ws := Run(cfg, EMPTY_DB, ops).workspaces[w];
            && IsHistory(ws, h)
            && (forall i, j :: 0 <= i < j < |h| ==> h[i] != h[j])
            && ReachableSet(ws.commits, TextValue(ws.head)) == ws.commits.Keys
            && (forall p :: IsPath(ws.commits, p) && |p| > 1 ==> p[0] != p[|p| - 1])
            && DeviceOrder(ws.commits)
            && (forall c :: c in ws.commits ==> ws.commits[c].author in ws.devices
                                                && ws.commits[c].deviceSeq <= ws.devices[ws.commits[c].author].lastSeq)
  {
    hide AccountsOk, LedgerInv, LinkedObjects, ParentsOk, DeviceOrder, Published, AllLegal, Run, Reaches, IsPath;
    ReachableInv(cfg, ops);
    var db := Run(cfg, EMPTY_DB, ops);
    var ws := db.workspaces[w];
    h :| IsHistory(ws, h);
    AllCommitsReachable(ws, db.lastServerSeq, h);
    forall p | IsPath(ws.commits, p) && |p| > 1 ensures p[0] != p[|p| - 1] {
      ParentsDescend(ws, p, |p| - 1);
    }
    forall c | c in ws.commits ensures CommitOk(ws, c) {
    }
  }

  /** After any run, what a garbage collection preserves is exactly the stretch of the walk from the head
      to the newest checkpoint, and the old reachable history is exactly the rest, newest first. */
  lemma PreservedIsNewestStretch(cfg: Config, ops: seq<Op>, w: Uuid, rows: seq<string>) returns (h: seq<string>, k: nat)
    requires ValidConfig(cfg) && AllLegal(cfg, EMPTY_DB, ops)
    requires w in Run(cfg, EMPTY_DB, ops).workspaces
    requires ListedDesc(Run(cfg, EMPTY_DB, ops).workspaces[w].commits, rows) && rows != []
    ensures var ws := Run(cfg, EMPTY_DB, ops).workspaces[w];
            var latest := LatestCheckpoint(ws.commits, rows);
            && IsHistory(ws, h) && k < |h|
            && ws.commits[h[k]].kind == Checkpoint && (forall i :: 0 <= i < k ==> ws.commits[h[i]].kind != Checkpoint)
            && (forall c :: c in PreservedCommits(ws, latest) <==> c in h[..k + 1])
            && OldHistory(ws, latest, rows) == h[k + 1..]
  {
    hide AccountsOk, LedgerInv, CommitOk, ParentsOk, DeviceOrder, AllLegal, Run, LatestCheckpoint, OldHistory,
         PreservedCommits;
    ReachableInv(cfg, ops);
    var db := Run(cfg, EMPTY_DB, ops);
    var ws := db.workspaces[w];
    h :| IsHistory(ws, h);
    assert rows[0] in h;
    k := GraphOfLog(ws, db.lastServerSeq, h, rows);
  }

  /** After any run every cached counter equals the sum it caches and lies within its ceiling, and a
      recalculation changes nothing. */
  lemma BytesConservedAndBounded(cfg: Config, ops: seq<Op>, w: Uuid, id: string)
    requires ValidConfig(cfg) && AllLegal(cfg, EMPTY_DB, ops)
    requires w in Run(cfg, EMPTY_DB, ops).workspaces
    ensures var db := Run(cfg, EMPTY_DB, ops);
            var ws := db.workspaces[w];
            && ws.usage == Usage(StateBytes(ws.objects, Available), StateCount(ws.objects, Available),
              StateBytes(ws.objects, Pending))
            && 0 <= ws.usage.pendingBytes <= cfg.maxPendingBytes
            && 0 <= ws.usage.storageBytes <= ws.usage.storageBytes + ws.usage.pendingBytes <= cfg.maxWorkspaceBytes
            && ws.owner in db.accounts && db.accounts[ws.owner] == AccountOf(db.workspaces, ws.owner)
            && db.accounts[ws.owner].storageBytes + db.accounts[ws.owner].pendingBytes <= cfg.maxUserBytes
            && db.accounts[ws.owner].workspaceCount <= cfg.maxWorkspaces
            && (id in ws.objects && ws.objects[id].state in {Pending, Available} ==>
              0 < ws.objects[id].size <= cfg.maxBlobBytes)
            && RecalculateSyncUsage(db, ws.owner, w).0 == db
  {
    hide LogInv, AllLegal, Run, StateBytes, StateCount, AccountOf, RecalculateSyncUsage, IsDigest;
    ReachableInv(cfg, ops);
    var db := Run(cfg, EMPTY_DB, ops);
    var ws := db.workspaces[w];
    CountersNonNegative(cfg, ws, id);
    assert AccountOk(cfg, db, ws.owner);
    RecalculateChangesNothing(cfg, db, ws.owner, w);
  }

  /** After any run, every published commit is signed: a device of the owner signed the payload of its row, with
      a key of 32 bytes. */
  lemma EveryCommitIsSigned(cfg: Config, ops: seq<Op>, w: Uuid, id: string)
    requires ValidConfig(cfg) && AllLegal(cfg, EMPTY_DB, ops)
    requires w in Run(cfg, EMPTY_DB, ops).workspaces && id in Run(cfg, EMPTY_DB, ops).workspaces[w].commits
    ensures var ws := Run(cfg, EMPTY_DB, ops).workspaces[w];
            var c := ws.commits[id];
            && c.author in ws.devices && ws.devices[c.author].user == ws.owner
            && |ws.devices[c.author].publicKey| == 32
            && cfg.verify(ws.devices[c.author].publicKey,
                          CommitPayload(w, id, c.kind, TextValue(c.expectedHead), c.parents, c.author, c.deviceSeq,
                                        c.body, c.bodySha, c.bodySize, c.refs),
                          c.signature)
  {
    hide AccountsOk, LedgerInv, CommitOk, ParentsOk, DeviceOrder, AllLegal, Run, IsHistory, CursorOk, LinksTyped;
    ReachableInv(cfg, ops);
    assert Signed(cfg, w, Run(cfg, EMPTY_DB, ops).workspaces[w], id);
  }

  /** After any run, a commit has the parents its kind allows and is linked to its body and its references and
      nothing else, each under the role of its kind; and the cursor of a device names the newest commit and the newest
      checkpoint by that device, to whose sequence number the device counts. */
  lemma RowsAgree(cfg: Config, ops: seq<Op>, w: Uuid)
    requires ValidConfig(cfg) && AllLegal(cfg, EMPTY_DB, ops)
    requires w in Run(cfg, EMPTY_DB, ops).workspaces
    ensures var ws := Run(cfg, EMPTY_DB, ops).workspaces[w];
            && (forall id :: id in ws.commits ==>
                  && ShapeOk(ws.commits[id])
                  && LinkedObjects(ws.links, id) == {ws.commits[id].body} + (set r | r in ws.commits[id].refs))
            && LinksTyped(ws) && CursorsOk(ws)
  {
    hide AccountsOk, LedgerInv, LinkedObjects, Published, ShapeOk, ParentsOk, DeviceOrder, AllLegal, Run, IsHistory,
         CursorOk, LinksTyped;
    ReachableInv(cfg, ops);
    var ws := Run(cfg, EMPTY_DB, ops).workspaces[w];
    forall id | id in ws.commits ensures CommitOk(ws, id) {
    }
  }

  /** Whatever happens later, a published commit keeps its row and an available object keeps its row. */
  lemma PublishedForever(cfg: Config, db: Db, ops: seq<Op>, w: Uuid)
    requires ValidConfig(cfg) && DbInv(cfg, db) && AllLegal(cfg, db, ops) && w in db.workspaces
    ensures w in Run(cfg, db, ops).workspaces && WorkspaceKept(db.workspaces[w], Run(cfg, db, ops).workspaces[w])
  {
    hide DbInv, AllLegal, Run, WorkspaceKept;
    RunKeepsInv(cfg, db, ops);
  }

  /** The idempotent answer: the stored commit with the current head version. */
  ghost predicate IsReplay(later: Db, workspaceId: Uuid, commit: Commit, r: Result<PublishResult, SyncError>) {
    workspaceId in later.workspaces
    && r == Success(PublishResult(commit, later.workspaces[workspaceId].headVersion, true))
  }

  /** Exactly-once publishing. Once a request was accepted, sending it again at any later time, with any
      head, answers with the stored commit and changes nothing; a request for the same commit id that
      differs in any normalised field or in the signature is rejected and changes nothing. */
  lemma ExactlyOnce(cfg: Config, db: Db, user: Uuid, p: PublishParams, gap: nat, ops: seq<Op>, later: Db,
                    q: PublishParams, laterGap: nat)
    requires ValidConfig(cfg) && DbInv(cfg, db)
    requires PublishCommit(cfg, db, user, p, gap).1.Success?
    requires AllLegal(cfg, PublishCommit(cfg, db, user, p, gap).0, ops)
    requires later == Run(cfg, PublishCommit(cfg, db, user, p, gap).0, ops)
    requires Normalize(p).Success? && Normalize(q).Success?
    requires Normalize(q).value.workspaceId == Normalize(p).value.workspaceId
    requires Normalize(q).value.commitId == Normalize(p).value.commitId
    ensures PublishCommit(cfg, later, user, q, laterGap).0 == later
    ensures Normalize(q) == Normalize(p) ==>
              IsReplay(later, Normalize(p).value.workspaceId, PublishCommit(cfg, db, user, p, gap).1.value.commit,
                       PublishCommit(cfg, later, user, q, laterGap).1)
    ensures Normalize(q) != Normalize(p) ==>
              PublishCommit(cfg, later, user, q, laterGap).1 == Failure(DuplicateCommitPayload)
  {
    hide DbInv, NormalIds, Trimmed, IsDigest, Sorted, Normalize, AllLegal, Run, Refusal, Append, AvailableKept,
         PayloadOfRow;
    PublishKeepsInv(cfg, db, user, p, gap);
    var n, m := Normalize(p).value, Normalize(q).value;
    PublishedForever(cfg, PublishCommit(cfg, db, user, p, gap).0, ops, n.workspaceId);
    NormalizeIsProjection(p);
    NormalizeIsProjection(q);
    AcceptedRow(cfg, db, user, p, gap);
    assert CanonicalPayload(m) == CanonicalPayload(n) && m.signature == n.signature <==> m == n;
  }

  /** An accepted publication stores the row of its normalised request (or had stored it before). */
  lemma AcceptedRow(cfg: Config, db: Db, user: Uuid, p: PublishParams, gap: nat)
    requires PublishCommit(cfg, db, user, p, gap).1.Success?
    ensures Normalize(p).Success?
    ensures var (after, r) := PublishCommit(cfg, db, user, p, gap);
            var n := Normalize(p).value;
            && Authorized(after, user, n.workspaceId) && n.kind.Some?
            && n.commitId in after.workspaces[n.workspaceId].commits
            && r.value.commit == after.workspaces[n.workspaceId].commits[n.commitId]
            && (!r.value.idempotent ==> r.value.commit == RowOf(n, db.lastServerSeq + 1 + gap))
            && CommitMatches(n.workspaceId, n.commitId, r.value.commit, CanonicalPayload(n), n.signature)
  {
    hide Refusal, NormalIds, Trimmed, IsDigest, Sorted, AddLink, AddRefLinks, MergeCursor, Normalize;
    NormalizeIsProjection(p);
    var n := Normalize(p).value;
    StoredRowMatchesOnlyItself(n, n, db.lastServerSeq + 1 + gap);
  }

  /** A collection that succeeds marks exactly the listed rows deleted and removes exactly their blobs; one
      that fails at the first undeletable blob leaves every row, having removed the blobs before it. */
  lemma {:induction false} DeleteOrphansOutcome(objects: map<string, SyncObject>, blobs: map<string, Blob>,
                                                rows: seq<string>, stuck: set<string>, id: string)
    requires forall i :: 0 <= i < |rows| ==> Live(objects, rows[i])
    requires forall i, j :: 0 <= i < j < |rows| ==> rows[i] != rows[j]
    ensures var (left, r) := DeleteOrphans(objects, blobs, rows, stuck);
            && (r.Success? <==> forall i :: 0 <= i < |rows| ==> rows[i] !in stuck)
            && (r.Success? ==>
                  && r.value.Keys == objects.Keys
                  && (id in objects ==> r.value[id] == if id in rows then DeletedRow(objects[id]) else objects[id])
                  && (id in left <==> id in blobs && id !in rows))
            && (id in left ==> id in blobs && left[id] == blobs[id])
            && (id in blobs && id !in rows ==> id in left)
    decreases |rows|
  {
    if rows != [] && rows[0] !in stuck {
      assert rows == [rows[0]] + rows[1..];
      var next := objects[rows[0] := DeletedRow(objects[rows[0]])];
      DeleteOrphansOutcome(next, blobs - {rows[0]}, rows[1..], stuck, id);
      assert forall i :: 0 < i < |rows| ==> rows[i] == rows[1..][i - 1];
    }
  }

  /** What a collection may delete is never part of a published commit. */
  lemma OrphansAreUnpublished(cfg: Config, ops: seq<Op>, w: Uuid, id: string, now: int, c: string)
    requires ValidConfig(cfg) && AllLegal(cfg, EMPTY_DB, ops)
    requires w in Run(cfg, EMPTY_DB, ops).workspaces
    requires id in Run(cfg, EMPTY_DB, ops).workspaces[w].objects
    requires IsExpiredOrphan(Run(cfg, EMPTY_DB, ops).workspaces[w].objects[id], now)
    requires c in Run(cfg, EMPTY_DB, ops).workspaces[w].commits
    ensures id !in CommitObjects(Run(cfg, EMPTY_DB, ops).workspaces[w], c)
  {
    hide AccountsOk, LedgerInv, ParentsOk, DeviceOrder, AllLegal, Run, LinkedObjects, IsHistory;
    ReachableInv(cfg, ops);
    var ws := Run(cfg, EMPTY_DB, ops).workspaces[w];
    assert CommitOk(ws, c);
    forall o | o in CommitObjects(ws, c) ensures o in ws.objects && ws.objects[o].state == Available {
      assert o == ws.commits[c].body || o in ws.commits[c].refs;
    }
  }
}
