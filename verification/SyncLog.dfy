/** The commit log of one workspace: what publishing keeps, and what the log then looks like. */
module SyncLog {
  import opened Wrappers
  import opened Text
  import opened SyncTypes
  import opened SyncCommits
  import opened SyncGraph

  /** The walk from the head along expected-head ids, newest first. It visits every commit once, with
      strictly falling server sequences, and ends at a parentless checkpoint. */
  ghost predicate IsHistory(ws: Workspace, h: seq<string>) {
    && Falling(ws.commits, h)
    && (forall c :: c in ws.commits ==> c in h)
    && ws.head == (if h == [] then None else Some(h[0]))
    && Chained(ws.commits, h)
    && |h| == ws.headVersion
  }

  ghost predicate Falling(commits: map<string, Commit>, s: seq<string>) {
    && (forall i :: 0 <= i < |s| ==> s[i] in commits)
    && (forall i, j :: 0 <= i < j < |s| ==> commits[s[i]].serverSeq > commits[s[j]].serverSeq)
  }

  ghost predicate Chained(commits: map<string, Commit>, h: seq<string>)
    requires Falling(commits, h)
  {
    && (forall i :: 0 < i < |h| ==> TextValue(commits[h[i - 1]].expectedHead) == h[i])
    && (h != [] ==> IsGenesis(commits[h[|h| - 1]]))
  }

  predicate IsGenesis(c: Commit) {
    c.kind == Checkpoint && c.parents == [] && TextValue(c.expectedHead) == ""
  }

  /** The parents each kind of commit has. */
  predicate ShapeOk(c: Commit) {
    match c.kind
    case Checkpoint => c.parents == if c.expectedHead.Some? then [c.expectedHead.value] else []
    case Incremental => c.expectedHead.Some? && c.parents == [c.expectedHead.value]
    case Merge =>
      c.expectedHead.Some? && |c.parents| >= 2 && !HasDuplicate(c.parents) && c.expectedHead.value in c.parents
  }

  /** What holds of each stored commit on its own. */
  ghost predicate CommitOk(ws: Workspace, id: string)
    requires id in ws.commits
  {
    var c := ws.commits[id];
    && id != ""
    && ShapeOk(c)
    && Published(ws.objects, c)
    && LinkedObjects(ws.links, id) == {c.body} + (set r | r in c.refs)
    && c.author in ws.devices && 0 < c.deviceSeq <= ws.devices[c.author].lastSeq
  }

  ghost predicate ParentsOk(ws: Workspace, id: string)
    requires id in ws.commits
  {
    var c := ws.commits[id];
    && (forall p :: p in c.parents ==> Known(ws.commits, p) && ws.commits[p].serverSeq < c.serverSeq)
    && (TextValue(c.expectedHead) != "" ==> TextValue(c.expectedHead) in c.parents)
  }

  ghost predicate DeviceOrder(commits: map<string, Commit>) {
    forall a, b :: a in commits && b in commits && commits[a].author == commits[b].author
                   && commits[a].serverSeq < commits[b].serverSeq
                   ==> commits[a].deviceSeq < commits[b].deviceSeq
  }

  ghost predicate SeqsBelow(commits: map<string, Commit>, last: int) {
    forall c :: c in commits ==> 0 < commits[c].serverSeq <= last
  }

  ghost predicate LinksKnown(ws: Workspace) {
    forall l :: l in ws.links ==> l.commitId in ws.commits
  }

  /** Every device is the owner's and has a key of 32 bytes. */
  predicate DevicesOk(ws: Workspace) {
    forall d :: d in ws.devices ==> ws.devices[d].user == ws.owner && |ws.devices[d].publicKey| == 32
  }

  predicate RoleFits(role: Role, kind: ObjectKind) {
    match role
    case BodyRole => kind == CommitBody
    case ContentPackRole => kind == ContentPack
    case CheckpointPackRole => kind == CheckpointPack
    case LargeObjectRole => kind == LargeObject
  }

  /** A link leads to an available object of the kind its role names. */
  ghost predicate LinksTyped(ws: Workspace) {
    forall l :: l in ws.links ==>
      l.objectId in ws.objects && ws.objects[l.objectId].state == Available
        && RoleFits(l.role, ws.objects[l.objectId].kind)
  }

  /** The newest of the commits by one device that qualify; None when there is none. */
  ghost predicate IsNewest(commits: map<string, Commit>, device: Uuid, checkpoints: bool, id: Option<string>) {
    && (id.Some? ==> id.value in commits && By(commits[id.value], device, checkpoints))
    && forall c :: c in commits && By(commits[c], device, checkpoints) ==>
         id.Some? && commits[c].serverSeq <= commits[id.value].serverSeq
  }

  predicate By(c: Commit, device: Uuid, checkpoints: bool) {
    c.author == device && (checkpoints ==> c.kind == Checkpoint)
  }

  function LastSeen(ws: Workspace, device: Uuid): Option<string> {
    if device in ws.cursors then ws.cursors[device].lastSeen else None
  }

  /** The cursor of a device names its newest commit and its newest checkpoint, and the device counts up to the
      sequence number of the former. */
  ghost predicate CursorOk(ws: Workspace, device: Uuid) {
    && IsNewest(ws.commits, device, false, LastSeen(ws, device))
    && (device in ws.cursors ==>
          ws.cursors[device].lastSeen.Some? && IsNewest(ws.commits, device, true, ws.cursors[device].lastCheckpoint))
    && (device in ws.devices ==>
          ws.devices[device].lastSeq ==
            if LastSeen(ws, device).Some? then ws.commits[LastSeen(ws, device).value].deviceSeq else 0)
  }

  ghost predicate CursorsOk(ws: Workspace) {
    forall d: Uuid :: CursorOk(ws, d)
  }

  ghost predicate HasHistory(ws: Workspace) {
    exists h :: IsHistory(ws, h)
  }

  ghost predicate CommitsOk(ws: Workspace) {
    forall id :: id in ws.commits ==> CommitOk(ws, id)
  }

  ghost predicate AllParentsOk(ws: Workspace) {
    forall id :: id in ws.commits ==> ParentsOk(ws, id)
  }

  ghost predicate LogInv(ws: Workspace, last: int) {
    && CommitsOk(ws)
    && AllParentsOk(ws)
    && DeviceOrder(ws.commits)
    && SeqsBelow(ws.commits, last)
    && LinksKnown(ws) && LinksTyped(ws)
    && DevicesOk(ws) && CursorsOk(ws)
    && HasHistory(ws)
  }

  // ----- Publishing keeps the log -----

  /** What admission establishes about a commit that is not stored yet. */
  ghost predicate Admissible(ws: Workspace, n: PublishParams) {
    && n.kind.Some? && n.commitId != "" && n.commitId !in ws.commits
    && TextValue(ws.head) == n.expectedHead
    && n.author in ws.devices && 0 < n.deviceSeq && ws.devices[n.author].lastSeq < n.deviceSeq
    && ParentsValid(ws, n) && !HasDuplicate(n.parents)
    && (forall r :: r in n.refs ==> r in ws.objects)
    && Published(ws.objects, RowOf(n, 0))
  }

  lemma AdmittedIsAdmissible(cfg: Config, ws: Workspace, user: Uuid, n: PublishParams)
    requires Normal(n) && n.commitId !in ws.commits && Refusal(cfg, ws, user, n).None?
    ensures Admissible(ws, n)
  {
    hide NormalIds, Trimmed, IsDigest, Sorted, ParentsValid, HasCheckpointPack;
    ObjectsErrorIsExact(ws, n, 0);
  }

  lemma AddLinkObjects(links: set<Link>, link: Link, id: string)
    ensures LinkedObjects(AddLink(links, link), id)
         == LinkedObjects(links, id) + if link.commitId == id then {link.objectId} else {}
    ensures forall l :: l in AddLink(links, link) ==> l in links || l == link
  {
    if exists l :: l in links && l.commitId == link.commitId && l.objectId == link.objectId {
      var l :| l in links && l.commitId == link.commitId && l.objectId == link.objectId;
      assert l.commitId == id ==> l.objectId in LinkedObjects(links, id);
    } else {
      LinkedObjectsAdd(links, link, id);
    }
  }

  lemma {:induction false} AddRefLinksObjects(links: set<Link>, objects: map<string, SyncObject>, commitId: string,
                                              refs: seq<string>, id: string)
    requires forall r :: r in refs ==> r in objects
    ensures LinkedObjects(AddRefLinks(links, objects, commitId, refs), id)
         == LinkedObjects(links, id) + if commitId == id then (set r | r in refs) else {}
    ensures forall l :: l in AddRefLinks(links, objects, commitId, refs) ==>
      l in links || (l.commitId == commitId && l.objectId in refs && RoleFits(l.role, objects[l.objectId].kind))
    decreases refs
  {
    hide LinkedObjects, AddLink;
    if refs != [] {
      assert refs == [refs[0]] + refs[1..];
      var link := Link(commitId, refs[0], RoleOf(objects[refs[0]].kind));
      AddLinkObjects(links, link, id);
      AddRefLinksObjects(AddLink(links, link), objects, commitId, refs[1..], id);
    }
  }

  /** The links of the new commit are its body and references; the links of every other commit stay. */
  lemma AppendLinks(ws: Workspace, n: PublishParams, serverSeq: int, id: string)
    requires LinksKnown(ws) && Admissible(ws, n)
    ensures LinkedObjects(Append(ws, n, serverSeq).links, id)
         == if id == n.commitId then {n.body} + (set r | r in n.refs) else LinkedObjects(ws.links, id)
    ensures LinksKnown(Append(ws, n, serverSeq))
  {
    hide AddLink, AddRefLinks;
    var body := Link(n.commitId, n.body, BodyRole);
    AddLinkObjects(ws.links, body, id);
    AddRefLinksObjects(AddLink(ws.links, body), ws.objects, n.commitId, n.refs, id);
  }

  /** A commit on top of the head, or a genesis commit on an empty log, extends the walk by one. */
  lemma HistoryExtends(ws: Workspace, after: Workspace, h: seq<string>, id: string, c: Commit)
    requires IsHistory(ws, h) && id !in ws.commits && id != ""
    requires after.commits == ws.commits[id := c] && after.head == ToText(id) && after.headVersion == ws.headVersion + 1
    requires TextValue(c.expectedHead) == TextValue(ws.head)
    requires TextValue(ws.head) == "" ==> IsGenesis(c)
    requires forall k :: k in ws.commits ==> k != "" && ws.commits[k].serverSeq < c.serverSeq
    ensures IsHistory(after, [id] + h)
  {
    hide Falling, Chained;
    FallingExtends(ws.commits, h, id, c);
    ChainExtends(ws.commits, h, id, c);
    forall k | k in after.commits ensures k in [id] + h {
      assert k != id ==> k in h;
    }
  }

  lemma FallingExtends(commits: map<string, Commit>, h: seq<string>, id: string, c: Commit)
    requires Falling(commits, h) && id !in commits
    requires forall k :: k in commits ==> commits[k].serverSeq < c.serverSeq
    ensures Falling(commits[id := c], [id] + h)
  {
    var g := [id] + h;
    forall i, j | 0 <= i < j < |g| ensures commits[id := c][g[i]].serverSeq > commits[id := c][g[j]].serverSeq {
      assert g[j] == h[j - 1] && (i > 0 ==> g[i] == h[i - 1]);
    }
  }

  lemma ChainExtends(commits: map<string, Commit>, h: seq<string>, id: string, c: Commit)
    requires Falling(commits, h) && Chained(commits, h) && id !in commits
    requires Falling(commits[id := c], [id] + h)
    requires TextValue(c.expectedHead) == if h == [] then "" else h[0]
    requires h == [] ==> IsGenesis(c)
    ensures Chained(commits[id := c], [id] + h)
  {
    var g := [id] + h;
    assert g[|g| - 1] == if h == [] then id else h[|h| - 1];
    forall i | 0 < i < |g| ensures TextValue(commits[id := c][g[i - 1]].expectedHead) == g[i] {
      assert g[i] == h[i - 1];
      assert i > 1 ==> TextValue(commits[h[i - 2]].expectedHead) == h[i - 1];
    }
  }

  lemma AppendKeepsHistory(ws: Workspace, n: PublishParams, last: int, serverSeq: int)
    requires LogInv(ws, last) && last < serverSeq && Admissible(ws, n)
    ensures HasHistory(Append(ws, n, serverSeq))
  {
    hide ParentsOk, DeviceOrder, AddLink, AddRefLinks, Published, LinkedObjects;
    var h :| IsHistory(ws, h);
    var after := Append(ws, n, serverSeq);
    forall k | k in ws.commits ensures k != "" && ws.commits[k].serverSeq < serverSeq {
      assert CommitOk(ws, k);
    }
    hide IsHistory, CommitOk;
    HistoryExtends(ws, after, h, n.commitId, RowOf(n, serverSeq));
  }

  lemma RowHasShape(ws: Workspace, n: PublishParams, serverSeq: int)
    requires n.kind.Some? && ParentsValid(ws, n) && !HasDuplicate(n.parents)
    ensures ShapeOk(RowOf(n, serverSeq))
  {
  }

  lemma AppendKeepsCommit(ws: Workspace, n: PublishParams, serverSeq: int, id: string)
    requires LinksKnown(ws) && Admissible(ws, n)
    requires id in ws.commits ==> CommitOk(ws, id)
    requires id in ws.commits || id == n.commitId
    ensures CommitOk(Append(ws, n, serverSeq), id)
  {
    hide LinkedObjects, AddLink, AddRefLinks, ParentsValid, HasCheckpointPack, LinksKnown, ShapeOk;
    AppendLinks(ws, n, serverSeq, id);
    RowHasShape(ws, n, serverSeq);
  }

  lemma AppendKeepsParents(ws: Workspace, n: PublishParams, last: int, serverSeq: int)
    requires LogInv(ws, last) && last < serverSeq && Admissible(ws, n)
    ensures AllParentsOk(Append(ws, n, serverSeq))
  {
    hide LinkedObjects, AddLink, AddRefLinks, HasHistory, Published, DeviceOrder, LinksKnown;
    var after := Append(ws, n, serverSeq);
    forall id | id in after.commits ensures ParentsOk(after, id) {
      if id != n.commitId {
        assert ParentsOk(ws, id);
      } else {
        forall p | p in n.parents ensures Known(after.commits, p) && after.commits[p].serverSeq < serverSeq {
          assert CommitOk(ws, p);
        }
      }
    }
  }

  lemma AppendKeepsOrder(ws: Workspace, n: PublishParams, last: int, serverSeq: int)
    requires LogInv(ws, last) && 0 <= last < serverSeq && Admissible(ws, n)
    ensures DeviceOrder(Append(ws, n, serverSeq).commits)
    ensures SeqsBelow(Append(ws, n, serverSeq).commits, serverSeq)
  {
    hide LinkedObjects, AddLink, AddRefLinks, HasHistory, Published, ParentsOk, LinksKnown, ParentsValid;
    forall a | a in ws.commits ensures ws.commits[a].author == n.author ==> ws.commits[a].deviceSeq < n.deviceSeq {
      assert CommitOk(ws, a);
    }
  }

  lemma AppendKeepsLinksTyped(ws: Workspace, n: PublishParams, serverSeq: int)
    requires LinksTyped(ws) && Admissible(ws, n)
    ensures LinksTyped(Append(ws, n, serverSeq))
  {
    hide AddLink, AddRefLinks, ParentsValid, HasCheckpointPack, RoleFits;
    var body := Link(n.commitId, n.body, BodyRole);
    AddLinkObjects(ws.links, body, n.commitId);
    AddRefLinksObjects(AddLink(ws.links, body), ws.objects, n.commitId, n.refs, n.commitId);
    BodyFits();
  }

  lemma BodyFits()
    ensures RoleFits(BodyRole, CommitBody)
  {
  }

  lemma AppendKeepsCursors(ws: Workspace, n: PublishParams, last: int, serverSeq: int)
    requires CursorsOk(ws) && SeqsBelow(ws.commits, last) && last < serverSeq && Admissible(ws, n)
    ensures CursorsOk(Append(ws, n, serverSeq))
  {
    hide AddLink, AddRefLinks, ParentsValid, Published;
    var after := Append(ws, n, serverSeq);
    forall d: Uuid ensures CursorOk(after, d) {
      assert CursorOk(ws, d);
    }
  }

  lemma AppendKeepsDevices(ws: Workspace, n: PublishParams, serverSeq: int)
    requires DevicesOk(ws) && Admissible(ws, n)
    ensures DevicesOk(Append(ws, n, serverSeq))
  {
    hide AddLink, AddRefLinks, ParentsValid, Published;
  }

  /** An admitted commit extends the log and keeps every property of it. */
  lemma AppendKeepsLog(ws: Workspace, n: PublishParams, last: int, serverSeq: int)
    requires LogInv(ws, last) && 0 <= last < serverSeq && Admissible(ws, n)
    ensures LogInv(Append(ws, n, serverSeq), serverSeq)
  {
    hide CommitOk, ParentsOk, DeviceOrder, SeqsBelow, LinksKnown, LinksTyped, DevicesOk, CursorOk, HasHistory,
         ParentsValid, Published, AddRefLinks, AddLink;
    AppendKeepsLinksTyped(ws, n, serverSeq);
    AppendKeepsCursors(ws, n, last, serverSeq);
    AppendKeepsDevices(ws, n, serverSeq);
    AppendKeepsHistory(ws, n, last, serverSeq);
    AppendKeepsParents(ws, n, last, serverSeq);
    AppendKeepsOrder(ws, n, last, serverSeq);
    AppendLinks(ws, n, serverSeq, n.commitId);
    var after := Append(ws, n, serverSeq);
    forall id | id in after.commits ensures CommitOk(after, id) {
      AppendKeepsCommit(ws, n, serverSeq, id);
    }
  }

  // ----- What the log looks like -----

  /** Every commit of the workspace is reachable from the head through parents. */
  lemma AllReachable(ws: Workspace, last: int, h: seq<string>, i: nat)
    requires LogInv(ws, last) && IsHistory(ws, h) && i < |h|
    ensures Reaches(ws.commits, TextValue(ws.head), h[i])
  {
    hide CommitOk, ParentsOk, DeviceOrder, LinksKnown;
    HistoryPath(ws, last, h, i);
    assert PathBetween(ws.commits, h[..i + 1], h[0], h[i]);
  }

  /** Each commit of the walk is known, and a parent of the one before it. */
  lemma HistoryLink(ws: Workspace, last: int, h: seq<string>, i: nat)
    requires LogInv(ws, last) && IsHistory(ws, h) && i < |h|
    ensures Known(ws.commits, h[i])
    ensures i > 0 ==> h[i - 1] in ws.commits && h[i] in ws.commits[h[i - 1]].parents
  {
    hide LinkedObjects, Published, DeviceOrder, SeqsBelow, LinksKnown, HasHistory, IsGenesis;
    assert CommitOk(ws, h[i]);
    if i > 0 {
      assert ParentsOk(ws, h[i - 1]);
    }
  }

  lemma PathExtends(commits: map<string, Commit>, p: seq<string>, c: string)
    requires IsPath(commits, p) && Known(commits, c) && c in commits[p[|p| - 1]].parents
    ensures IsPath(commits, p + [c])
  {
  }

  lemma {:induction false} HistoryPath(ws: Workspace, last: int, h: seq<string>, i: nat)
    requires LogInv(ws, last) && IsHistory(ws, h) && i < |h|
    ensures IsPath(ws.commits, h[..i + 1])
  {
    hide LogInv, IsHistory;
    HistoryLink(ws, last, h, i);
    if i > 0 {
      HistoryPath(ws, last, h, i - 1);
      PathExtends(ws.commits, h[..i], h[i]);
      assert h[..i + 1] == h[..i] + [h[i]];
    } else {
      assert h[..1] == [h[0]];
    }
  }

  /** Along parents the server sequence falls strictly, so the parent graph has no cycle. */
  lemma {:induction false} ParentsDescend(ws: Workspace, p: seq<string>, k: nat)
    requires AllParentsOk(ws) && IsPath(ws.commits, p) && 0 < k < |p|
    ensures ws.commits[p[k]].serverSeq < ws.commits[p[0]].serverSeq
  {
    assert ParentsOk(ws, p[k - 1]);
    if k > 1 {
      ParentsDescend(ws, p, k - 1);
    }
  }

  /** The newest-first listing of the commits is the walk from the head. */
  lemma ListingIsHistory(ws: Workspace, h: seq<string>, rows: seq<string>)
    requires IsHistory(ws, h) && ListedDesc(ws.commits, rows)
    ensures rows == h
  {
    forall i, j | 0 <= i < j < |rows|
      ensures ws.commits[rows[i]].serverSeq > ws.commits[rows[j]].serverSeq
    {
      var a :| 0 <= a < |h| && h[a] == rows[i];
      var b :| 0 <= b < |h| && h[b] == rows[j];
    }
    forall c ensures c in rows <==> c in h {
    }
    FallingListsAgree(ws.commits, rows, h);
  }

  lemma {:induction false} FallingListsAgree(commits: map<string, Commit>, s: seq<string>, t: seq<string>)
    requires Falling(commits, s) && Falling(commits, t)
    requires forall c :: c in s <==> c in t
    ensures s == t
  {
    assert (s == [] || s[0] in s) && (t == [] || t[0] in t);
    if s != [] && t != [] {
      var i :| 0 <= i < |t| && t[i] == s[0];
      var j :| 0 <= j < |s| && s[j] == t[0];
      assert s[0] == t[0];
      assert s[0] !in s[1..] && t[0] !in t[1..];
      forall c ensures c in s[1..] <==> c in t[1..] {
        assert s == [s[0]] + s[1..] && t == [t[0]] + t[1..];
        assert c in s <==> c == s[0] || c in s[1..];
        assert c in t <==> c == t[0] || c in t[1..];
      }
      FallingListsAgree(commits, s[1..], t[1..]);
      assert s == [s[0]] + s[1..] && t == [t[0]] + t[1..];
    }
  }

  lemma AllCommitsReachable(ws: Workspace, last: int, h: seq<string>)
    requires LogInv(ws, last) && IsHistory(ws, h)
    ensures ReachableSet(ws.commits, TextValue(ws.head)) == ws.commits.Keys
  {
    hide CommitOk, ParentsOk, DeviceOrder, LinksKnown, Reaches;
    forall c | c in ws.commits ensures Reaches(ws.commits, TextValue(ws.head), c) {
      var i :| 0 <= i < |h| && h[i] == c;
      AllReachable(ws, last, h, i);
    }
  }

  lemma SplitAt(h: seq<string>, k: nat, i: nat, c: string)
    requires k < |h| && i < |h| && h[i] == c && forall a, b :: 0 <= a < b < |h| ==> h[a] != h[b]
    ensures c in h[..k + 1] <==> i <= k
    ensures c in h[k + 1..] <==> i > k
  {
    if i <= k {
      assert h[..k + 1][i] == c;
    } else {
      assert h[k + 1..][i - k - 1] == c;
    }
  }

  /** Of a falling list, the old history is what lies behind the checkpoint. */
  lemma {:induction false} OldHistoryIsSuffix(ws: Workspace, rows: seq<string>, k: nat, info: CheckpointInfo, i: nat)
    requires Falling(ws.commits, rows) && i <= |rows| && k < |rows|
    requires info.serverSeq == ws.commits[rows[k]].serverSeq
    requires forall c :: c in rows ==> Reaches(ws.commits, TextValue(ws.head), c)
    ensures OldHistory(ws, Some(info), rows[i..]) == rows[if i <= k then k + 1 else i..]
    decreases |rows| - i
  {
    hide Reaches, OldHistory, Falling;
    FallingAt(ws.commits, rows, k, i);
    OldHistoryUnfolds(ws, Some(info), rows, i);
    if i < |rows| {
      OldHistoryIsSuffix(ws, rows, k, info, i + 1);
    }
  }

  lemma FallingAt(commits: map<string, Commit>, rows: seq<string>, k: nat, i: nat)
    requires Falling(commits, rows) && k < |rows| && i <= |rows|
    ensures i < |rows| ==> rows[i] in rows && (commits[rows[i]].serverSeq < commits[rows[k]].serverSeq <==> i > k)
    ensures forall j :: 0 <= j < |rows| ==> rows[j] in commits
    ensures i < |rows| ==> rows[i..] == [rows[i]] + rows[i + 1..]
  {
  }

  lemma OldHistoryUnfolds(ws: Workspace, latest: Option<CheckpointInfo>, rows: seq<string>, i: nat)
    requires i <= |rows| && latest.Some? && forall j :: 0 <= j < |rows| ==> rows[j] in ws.commits
    ensures OldHistory(ws, latest, rows[i..]) ==
      if i == |rows| then []
      else
        (if Reaches(ws.commits, TextValue(ws.head), rows[i])
            && ws.commits[rows[i]].serverSeq < latest.value.serverSeq then [rows[i]] else [])
        + OldHistory(ws, latest, rows[i + 1..])
  {
    hide Reaches;
    if i < |rows| {
      assert rows[i..][1..] == rows[i + 1..];
    }
  }

  /** On a log, what garbage collection preserves is the expected-head chain from the head down to the
      newest checkpoint inclusive; the rest is exactly the old reachable history. */
  lemma GraphOfLog(ws: Workspace, last: int, h: seq<string>, rows: seq<string>) returns (k: nat)
    requires LogInv(ws, last) && IsHistory(ws, h) && ListedDesc(ws.commits, rows) && h != []
    ensures k < |h| && ws.commits[h[k]].kind == Checkpoint
    ensures forall i :: 0 <= i < k ==> ws.commits[h[i]].kind != Checkpoint
    ensures LatestCheckpoint(ws.commits, rows) == Some(CheckpointInfo(h[k], ws.commits[h[k]].serverSeq))
    ensures ReachableSet(ws.commits, TextValue(ws.head)) == ws.commits.Keys
    ensures forall c :: c in PreservedCommits(ws, LatestCheckpoint(ws.commits, rows)) <==> c in h[..k + 1]
    ensures OldHistory(ws, LatestCheckpoint(ws.commits, rows), rows) == h[k + 1..]
  {
    hide LogInv, LatestCheckpoint, OldHistory, Reaches;
    ListingIsHistory(ws, h, rows);
    k := LatestCheckpointAt(ws.commits, rows);
    assert ws.commits[h[|h| - 1]].kind == Checkpoint;
    AllCommitsReachable(ws, last, h);
    var latest := LatestCheckpoint(ws.commits, rows);
    assert rows[0..] == rows;
    forall c | c in rows ensures Reaches(ws.commits, TextValue(ws.head), c) {
      assert c in ReachableSet(ws.commits, TextValue(ws.head));
    }
    OldHistoryIsSuffix(ws, rows, k, latest.value, 0);
    forall c ensures c in PreservedCommits(ws, latest) <==> c in h[..k + 1] {
      if c in ws.commits {
        assert c in ReachableSet(ws.commits, TextValue(ws.head));
        var i :| 0 <= i < |h| && h[i] == c;
        SplitAt(h, k, i, c);
        assert ws.commits[c].serverSeq >= ws.commits[h[k]].serverSeq <==> i <= k;
      }
    }
  }
}
