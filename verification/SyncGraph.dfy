/** The reachable graph garbage collection reports, and the walk over parents that builds it. */
module SyncGraph {
  import opened Wrappers
  import opened SyncTypes

  datatype CheckpointInfo = CheckpointInfo(commitId: string, serverSeq: int)

  /** The empty id is "no commit" even if a row carried it. */
  predicate Known(commits: map<string, Commit>, id: string) {
    id != "" && id in commits
  }

  ghost predicate IsPath(commits: map<string, Commit>, p: seq<string>) {
    && p != []
    && (forall i :: 0 <= i < |p| ==> Known(commits, p[i]))
    && (forall i :: 0 < i < |p| ==> p[i] in commits[p[i - 1]].parents)
  }

  ghost predicate PathBetween(commits: map<string, Commit>, p: seq<string>, from: string, to: string) {
    IsPath(commits, p) && p[0] == from && p[|p| - 1] == to
  }

  /** There is a chain of parent links from one known commit to another. */
  ghost predicate Reaches(commits: map<string, Commit>, from: string, to: string) {
    exists p :: PathBetween(commits, p, from, to)
  }

  ghost function ReachableSet(commits: map<string, Commit>, from: string): set<string> {
    set c | c in commits && Reaches(commits, from, c)
  }

  /** Every known parent of a member is a member. */
  ghost predicate ClosedUnderParents(commits: map<string, Commit>, s: set<string>) {
    forall c, p :: c in s && c in commits && p in commits[c].parents && Known(commits, p) ==> p in s
  }

  lemma ReachesSelf(commits: map<string, Commit>, c: string)
    requires Known(commits, c)
    ensures Reaches(commits, c, c)
  {
    assert PathBetween(commits, [c], c, c);
  }

  lemma ReachesStep(commits: map<string, Commit>, from: string, via: string, to: string)
    requires Known(commits, from) && via in commits[from].parents && Reaches(commits, via, to)
    ensures Reaches(commits, from, to)
  {
    var p :| PathBetween(commits, p, via, to);
    assert PathBetween(commits, [from] + p, from, to);
  }

  lemma {:induction false} ClosedSetHoldsPath(commits: map<string, Commit>, s: set<string>, p: seq<string>, k: nat)
    requires ClosedUnderParents(commits, s) && IsPath(commits, p) && p[0] in s && k < |p|
    ensures p[k] in s
  {
    if k > 0 {
      ClosedSetHoldsPath(commits, s, p, k - 1);
    }
  }

  /** A set that is closed, contains the start and holds only reachable commits is the reachable set. */
  lemma ClosedReachableIsExact(commits: map<string, Commit>, from: string, s: set<string>)
    requires ClosedUnderParents(commits, s) && s <= commits.Keys
    requires Known(commits, from) ==> from in s
    requires forall c :: c in s ==> Reaches(commits, from, c)
    ensures s == ReachableSet(commits, from)
  {
    forall c | c in commits && Reaches(commits, from, c) ensures c in s {
      var p :| PathBetween(commits, p, from, c);
      ClosedSetHoldsPath(commits, s, p, |p| - 1);
    }
  }

  /** The answer of ListSyncCommitsByWorkspaceDesc. */
  ghost predicate ListedDesc(commits: map<string, Commit>, rows: seq<string>) {
    && (forall i :: 0 <= i < |rows| ==> rows[i] in commits)
    && (forall c :: c in commits ==> c in rows)
    && (forall i, j :: 0 <= i < j < |rows| ==> rows[i] != rows[j])
    && (forall i, j :: 0 <= i < j < |rows| ==> commits[rows[i]].serverSeq >= commits[rows[j]].serverSeq)
  }

  /** latestCheckpointFromCommits: the first checkpoint of the listing. */
  function LatestCheckpoint(commits: map<string, Commit>, rows: seq<string>): (r: Option<CheckpointInfo>)
    requires forall i :: 0 <= i < |rows| ==> rows[i] in commits
  {
    if rows == [] then None
    else if commits[rows[0]].kind == Checkpoint then Some(CheckpointInfo(rows[0], commits[rows[0]].serverSeq))
    else LatestCheckpoint(commits, rows[1..])
  }

  lemma {:induction false} LatestCheckpointAt(commits: map<string, Commit>, rows: seq<string>) returns (k: nat)
    requires forall i :: 0 <= i < |rows| ==> rows[i] in commits
    ensures k <= |rows| && forall i :: 0 <= i < k ==> commits[rows[i]].kind != Checkpoint
    ensures k == |rows| <==> LatestCheckpoint(commits, rows).None?
    ensures k < |rows| ==> commits[rows[k]].kind == Checkpoint
    ensures k < |rows| ==> LatestCheckpoint(commits, rows) == Some(CheckpointInfo(rows[k], commits[rows[k]].serverSeq))
  {
    if rows == [] || commits[rows[0]].kind == Checkpoint {
      k := 0;
    } else {
      k := LatestCheckpointAt(commits, rows[1..]);
      k := k + 1;
    }
  }

  /** The listing's first checkpoint is the checkpoint with the largest server sequence. */
  lemma LatestCheckpointIsNewest(commits: map<string, Commit>, rows: seq<string>)
    requires ListedDesc(commits, rows)
    ensures LatestCheckpoint(commits, rows).None? <==> forall c :: c in commits ==> commits[c].kind != Checkpoint
    ensures LatestCheckpoint(commits, rows).Some? ==>
              var info := LatestCheckpoint(commits, rows).value;
              && info.commitId in commits && commits[info.commitId].kind == Checkpoint
              && info.serverSeq == commits[info.commitId].serverSeq
              && forall c :: c in commits && commits[c].kind == Checkpoint ==> commits[c].serverSeq <= info.serverSeq
  {
    var k := LatestCheckpointAt(commits, rows);
    forall c | c in commits && commits[c].kind == Checkpoint
      ensures k < |rows| && commits[c].serverSeq <= commits[rows[k]].serverSeq
    {
      var j :| 0 <= j < |rows| && rows[j] == c;
    }
  }

  /** Body, references and links of one commit. */
  ghost function CommitObjects(ws: Workspace, id: string): set<string>
    requires id in ws.commits
  {
    LinkedObjects(ws.links, id) + FieldObjects(ws.commits[id])
  }

  ghost function LinkedObjects(links: set<Link>, id: string): set<string> {
    set l | l in links && l.commitId == id :: l.objectId
  }

  ghost function FieldObjects(c: Commit): set<string> {
    (if c.body != "" then {c.body} else {}) + (set r | r in c.refs && r != "")
  }

  ghost function ObjectsOfAll(ws: Workspace, ids: set<string>): set<string> {
    set c, o | c in ids && c in ws.commits && o in CommitObjects(ws, c) :: o
  }

  ghost function PreservedCommits(ws: Workspace, latest: Option<CheckpointInfo>): set<string> {
    match latest
    case Some(info) => set c | c in ws.commits && ws.commits[c].serverSeq >= info.serverSeq
    case None => ReachableSet(ws.commits, TextValue(ws.head))
  }

  ghost function OldHistory(ws: Workspace, latest: Option<CheckpointInfo>, rows: seq<string>): seq<string>
    requires forall i :: 0 <= i < |rows| ==> rows[i] in ws.commits
  {
    if rows == [] || latest.None? then [] else
      (if Reaches(ws.commits, TextValue(ws.head), rows[0]) && ws.commits[rows[0]].serverSeq < latest.value.serverSeq
       then [rows[0]] else [])
      + OldHistory(ws, latest, rows[1..])
  }

  lemma {:induction false} OldHistoryAppend(ws: Workspace, latest: Option<CheckpointInfo>, rows: seq<string>, c: string)
    requires forall i :: 0 <= i < |rows| ==> rows[i] in ws.commits
    requires c in ws.commits
    ensures OldHistory(ws, latest, rows + [c]) == OldHistory(ws, latest, rows) + OldHistory(ws, latest, [c])
  {
    if rows == [] {
      assert rows + [c] == [c];
    } else {
      assert (rows + [c])[1..] == rows[1..] + [c];
      OldHistoryAppend(ws, latest, rows[1..], c);
    }
  }

  class SyncReachableGraph {
    var commitIds: set<string>
    var objectIds: set<string>
    var preservedCommitIds: set<string>
    var preservedObjectIds: set<string>
    var latestCheckpoint: Option<CheckpointInfo>
    var oldHistory: seq<string>

    constructor ()
      ensures commitIds == {} && objectIds == {} && preservedCommitIds == {} && preservedObjectIds == {}
      ensures latestCheckpoint == None && oldHistory == []
    {
      commitIds, objectIds, preservedCommitIds, preservedObjectIds := {}, {}, {}, {};
      latestCheckpoint, oldHistory := None, [];
    }

    /** Depth-first walk over parents. It ends on every parent graph, cyclic ones included: it marks a
        commit before it descends. New marks are reachable from the start and closed under known parents. */
    method VisitReachableCommits(commitId: string, commits: map<string, Commit>)
      requires commitIds <= commits.Keys
      modifies this`commitIds
      ensures old(commitIds) <= commitIds <= commits.Keys
      ensures Known(commits, commitId) ==> commitId in commitIds
      ensures forall c :: c in commitIds - old(commitIds) ==> Reaches(commits, commitId, c)
      ensures forall c, p :: c in commitIds - old(commitIds) && p in commits[c].parents && Known(commits, p) ==>
        p in commitIds
      decreases commits.Keys - commitIds
    {
      if !Known(commits, commitId) || commitId in commitIds {
        return;
      }
      ghost var before := commitIds;
      commitIds := commitIds + {commitId};
      ReachesSelf(commits, commitId);
      var parents := commits[commitId].parents;
      for i := 0 to |parents|
        invariant before + {commitId} <= commitIds <= commits.Keys
        invariant forall k :: 0 <= k < i && Known(commits, parents[k]) ==> parents[k] in commitIds
        invariant forall c :: c in commitIds - before ==> Reaches(commits, commitId, c)
        invariant forall c, p | c in commitIds - before - {commitId} && p in commits[c].parents && Known(commits, p) ::
                    p in commitIds
      {
        ghost var marked := commitIds;
        VisitReachableCommits(parents[i], commits);
        forall c | c in commitIds - marked ensures Reaches(commits, commitId, c) {
          ReachesStep(commits, commitId, parents[i], c);
        }
      }
    }

    /** From no marks at all, the walk marks exactly the commits reachable from its start. */
    method CollectReachable(head: string, commits: map<string, Commit>)
      requires commitIds == {}
      modifies this`commitIds
      ensures commitIds == ReachableSet(commits, head)
    {
      VisitReachableCommits(head, commits);
      ClosedReachableIsExact(commits, head, commitIds);
    }

    /** buildReachableObjectGraph on the rows of one workspace, listed newest first. */
    method Build(ws: Workspace, rows: seq<string>)
      requires ListedDesc(ws.commits, rows)
      requires commitIds == {} && objectIds == {} && preservedCommitIds == {} && preservedObjectIds == {}
        && oldHistory == []
      modifies this
      ensures latestCheckpoint == LatestCheckpoint(ws.commits, rows)
      ensures commitIds == ReachableSet(ws.commits, TextValue(ws.head))
      ensures objectIds == ObjectsOfAll(ws, commitIds)
      ensures preservedCommitIds == PreservedCommits(ws, latestCheckpoint)
      ensures preservedObjectIds == ObjectsOfAll(ws, preservedCommitIds)
      ensures oldHistory == OldHistory(ws, latestCheckpoint, rows)
    {
      var objectsByCommit := IndexObjects(ws, rows);
      latestCheckpoint := FindLatestCheckpoint(ws.commits, rows);
      CollectReachable(TextValue(ws.head), ws.commits);
      objectIds := UnionOver(ws, objectsByCommit, commitIds);
      if latestCheckpoint.Some? {
        CollectPreserved(ws, rows);
        preservedObjectIds := UnionOver(ws, objectsByCommit, preservedCommitIds);
        CollectOldHistory(ws, rows);
      } else {
        preservedCommitIds := commitIds;
        preservedObjectIds := objectIds;
      }
    }

    method CollectPreserved(ws: Workspace, rows: seq<string>)
      requires ListedDesc(ws.commits, rows) && latestCheckpoint.Some? && preservedCommitIds == {}
      modifies this`preservedCommitIds
      ensures preservedCommitIds == PreservedCommits(ws, latestCheckpoint)
    {
      var floor := latestCheckpoint.value.serverSeq;
      for i := 0 to |rows|
        invariant forall c :: c in preservedCommitIds <==> c in rows[..i] && ws.commits[c].serverSeq >= floor
      {
        assert rows[..i + 1] == rows[..i] + [rows[i]];
        if ws.commits[rows[i]].serverSeq >= floor {
          preservedCommitIds := preservedCommitIds + {rows[i]};
        }
      }
      assert rows[..|rows|] == rows;
    }

    method CollectOldHistory(ws: Workspace, rows: seq<string>)
      requires ListedDesc(ws.commits, rows) && latestCheckpoint.Some? && oldHistory == []
      requires commitIds == ReachableSet(ws.commits, TextValue(ws.head))
      modifies this`oldHistory
      ensures oldHistory == OldHistory(ws, latestCheckpoint, rows)
    {
      hide Reaches;
      for i := 0 to |rows|
        invariant oldHistory == OldHistory(ws, latestCheckpoint, rows[..i])
      {
        OldHistoryAppend(ws, latestCheckpoint, rows[..i], rows[i]);
        assert rows[..i + 1] == rows[..i] + [rows[i]];
        if rows[i] in commitIds && ws.commits[rows[i]].serverSeq < latestCheckpoint.value.serverSeq {
          oldHistory := oldHistory + [rows[i]];
        }
      }
      assert rows[..|rows|] == rows;
    }
  }

  /** The first checkpoint of the listing, by the early-return loop of the source. */
  method FindLatestCheckpoint(commits: map<string, Commit>, rows: seq<string>) returns (r: Option<CheckpointInfo>)
    requires forall i :: 0 <= i < |rows| ==> rows[i] in commits
    ensures r == LatestCheckpoint(commits, rows)
  {
    for i := 0 to |rows|
      invariant LatestCheckpoint(commits, rows) == LatestCheckpoint(commits, rows[i..])
    {
      if commits[rows[i]].kind == Checkpoint {
        return Some(CheckpointInfo(rows[i], commits[rows[i]].serverSeq));
      }
    }
    return None;
  }

  function Indexed(index: map<string, set<string>>, id: string): set<string> {
    if id in index then index[id] else {}
  }

  lemma LinkedObjectsAdd(links: set<Link>, link: Link, id: string)
    ensures LinkedObjects(links + {link}, id)
         == LinkedObjects(links, id) + if link.commitId == id then {link.objectId} else {}
  {
  }

  method IndexLinks(links: set<Link>) returns (index: map<string, set<string>>)
    ensures forall c :: Indexed(index, c) == LinkedObjects(links, c)
  {
    index := map[];
    var rest := links;
    while rest != {}
      invariant rest <= links
      invariant forall c :: Indexed(index, c) == LinkedObjects(links - rest, c)
      decreases rest
    {
      var link :| link in rest;
      ghost var done, before := links - rest, index;
      index := index[link.commitId := Indexed(index, link.commitId) + {link.objectId}];
      rest := rest - {link};
      assert links - rest == done + {link};
      forall c ensures Indexed(index, c) == LinkedObjects(links - rest, c) {
        assert Indexed(before, c) == LinkedObjects(done, c);
        LinkedObjectsAdd(done, link, c);
      }
    }
    assert links - rest == links;
  }

  /** objectsByCommit: the links first, then the fields of every listed commit. */
  method IndexObjects(ws: Workspace, rows: seq<string>) returns (index: map<string, set<string>>)
    requires ListedDesc(ws.commits, rows)
    ensures forall c :: c in ws.commits ==> c in index && index[c] == CommitObjects(ws, c)
  {
    hide LinkedObjects, FieldObjects;
    index := IndexLinks(ws.links);
    for i := 0 to |rows|
      invariant forall k :: 0 <= k < i ==> rows[k] in index && index[rows[k]] == CommitObjects(ws, rows[k])
      invariant forall k :: i <= k < |rows| ==> Indexed(index, rows[k]) == LinkedObjects(ws.links, rows[k])
    {
      index := AddCommitFieldObjects(index, rows[i], ws.commits[rows[i]]);
    }
  }

  method AddCommitFieldObjects(index: map<string, set<string>>, id: string, c: Commit)
    returns (out: map<string, set<string>>)
    ensures out == index[id := Indexed(index, id) + FieldObjects(c)]
  {
    var objects := Indexed(index, id);
    if c.body != "" {
      objects := objects + {c.body};
    }
    ghost var withBody := objects;
    for i := 0 to |c.refs|
      invariant objects == withBody + set k | 0 <= k < i && c.refs[k] != "" :: c.refs[k]
    {
      if c.refs[i] != "" {
        objects := objects + {c.refs[i]};
      }
    }
    assert objects == Indexed(index, id) + FieldObjects(c);
    out := index[id := objects];
  }

  /** The union of the indexed objects over a set of commits. */
  method UnionOver(ws: Workspace, index: map<string, set<string>>, ids: set<string>) returns (objects: set<string>)
    requires forall c :: c in ws.commits ==> c in index && index[c] == CommitObjects(ws, c)
    requires ids <= ws.commits.Keys
    ensures objects == ObjectsOfAll(ws, ids)
  {
    objects := {};
    var rest := ids;
    while rest != {}
      invariant rest <= ids
      invariant objects == ObjectsOfAll(ws, ids - rest)
      decreases rest
    {
      var c :| c in rest;
      ghost var done := ids - rest;
      objects := objects + index[c];
      rest := rest - {c};
      assert ids - rest == done + {c};
    }
    assert ids - rest == ids;
  }
}
