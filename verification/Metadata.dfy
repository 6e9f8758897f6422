/** The metadata manager: every change of a row, each one atomic. */
module Metadata {
  import opened Base
  import opened Tables

  /** A successful commit: what the caller expected, the number that was current, and the new one. */
  datatype Commit = Commit(owner: ObjectId, expected: Option<int>, before: nat, number: nat)

  // ----- Pure helpers of the manager

  function LowerHex(c: char): char {
    if 'A' <= c <= 'F' then 'a' + (c - 'A') else c
  }

  function Lower(s: string): string {
    seq(|s|, i requires 0 <= i < |s| => LowerHex(s[i]))
  }

  /** `_validate_checksum`: 64 hexadecimal characters of either case, normalised to lower case. */
  function ValidateChecksum(s: string): (r: Result<string, VaultError>)
    ensures r.Ok? ==> IsSha256(r.value)
    ensures IsSha256(s) ==> r == Ok(s)
  {
    var n := Lower(s);
    if IsSha256(n) then
      assert IsSha256(s) ==> n == s;
      Ok(n)
    else
      assert IsSha256(s) ==> n == s;
      Err(ValueError)
  }

  predicate ExpectedMatches(expected: Option<int>, current: nat) {
    expected.None? || expected.value == current
  }

  /** The number of the current version; a brand-new object counts as 0. */
  function CurrentNumber(db: Tables, o: ObjectId): nat {
    if o in db.objects && db.objects[o].current.Some? && db.objects[o].current.value in db.versions
    then db.versions[db.objects[o].current.value].number
    else 0
  }

  predicate CanCommit(db: Tables, v: VersionId, expected: Option<int>) {
    && v in db.versions && db.versions[v].owner in db.objects
    && ExpectedMatches(expected, CurrentNumber(db, db.versions[v].owner))
    && db.versions[v].state == Preparing
    && db.versions[v].number > CurrentNumber(db, db.versions[v].owner)
  }

  function AfterCommit(db: Tables, v: VersionId): Tables
    requires v in db.versions && db.versions[v].owner in db.objects
  {
    var version := db.versions[v];
    db.(versions := db.versions[v := version.(state := Committed)],
        objects := db.objects[version.owner := db.objects[version.owner].(current := Some(v), state := Active)])
  }

  predicate CanSet(replicas: map<ReplicaId, Replica>, r: ReplicaId, state: ReplicaState) {
    r in replicas && (replicas[r].status == state || state in ReplicaEdges(replicas[r].status))
  }

  function WithStatus(replicas: map<ReplicaId, Replica>, r: ReplicaId, state: ReplicaState): map<ReplicaId, Replica>
    requires r in replicas
  {
    replicas[r := replicas[r].(status := state)]
  }

  /** A measurement agrees with the version that a row belongs to. */
  predicate Matches(db: Tables, r: ReplicaId, checksum: string, size: int) {
    && r in db.replicas && db.replicas[r].version in db.versions
    && ValidateChecksum(checksum) == Ok(db.versions[db.replicas[r].version].checksum)
    && size == db.versions[db.replicas[r].version].size
  }

  predicate CanMarkHealthy(db: Tables, r: ReplicaId, checksum: string, size: int) {
    Matches(db, r, checksum, size) && db.replicas[r].status in {Copying, Repairing}
  }

  function AfterHealthy(db: Tables, r: ReplicaId): Tables
    requires r in db.replicas && db.replicas[r].version in db.versions
  {
    var row := db.replicas[r];
    var version := db.versions[row.version];
    db.(replicas := db.replicas[r := row.(status := Healthy, checksum := Some(version.checksum),
                                          size := Some(version.size))])
  }

  // ----- What operations keep, on values

  /** Only rows change, and each stays good. */
  lemma ReplicasChanged(db: Tables, replicas: map<ReplicaId, Replica>)
    requires Consistent(db)
    requires forall r :: ReplicaOk(db.(replicas := replicas), r)
    requires forall r, s :: RowOk(replicas, r, s)
    ensures Consistent(db.(replicas := replicas))
  {
    var db' := db.(replicas := replicas);
    forall j ensures RepairOk(db', j) {
      assert RepairOk(db, j);
    }
    forall j ensures RebalanceOk(db', j) {
      assert RebalanceOk(db, j);
    }
  }

  /** One row is rewritten in place. */
  lemma RowChanged(db: Tables, r: ReplicaId, row: Replica)
    requires Consistent(db)
    requires r in db.replicas && row.version == db.replicas[r].version && row.node == db.replicas[r].node
    requires row.status == Healthy ==>
               row.version in db.versions && row.checksum == Some(db.versions[row.version].checksum)
                                       && row.size == Some(db.versions[row.version].size)
    ensures Consistent(db.(replicas := db.replicas[r := row]))
  {
    var db' := db.(replicas := db.replicas[r := row]);
    assert ReplicaOk(db, r);
    forall s ensures ReplicaOk(db', s) {
      assert ReplicaOk(db, s);
    }
    forall s, t ensures RowOk(db'.replicas, s, t) {
      assert RowOk(db.replicas, s, t);
    }
    ReplicasChanged(db, db'.replicas);
  }

  lemma RowAdded(db: Tables, r: ReplicaId, v: VersionId, n: NodeId)
    requires Consistent(db)
    requires r !in db.replicas && v in db.versions && n in db.nodes && !HasRow(db.replicas, v, n)
    ensures Consistent(db.(replicas := db.replicas[r := Replica(v, n, Pending, None, None)]))
  {
    var db' := db.(replicas := db.replicas[r := Replica(v, n, Pending, None, None)]);
    forall s ensures ReplicaOk(db', s) {
      assert ReplicaOk(db, s);
    }
    forall s, t ensures RowOk(db'.replicas, s, t) {
      assert RowOk(db.replicas, s, t);
      assert !IsRow(db.replicas, s, v, n) && !IsRow(db.replicas, t, v, n);
    }
    ReplicasChanged(db, db'.replicas);
  }

  lemma RowRemoved(db: Tables, r: ReplicaId)
    requires Consistent(db)
    ensures Consistent(db.(replicas := db.replicas - {r}))
  {
    var db' := db.(replicas := db.replicas - {r});
    forall s ensures ReplicaOk(db', s) {
      assert ReplicaOk(db, s);
    }
    forall s, t ensures RowOk(db'.replicas, s, t) {
      assert RowOk(db.replicas, s, t);
    }
    ReplicasChanged(db, db'.replicas);
  }

  /** A node row changes but stays within its capacity. */
  lemma NodeChanged(db: Tables, n: NodeId, node: Node)
    requires Consistent(db)
    requires n != "" && node.used <= node.capacity
    requires if n in db.nodes then node.address == db.nodes[n].address
             else forall k :: k in db.nodes ==> db.nodes[k].address != node.address
    ensures Consistent(db.(nodes := db.nodes[n := node]))
  {
    var db' := db.(nodes := db.nodes[n := node]);
    forall k, l ensures AddressOk(db'.nodes, k, l) {
      assert AddressOk(db.nodes, k, l) && AddressOk(db.nodes, n, l) && AddressOk(db.nodes, k, n);
    }
    forall m ensures NodeOk(db'.nodes, m) {
      assert NodeOk(db.nodes, m);
    }
    forall r ensures ReplicaOk(db', r) {
      assert ReplicaOk(db, r);
    }
    forall j ensures RepairOk(db', j) {
      assert RepairOk(db, j);
    }
    forall j ensures RebalanceOk(db', j) {
      assert RebalanceOk(db, j);
    }
  }

  /** Versions change without touching what rows and jobs refer to. */
  lemma VersionsChanged(db: Tables, objects: map<ObjectId, Object>, versions: map<VersionId, Version>)
    requires Consistent(db)
    requires VersionsOk(objects, versions)
    requires forall v :: v in db.versions ==>
               v in versions && versions[v].checksum == db.versions[v].checksum
                 && versions[v].size == db.versions[v].size
    ensures Consistent(db.(objects := objects, versions := versions))
  {
    var db' := db.(objects := objects, versions := versions);
    forall r ensures ReplicaOk(db', r) {
      assert ReplicaOk(db, r);
    }
    forall j ensures RepairOk(db', j) {
      assert RepairOk(db, j);
    }
    forall j ensures RebalanceOk(db', j) {
      assert RebalanceOk(db, j);
    }
  }

  /** Committing a higher number keeps "current is the largest committed". */
  lemma CommitKeeps(db: Tables, v: VersionId, expected: Option<int>)
    requires Consistent(db) && CanCommit(db, v, expected)
    ensures Consistent(AfterCommit(db, v))
    ensures CurrentNumber(AfterCommit(db, v), db.versions[v].owner) == db.versions[v].number
    ensures forall o :: o != db.versions[v].owner ==> CurrentNumber(AfterCommit(db, v), o) == CurrentNumber(db, o)
  {
    var db' := AfterCommit(db, v);
    var o := db.versions[v].owner;
    forall p, q ensures NameOk(db'.objects, p, q) {
      assert NameOk(db.objects, p, q);
    }
    forall w ensures VersionOk(db'.objects, db'.versions, w) {
      assert VersionOk(db.objects, db.versions, w);
    }
    forall w, x ensures NumberOk(db'.versions, w, x) {
      assert NumberOk(db.versions, w, x);
    }
    forall p ensures CurrentOk(db'.objects, db'.versions, p) {
      assert CurrentOk(db.objects, db.versions, p);
      forall w | CommittedOf(db'.versions, p, w) && w != v ensures CommittedOf(db.versions, p, w) {
      }
      if p != o {
        forall w | CommittedOf(db.versions, p, w) ensures CommittedOf(db'.versions, p, w) {
        }
      }
    }
    VersionsChanged(db, db'.objects, db'.versions);
    forall p | p != o ensures CurrentNumber(db', p) == CurrentNumber(db, p) {
      assert CurrentOk(db.objects, db.versions, p);
    }
  }

  /** A new version with a number above all others of its object. */
  lemma NewVersionKeeps(db: Tables, v: VersionId, version: Version)
    requires Consistent(db) && v !in db.versions
    requires version.owner in db.objects && version.state == Preparing && version.number >= 1
             && IsSha256(version.checksum)
    requires forall w :: w in db.versions && db.versions[w].owner == version.owner ==>
               db.versions[w].number < version.number
    ensures Consistent(db.(versions := db.versions[v := version]))
  {
    var versions := db.versions[v := version];
    forall w ensures VersionOk(db.objects, versions, w) {
      assert VersionOk(db.objects, db.versions, w);
    }
    forall w, x ensures NumberOk(versions, w, x) {
      assert NumberOk(db.versions, w, x);
    }
    forall p ensures CurrentOk(db.objects, versions, p) {
      assert CurrentOk(db.objects, db.versions, p);
      forall w ensures CommittedOf(versions, p, w) <==> CommittedOf(db.versions, p, w) {
      }
    }
    VersionsChanged(db, db.objects, versions);
    assert db.(versions := versions) == db.(objects := db.objects, versions := versions);
  }

  /** A version that is not committed is marked FAILED. */
  lemma FailKeeps(db: Tables, v: VersionId)
    requires Consistent(db) && v in db.versions && db.versions[v].state != Committed
    ensures Consistent(db.(versions := db.versions[v := db.versions[v].(state := VersionFailed)]))
  {
    var versions := db.versions[v := db.versions[v].(state := VersionFailed)];
    forall w ensures VersionOk(db.objects, versions, w) {
      assert VersionOk(db.objects, db.versions, w);
    }
    forall w, x ensures NumberOk(versions, w, x) {
      assert NumberOk(db.versions, w, x);
    }
    forall p ensures CurrentOk(db.objects, versions, p) {
      assert CurrentOk(db.objects, db.versions, p);
      forall w ensures CommittedOf(versions, p, w) <==> CommittedOf(db.versions, p, w) {
      }
    }
    VersionsChanged(db, db.objects, versions);
    assert db.(versions := versions) == db.(objects := db.objects, versions := versions);
  }

  /** Objects change state, or are created without a version. */
  lemma ObjectChanged(db: Tables, o: ObjectId, object': Object)
    requires Consistent(db)
    requires if o in db.objects then object'.current == db.objects[o].current && object'.name == db.objects[o].name
             else object'.current == None && forall p :: p in db.objects ==> db.objects[p].name != object'.name
    ensures Consistent(db.(objects := db.objects[o := object']))
  {
    var objects := db.objects[o := object'];
    forall p, q ensures NameOk(objects, p, q) {
      assert NameOk(db.objects, p, q) && NameOk(db.objects, o, q) && NameOk(db.objects, p, o);
    }
    forall w ensures VersionOk(objects, db.versions, w) {
      assert VersionOk(db.objects, db.versions, w);
    }
    forall p ensures CurrentOk(objects, db.versions, p) {
      assert CurrentOk(db.objects, db.versions, p);
      if p == o && o !in db.objects {
        forall w ensures !CommittedOf(db.versions, o, w) {
          assert VersionOk(db.objects, db.versions, w);
        }
      }
    }
    VersionsChanged(db, objects, db.versions);
    assert db.(objects := objects) == db.(objects := objects, versions := db.versions);
  }

  lemma SameRows(before: Tables, after: Tables)
    requires before.replicas == after.replicas
    ensures OneStep(before, after)
  {
    forall r ensures RowStep(before, after, r) {
    }
  }

  // ----- Batches

  /** The rows that `create_replicas` adds. */
  function AddRows(replicas: map<ReplicaId, Replica>, ids: seq<ReplicaId>, v: VersionId,
                   nodes: seq<NodeId>): map<ReplicaId, Replica>
    requires |ids| == |nodes|
  {
    if ids == [] then replicas
    else
      var n := |ids| - 1;
      AddRows(replicas, ids[..n], v, nodes[..n])[ids[n] := Replica(v, nodes[n], Pending, None, None)]
  }

  lemma {:induction false} AddRowsContent(replicas: map<ReplicaId, Replica>, ids: seq<ReplicaId>, v: VersionId,
                                          nodes: seq<NodeId>)
    requires |ids| == |nodes|
    requires forall i, j :: 0 <= i < j < |ids| ==> ids[i] != ids[j]
    ensures var all := AddRows(replicas, ids, v, nodes);
            && (forall i :: 0 <= i < |ids| ==>
                  ids[i] in all && all[ids[i]] == Replica(v, nodes[i], Pending, None, None))
            && (forall r :: r in all <==> r in replicas || r in ids)
            && (forall r :: r in replicas && r !in ids ==> all[r] == replicas[r])
  {
    if ids != [] {
      var n := |ids| - 1;
      AddRowsContent(replicas, ids[..n], v, nodes[..n]);
      assert ids == ids[..n] + [ids[n]];
    }
  }

  /** Applying the single transition to each id in turn. */
  function SetEach(replicas: map<ReplicaId, Replica>, ids: seq<ReplicaId>, state: ReplicaState): (all: map<ReplicaId,
                                                                                                  Replica>)
    requires forall i :: 0 <= i < |ids| ==> ids[i] in replicas
    ensures all.Keys == replicas.Keys
  {
    if ids == [] then replicas
    else
      WithStatus(SetEach(replicas, ids[..|ids| - 1], state), ids[|ids| - 1], state)
  }

  lemma {:induction false} SetEachContent(replicas: map<ReplicaId, Replica>, ids: seq<ReplicaId>, state: ReplicaState)
    requires forall i :: 0 <= i < |ids| ==> ids[i] in replicas
    ensures var all := SetEach(replicas, ids, state);
            && all.Keys == replicas.Keys
            && forall r :: r in replicas ==> all[r] == if r in ids then replicas[r].(status := state) else replicas[r]
  {
    if ids != [] {
      var n := |ids| - 1;
      SetEachContent(replicas, ids[..n], state);
      assert ids == ids[..n] + [ids[n]];
    }
  }

  /** Each single transition is still possible after the ones before it, so the batch is all of them or none. */
  lemma SetEachStep(replicas: map<ReplicaId, Replica>, ids: seq<ReplicaId>, state: ReplicaState, i: nat)
    requires i < |ids|
    requires forall k :: 0 <= k < |ids| ==> ids[k] in replicas
    ensures CanSet(replicas, ids[i], state) ==> CanSet(SetEach(replicas, ids[..i], state), ids[i], state)
    ensures SetEach(replicas, ids[..i + 1], state) == WithStatus(SetEach(replicas, ids[..i], state), ids[i], state)
  {
    SetEachContent(replicas, ids[..i], state);
    assert ids[..i + 1][..i] == ids[..i];
  }

  lemma RowsRestated(db: Tables, replicas: map<ReplicaId, Replica>)
    requires Consistent(db)
    requires replicas.Keys == db.replicas.Keys
    requires forall r :: r in replicas ==>
               replicas[r] == db.replicas[r]
                 || (replicas[r].status != Healthy && replicas[r] == db.replicas[r].(status := replicas[r].status))
    ensures Consistent(db.(replicas := replicas))
  {
    var db' := db.(replicas := replicas);
    forall s ensures ReplicaOk(db', s) {
      assert ReplicaOk(db, s);
    }
    forall s, t ensures RowOk(replicas, s, t) {
      assert RowOk(db.replicas, s, t);
    }
    ReplicasChanged(db, replicas);
  }

  /** A row of the new table is one of the batch, on its own node, or an old one. */
  ghost predicate AddedRow(before: map<ReplicaId, Replica>, after: map<ReplicaId, Replica>, ids: seq<ReplicaId>,
                           v: VersionId, nodes: seq<NodeId>, r: ReplicaId)
    requires |ids| == |nodes|
  {
    r in after ==>
      || (r in before && after[r] == before[r])
      || exists i :: 0 <= i < |ids| && ids[i] == r && after[r] == Replica(v, nodes[i], Pending, None, None)
  }

  lemma AddedRowOk(before: map<ReplicaId, Replica>, after: map<ReplicaId, Replica>, ids: seq<ReplicaId>, v: VersionId,
                   nodes: seq<NodeId>,
                   r: ReplicaId, s: ReplicaId)
    requires |ids| == |nodes| && RowOk(before, r, s)
    requires forall i, j :: 0 <= i < j < |ids| ==> nodes[i] != nodes[j]
    requires forall i :: 0 <= i < |ids| ==> !HasRow(before, v, nodes[i])
    requires AddedRow(before, after, ids, v, nodes, r) && AddedRow(before, after, ids, v, nodes, s)
    ensures RowOk(after, r, s)
  {
    assert forall i :: 0 <= i < |ids| ==> !IsRow(before, r, v, nodes[i]) && !IsRow(before, s, v, nodes[i]);
  }

  lemma RowsAdded(db: Tables, ids: seq<ReplicaId>, v: VersionId, nodes: seq<NodeId>)
    requires Consistent(db) && |ids| == |nodes| && v in db.versions
    requires forall i, j :: 0 <= i < j < |ids| ==> ids[i] != ids[j] && nodes[i] != nodes[j]
    requires forall i :: 0 <= i < |ids| ==>
               ids[i] !in db.replicas && nodes[i] in db.nodes && !HasRow(db.replicas, v, nodes[i])
    ensures Consistent(db.(replicas := AddRows(db.replicas, ids, v, nodes)))
    ensures OneStep(db, db.(replicas := AddRows(db.replicas, ids, v, nodes)))
  {
    var all := AddRows(db.replicas, ids, v, nodes);
    AddRowsContent(db.replicas, ids, v, nodes);
    var db' := db.(replicas := all);
    forall s ensures AddedRow(db.replicas, all, ids, v, nodes, s) {
    }
    forall s ensures ReplicaOk(db', s) {
      assert AddedRow(db.replicas, all, ids, v, nodes, s) && ReplicaOk(db, s);
    }
    forall s, t ensures RowOk(all, s, t) {
      assert AddedRow(db.replicas, all, ids, v, nodes, s) && AddedRow(db.replicas, all, ids, v, nodes, t)
             && RowOk(db.replicas, s, t);
      AddedRowOk(db.replicas, all, ids, v, nodes, s, t);
    }
    ReplicasChanged(db, all);
    forall s ensures RowStep(db, db', s) {
      assert AddedRow(db.replicas, all, ids, v, nodes, s);
    }
  }

  /** The whole batch of transitions keeps the tables consistent and is one step for every row. */
  lemma BatchKeeps(db: Tables, ids: seq<ReplicaId>, state: ReplicaState)
    requires Consistent(db) && state != Healthy
    requires forall i :: 0 <= i < |ids| ==> ids[i] in db.replicas && CanSet(db.replicas, ids[i], state)
    ensures Consistent(db.(replicas := SetEach(db.replicas, ids, state)))
    ensures OneStep(db, db.(replicas := SetEach(db.replicas, ids, state)))
  {
    var all := SetEach(db.replicas, ids, state);
    SetEachContent(db.replicas, ids, state);
    RowsRestated(db, all);
    var db' := db.(replicas := all);
    forall s | s in ids ensures CanSet(db.replicas, s, state) {
      var k :| 0 <= k < |ids| && ids[k] == s;
    }
    forall s ensures RowStep(db, db', s) {
      assert s in db.replicas ==> all[s] == if s in ids then db.replicas[s].(status := state) else db.replicas[s];
    }
  }

  // ----- The commit log

  /** Commits of one object follow each other: what was current is what an earlier one made current, or later still. */
  ghost predicate CommitOk(commits: seq<Commit>, db: Tables, i: nat) {
    i < |commits| ==>
      && commits[i].before < commits[i].number <= CurrentNumber(db, commits[i].owner)
      && ExpectedMatches(commits[i].expected, commits[i].before)
  }

  ghost predicate CommitOrder(commits: seq<Commit>, i: nat, j: nat) {
    i < j < |commits| && commits[i].owner == commits[j].owner ==> commits[i].number <= commits[j].before
  }

  /** Commit i is the one that made version v COMMITTED. */
  predicate IsCommitOf(commits: seq<Commit>, versions: map<VersionId, Version>, i: nat, v: VersionId) {
    && i < |commits| && v in versions && versions[v].state == Committed
    && commits[i].owner == versions[v].owner && commits[i].number == versions[v].number
  }

  /** The log is complete: every COMMITTED version is in it, and it holds nothing else. */
  ghost predicate LogOk(commits: seq<Commit>, versions: map<VersionId, Version>, k: nat) {
    && (k in versions && versions[k].state == Committed ==> exists i :: IsCommitOf(commits, versions, i, k))
    && (k < |commits| ==> exists v :: IsCommitOf(commits, versions, k, v))
  }

  ghost predicate CommitsOk(commits: seq<Commit>, db: Tables) {
    && (forall i :: CommitOk(commits, db, i))
    && (forall i, j :: CommitOrder(commits, i, j))
    && (forall k :: LogOk(commits, db.versions, k))
  }

  lemma CommitLogged(commits: seq<Commit>, db: Tables, v: VersionId, expected: Option<int>)
    requires Consistent(db) && CanCommit(db, v, expected) && CommitsOk(commits, db)
    ensures var o := db.versions[v].owner;
            CommitsOk(commits + [Commit(o, expected, CurrentNumber(db, o), db.versions[v].number)], AfterCommit(db, v))
  {
    var o := db.versions[v].owner;
    var db' := AfterCommit(db, v);
    var commits' := commits + [Commit(o, expected, CurrentNumber(db, o), db.versions[v].number)];
    CommitKeeps(db, v, expected);
    forall i ensures CommitOk(commits', db', i) {
      assert CommitOk(commits, db, i);
    }
    forall i, j ensures CommitOrder(commits', i, j) {
      assert CommitOrder(commits, i, j);
      assert CommitOk(commits, db, i);
    }
    assert IsCommitOf(commits', db'.versions, |commits|, v);
    forall k: nat ensures LogOk(commits', db'.versions, k) {
      assert LogOk(commits, db.versions, k);
      if k in db.versions && db.versions[k].state == Committed {
        var i :| IsCommitOf(commits, db.versions, i, k);
        assert IsCommitOf(commits', db'.versions, i, k);
      }
      if k < |commits| {
        var w :| IsCommitOf(commits, db.versions, k, w);
        assert IsCommitOf(commits', db'.versions, k, w);
      }
    }
  }

  /** The same versions are COMMITTED, under the same owners and numbers. */
  ghost predicate SameCommitted(before: map<VersionId, Version>, after: map<VersionId, Version>, v: VersionId) {
    && (v in before && before[v].state == Committed <==> v in after && after[v].state == Committed)
    && (v in before && before[v].state == Committed ==> after[v] == before[v])
  }

  lemma CommitsKept(commits: seq<Commit>, db: Tables, db': Tables)
    requires CommitsOk(commits, db)
    requires forall o :: CurrentNumber(db', o) == CurrentNumber(db, o)
    requires db'.versions == db.versions || forall v :: SameCommitted(db.versions, db'.versions, v)
    ensures CommitsOk(commits, db')
  {
    forall i ensures CommitOk(commits, db', i) {
      assert CommitOk(commits, db, i);
    }
    forall k: nat ensures LogOk(commits, db'.versions, k) {
      assert LogOk(commits, db.versions, k);
      if db'.versions != db.versions {
        assert SameCommitted(db.versions, db'.versions, k);
        if k in db.versions && db.versions[k].state == Committed {
          var i :| IsCommitOf(commits, db.versions, i, k);
          assert IsCommitOf(commits, db'.versions, i, k);
        }
        if k < |commits| {
          var w :| IsCommitOf(commits, db.versions, k, w);
          assert SameCommitted(db.versions, db'.versions, w);
          assert IsCommitOf(commits, db'.versions, k, w);
        }
      }
    }
  }

  /** Two commits of one object rise in number and did not expect the same version. */
  ghost predicate OnePerExpectation(commits: seq<Commit>, i: nat, j: nat) {
    i < j < |commits| && commits[i].owner == commits[j].owner ==>
      commits[i].number < commits[j].number
        && (commits[i].expected.Some? ==> commits[i].expected != commits[j].expected)
  }

  /** Over a whole run at most one commit of an object succeeds with a given expected version. */
  lemma OneCommitPerExpectation(commits: seq<Commit>, db: Tables, i: nat, j: nat)
    requires CommitsOk(commits, db) && i < j < |commits| && commits[i].owner == commits[j].owner
    ensures OnePerExpectation(commits, i, j)
  {
    assert CommitOk(commits, db, i) && CommitOk(commits, db, j) && CommitOrder(commits, i, j);
  }

  // ----- Object states

  /** The object state table, with same-state writes as no-ops. */
  predicate ObjectEdge(from: ObjectState, to: ObjectState) {
    to == from || to in ObjectEdges(from)
  }

  predicate HasCommit(commits: seq<Commit>, o: ObjectId) {
    exists i :: 0 <= i < |commits| && commits[i].owner == o
  }

  /**
    One operation, as far as object o is concerned: a commit of it raises its current number and makes it ACTIVE;
    anything else leaves the number alone and follows the state table.
   */
  ghost predicate ObjectStep(before: Tables, after: Tables, commits: seq<Commit>, o: ObjectId) {
    o in before.objects ==>
      && o in after.objects
      && (if HasCommit(commits, o)
          then after.objects[o].state == Active && CurrentNumber(after, o) > CurrentNumber(before, o)
          else ObjectEdge(before.objects[o].state, after.objects[o].state) && CurrentNumber(after,
                                                                                            o) == CurrentNumber(before,
                                                                                                                o))
  }

  ghost predicate ObjectsStep(before: Tables, after: Tables, commits: seq<Commit>) {
    forall o :: ObjectStep(before, after, commits, o)
  }

  lemma SameObjects(before: Tables, after: Tables)
    requires after.objects == before.objects && after.versions == before.versions
    ensures ObjectsStep(before, after, [])
  {
    forall o ensures ObjectStep(before, after, [], o) {
    }
  }

  /** A commit takes its object along an edge of the table exactly when the object was ACTIVE. */
  lemma CommitFollowsTable(db: Tables, v: VersionId, expected: Option<int>)
    requires Consistent(db) && CanCommit(db, v, expected)
    ensures var o := db.versions[v].owner;
            && (ObjectEdge(db.objects[o].state, AfterCommit(db, v).objects[o].state) <==> db.objects[o].state == Active)
            && ObjectsStep(db, AfterCommit(db, v), [Commit(o, expected, CurrentNumber(db, o), db.versions[v].number)])
  {
    CommitKeeps(db, v, expected);
    var o := db.versions[v].owner;
    var new' := [Commit(o, expected, CurrentNumber(db, o), db.versions[v].number)];
    forall p ensures ObjectStep(db, AfterCommit(db, v), new', p) {
      assert p == o ==> new'[0].owner == p;
    }
  }

  // ----- What never turns back

  /** A FAILED row is never left, changed or removed. */
  ghost predicate RowFollows(past: Tables, now: Tables, r: ReplicaId) {
    r in past.replicas && past.replicas[r].status == Failed ==> r in now.replicas && now.replicas[r] == past.replicas[r]
  }

  /** A version keeps its identity and content; COMMITTED and FAILED are final. */
  ghost predicate VersionFollows(past: Tables, now: Tables, v: VersionId) {
    v in past.versions ==>
      && v in now.versions
      && now.versions[v] == past.versions[v].(state := now.versions[v].state)
      && (past.versions[v].state != Preparing ==> now.versions[v].state == past.versions[v].state)
  }

  /** A node stays registered, hears time go forward only, and does not come back once REMOVED. */
  ghost predicate NodeFollows(past: Tables, now: Tables, n: NodeId) {
    n in past.nodes ==> n in now.nodes && NodeStep(past.nodes[n], now.nodes[n])
  }

  predicate NodeStep(past: Node, now: Node) {
    && (past.heartbeat.Some? ==> now.heartbeat.Some? && past.heartbeat.value <= now.heartbeat.value)
    && (past.status == NodeRemoved ==> now.status == NodeRemoved)
  }

  /** An object's current version number never falls. */
  ghost predicate ObjectFollows(past: Tables, now: Tables, o: ObjectId) {
    o in past.objects ==> o in now.objects && CurrentNumber(past, o) <= CurrentNumber(now, o)
  }

  /** The row, the version and the object that are numbered k. */
  ghost predicate NumberFollows(past: Tables, now: Tables, k: nat) {
    RowFollows(past, now, k) && VersionFollows(past, now, k) && ObjectFollows(past, now, k)
  }

  /** The tables `now` can come after the tables `past`, any number of operations later. */
  ghost predicate Follows(past: Tables, now: Tables) {
    && (forall k :: NumberFollows(past, now, k))
    && (forall n :: NodeFollows(past, now, n))
  }

  lemma FollowsItself(db: Tables)
    ensures Follows(db, db)
  {
    forall k ensures NumberFollows(db, db, k) {
    }
    forall n ensures NodeFollows(db, db, n) {
    }
  }

  lemma FollowsOn(past: Tables, before: Tables, now: Tables)
    requires Follows(past, before) && Follows(before, now)
    ensures Follows(past, now)
  {
    forall k ensures NumberFollows(past, now, k) {
      assert NumberFollows(past, before, k) && NumberFollows(before, now, k);
    }
    forall n ensures NodeFollows(past, now, n) {
      assert NodeFollows(past, before, n) && NodeFollows(before, now, n);
    }
  }

  /** Rows take a step, nothing else but jobs changes. */
  lemma RowsMoveOn(past: Tables, before: Tables, now: Tables)
    requires Follows(past, before) && OneStep(before, now)
    requires now.versions == before.versions && now.nodes == before.nodes && now.objects == before.objects
    ensures Follows(past, now)
  {
    forall k ensures NumberFollows(before, now, k) {
      assert RowStep(before, now, k);
    }
    forall n ensures NodeFollows(before, now, n) {
    }
    FollowsOn(past, before, now);
  }

  /** Objects and versions move on. */
  lemma VersionsMoveOn(past: Tables, before: Tables, now: Tables)
    requires Follows(past, before) && now.replicas == before.replicas && now.nodes == before.nodes
    requires forall v :: v in before.versions ==> VersionFollows(before, now, v)
    requires forall o :: o in before.objects ==> ObjectFollows(before, now, o)
    ensures Follows(past, now)
  {
    forall k ensures NumberFollows(before, now, k) {
    }
    forall n ensures NodeFollows(before, now, n) {
    }
    FollowsOn(past, before, now);
  }

  lemma NodeMovesOn(past: Tables, before: Tables, n: NodeId, node: Node)
    requires Follows(past, before) && (n in before.nodes ==> NodeStep(before.nodes[n], node))
    ensures Follows(past, before.(nodes := before.nodes[n := node]))
  {
    var now := before.(nodes := before.nodes[n := node]);
    forall k ensures NumberFollows(before, now, k) {
    }
    forall m ensures NodeFollows(before, now, m) {
    }
    FollowsOn(past, before, now);
  }

  // ----- The invariant of the manager

  // One quantifier over everything numbered k, so that the invariant stays folded in proofs that do not open it.

  /** Seen from number k: the tables are consistent, commit k is in order, and nothing numbered k has turned back. */
  ghost predicate SoundAt(db: Tables, commits: seq<Commit>, past: Tables, k: nat) {
    && Consistent(db)
    && CommitOk(commits, db, k) && (forall j :: CommitOrder(commits, k, j)) && LogOk(commits, db.versions, k)
    && NumberFollows(past, db, k) && (forall n :: NodeFollows(past, db, n))
  }

  ghost predicate Sound(db: Tables, commits: seq<Commit>, past: Tables) {
    forall k :: SoundAt(db, commits, past, k)
  }

  lemma SoundMeans(db: Tables, commits: seq<Commit>, past: Tables)
    ensures Sound(db, commits, past) <==> Consistent(db) && CommitsOk(commits, db) && Follows(past, db)
  {
    if Sound(db, commits, past) {
      assert SoundAt(db, commits, past, 0);
      forall k ensures CommitOk(commits, db, k) && NumberFollows(past, db, k) && LogOk(commits, db.versions, k) {
        assert SoundAt(db, commits, past, k);
      }
      forall i, j ensures CommitOrder(commits, i, j) {
        assert SoundAt(db, commits, past, i);
      }
    }
  }
}
