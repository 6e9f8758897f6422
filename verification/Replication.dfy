/** Replicating a prepared version and committing it once a write quorum is verified. */
module Replication {
  import opened Base
  import opened Tables
  import opened Metadata
  import opened Cluster
  import opened Placement
  import MM = MetadataManager

  /** How the calls to one node go. */
  datatype WriteNet = WriteNet(put: Upload, verify: Reach)

  /** `Unexpected` is an exception that `_write_one` does not turn into a result. */
  datatype Written = Verified | Unverified | Unexpected

  datatype ReplicationResult = ReplicationResult(selected: seq<NodeId>, healthy: seq<NodeId>, failed: seq<NodeId>)

  /** What writing and verifying one replica comes to; only the node's own bytes matter. */
  function WriteResult(hash: Hash, disks: Disks, n: NodeId, v: VersionId, version: Version, net: WriteNet): Written {
    match net.put
    case UploadDies(_) => Unexpected
    case UploadFails(_) => Unverified
    case Uploaded(_) =>
      if net.verify == Dies then Unexpected
      else if net.verify == Reached && Intact(hash, AfterPut(disks, n, v, net.put), n, v, version) then Verified
      else Unverified
  }

  /** Write and verify one replica; an object that is already there is left to the verification. */
  method WriteOne(c: Cluster, n: NodeId, v: VersionId, version: Version, net: WriteNet) returns (w: Written)
    modifies c`disks
    ensures c.disks == AfterPut(old(c.disks), n, v, net.put)
    ensures w == WriteResult(c.hash, old(c.disks), n, v, version, net)
    ensures w == Verified ==> Intact(c.hash, c.disks, n, v, version)
    // an object that is already there stays, and verifies exactly if it is the version's
    ensures (n, v) in old(c.disks) ==>
              && c.disks == old(c.disks)
              && (w == Verified <==>
                    net.put.Uploaded? && net.verify == Reached && Intact(c.hash, old(c.disks), n, v, version))
    ensures (n, v) !in old(c.disks) ==>
              (w == Verified <==>
                 && net.put.Uploaded? && net.verify == Reached && net.put.blob.sound
                 && c.hash(net.put.blob.data) == version.checksum && |net.put.blob.data| == version.size)
    ensures w == Unexpected <==> net.put.UploadDies? || (net.put.Uploaded? && net.verify == Dies)
  {
    var put, conflict := c.Put(n, v, net.put);
    if put == Gone {
      return Unexpected;
    }
    if put == Refused && !conflict {
      return Unverified;
    }
    var measured := c.Verify(n, v, net.verify, true);
    if measured == Died {
      return Unexpected;
    }
    w := if Agrees(measured, version) then Verified else Unverified;
  }

  // ----- The batch of rows

  function Settled(w: Written): ReplicaState {
    if w == Verified then Healthy else Failed
  }

  /** Row i of the batch: COPYING until its result is recorded, then HEALTHY or FAILED. */
  ghost predicate BatchRow(replicas: map<ReplicaId, Replica>, v: VersionId, ids: seq<ReplicaId>, nodes: seq<NodeId>,
                           done: seq<Written>, i: nat)
    requires |ids| == |nodes|
  {
    i < |ids| ==> IsRow(replicas, ids[i], v,
                        nodes[i]) && replicas[ids[i]].status == if i < |done| then Settled(done[i]) else Copying
  }

  /** Rows outside the batch are as before. */
  ghost predicate OtherRow(before: map<ReplicaId, Replica>, after: map<ReplicaId, Replica>, ids: seq<ReplicaId>,
                           r: ReplicaId) {
    && (r in before ==> r !in ids && r in after && after[r] == before[r])
    && (r in after && r !in before ==> r in ids)
  }

  ghost predicate Batch(before: map<ReplicaId, Replica>, after: map<ReplicaId, Replica>, v: VersionId,
                        ids: seq<ReplicaId>, nodes: seq<NodeId>, done: seq<Written>) {
    && |ids| == |nodes|
    && (forall i, j :: 0 <= i < j < |ids| ==> ids[i] != ids[j])
    && (forall i :: BatchRow(after, v, ids, nodes, done, i))
    && (forall r :: OtherRow(before, after, ids, r))
  }

  lemma BatchStarts(before: map<ReplicaId, Replica>, v: VersionId, ids: seq<ReplicaId>, nodes: seq<NodeId>)
    requires |ids| == |nodes|
    requires forall i, j :: 0 <= i < j < |ids| ==> ids[i] != ids[j]
    requires forall i :: 0 <= i < |ids| ==> ids[i] !in before
    ensures var added := AddRows(before, ids, v, nodes);
            && (forall i :: 0 <= i < |ids| ==> ids[i] in added && CanSet(added, ids[i], Copying))
            && Batch(before, SetEach(added, ids, Copying), v, ids, nodes, [])
  {
    var added := AddRows(before, ids, v, nodes);
    AddRowsContent(before, ids, v, nodes);
    SetEachContent(added, ids, Copying);
    var after := SetEach(added, ids, Copying);
    forall i ensures BatchRow(after, v, ids, nodes, [], i) {
    }
    forall r ensures OtherRow(before, after, ids, r) {
    }
  }

  /** Recording the next result. */
  lemma BatchStep(before: map<ReplicaId, Replica>, now: map<ReplicaId, Replica>, after: map<ReplicaId, Replica>,
                  v: VersionId,
                  ids: seq<ReplicaId>, nodes: seq<NodeId>, done: seq<Written>, w: Written)
    requires Batch(before, now, v, ids, nodes, done) && |done| < |ids|
    requires var id := ids[|done|];
             && id in now && id in after && after == now[id := after[id]]
             && IsRow(after, id, v, nodes[|done|]) && after[id].status == Settled(w)
    ensures Batch(before, after, v, ids, nodes, done + [w])
  {
    forall i ensures BatchRow(after, v, ids, nodes, done + [w], i) {
      assert BatchRow(now, v, ids, nodes, done, i);
    }
    forall r ensures OtherRow(before, after, ids, r) {
      assert OtherRow(before, now, ids, r);
    }
  }

  /** n identifiers that no row has. */
  method FreshIds(taken: set<nat>, n: nat) returns (ids: seq<nat>)
    ensures |ids| == n
    ensures forall i :: 0 <= i < n ==> ids[i] !in taken
    ensures forall i, j :: 0 <= i < j < n ==> ids[i] != ids[j]
  {
    ids := [];
    var used := taken;
    for k := 0 to n
      invariant |ids| == k
      invariant forall i :: 0 <= i < k ==> ids[i] !in taken && ids[i] in used
      invariant taken <= used
      invariant forall i, j :: 0 <= i < j < k ==> ids[i] != ids[j]
    {
      var id := FreshId(used);
      used := used + {id};
      ids := ids + [id];
    }
  }

  /** Choose the nodes and create their rows, all COPYING. */
  method Prepare(m: MM.MetadataManager, rows: seq<NodeId>, v: VersionId,
                 factor: int) returns (r: Result<(seq<NodeId>, seq<ReplicaId>), VaultError>)
    requires m.Valid() && Enumerates(rows, m.db.nodes) && v in m.db.versions && factor >= 1
    modifies m`db
    ensures m.Valid()
    ensures var pool := EligibleNodes(old(m.db), v, old(m.db.versions)[v].size, {});
            if |pool| < factor then r == Err(InsufficientReplicas) && m.db == old(m.db)
            else
              && r.Ok? && IsTop(m.db.nodes, pool, factor, r.value.0)
              && m.db == old(m.db).(replicas := m.db.replicas)
              && Batch(old(m.db.replicas), m.db.replicas, v, r.value.1, r.value.0, [])
    ensures r.Ok? ==> (forall i, j :: 0 <= i < j < |r.value.0| ==> r.value.0[i] != r.value.0[j])
                      && forall i :: 0 <= i < |r.value.0| ==> !HasRow(old(m.db.replicas), v, r.value.0[i])
  {
    m.Opened();
    var size := m.db.versions[v].size;
    SelectIsTop(m.db, rows, v, size, factor);
    var selected := SelectNodes(m.db, rows, v, size, factor);
    if selected.Err? {
      return Err(selected.error);
    }
    var nodes := selected.value;
    TopNodes(m.db, v, size, factor, nodes);
    var ids := FreshIds(m.db.replicas.Keys, |nodes|);
    BatchStarts(m.db.replicas, v, ids, nodes);
    var created := m.CreateReplicas(ids, v, nodes);
    var started := m.SetReplicaStates(ids, Copying);
    r := Ok((nodes, ids));
  }

  lemma TopNodes(db: Tables, v: VersionId, size: nat, factor: nat, nodes: seq<NodeId>)
    requires Consistent(db) && factor >= 1 && IsTop(db.nodes, EligibleNodes(db, v, size, {}), factor, nodes)
    ensures nodes != [] && "" !in nodes && MM.Distinct(nodes)
    ensures forall n :: n in nodes ==> n in db.nodes && !HasRow(db.replicas, v, n)
  {
    forall i | 0 <= i < |nodes| ensures nodes[i] in db.nodes && nodes[i] != "" && !HasRow(db.replicas, v, nodes[i]) {
      assert Eligible(db, v, size, {}, nodes[i]);
      assert NodeOk(db.nodes, nodes[i]);
    }
    forall i, j | 0 <= i < j < |nodes| ensures nodes[i] != nodes[j] {
      BetterIsStrictTotal(db.nodes, nodes[i], nodes[j]);
    }
  }

  // ----- Writing to every selected node

  /** Writes to distinct nodes do not affect each other, so their order does not matter. */
  lemma WritesAreIndependent(hash: Hash, before: Disks, after: Disks, n: NodeId, other: NodeId, v: VersionId,
                             version: Version, net: WriteNet)
    requires ChangedAt(before, after, other, v) && n != other
    ensures WriteResult(hash, after, n, v, version, net) == WriteResult(hash, before, n, v, version, net)
    ensures Intact(hash, after, n, v, version) <==> Intact(hash, before, n, v, version)
  {
    IntactElsewhere(hash, before, after, other, v, n, v, version);
    var put, put' := AfterPut(before, n, v, net.put), AfterPut(after, n, v, net.put);
    assert (n, v) in before <==> (n, v) in before - {(other, v)};
    assert (n, v) in after <==> (n, v) in after - {(other, v)};
    assert (n, v) in before ==> before[(n, v)] == after[(n, v)];
  }

  /** A finished write: its result is the one it has on its own, and a verified replica is still intact. */
  ghost predicate WriteDone(hash: Hash, start: Disks, now: Disks, v: VersionId, version: Version, nodes: seq<NodeId>,
                            nets: nat -> WriteNet,
                            results: seq<Written>, i: nat)
    requires |results| <= |nodes|
  {
    i < |results| ==>
      && results[i] == WriteResult(hash, start, nodes[i], v, version, nets(i))
      && (results[i] == Verified ==> Intact(hash, now, nodes[i], v, version))
      && SameAt(AfterPut(start, nodes[i], v, nets(i).put), now, (nodes[i], v))
  }

  /** Bytes elsewhere are not touched. */
  ghost predicate NotWritten(start: Disks, now: Disks, v: VersionId, nodes: seq<NodeId>, k: (NodeId, VersionId)) {
    k.1 != v || k.0 !in nodes ==> SameAt(start, now, k)
  }

  /** A write still to come would go as it would have gone at the start. */
  ghost predicate WriteAhead(hash: Hash, start: Disks, now: Disks, v: VersionId, version: Version, nodes: seq<NodeId>,
                             nets: nat -> WriteNet,
                             k: nat, i: nat)
  {
    k <= i < |nodes| ==>
      && WriteResult(hash, now, nodes[i], v, version, nets(i)) == WriteResult(hash, start, nodes[i], v, version,
                                                                              nets(i))
      && SameAt(start, now, (nodes[i], v))
  }

  lemma WritesProceed(hash: Hash, start: Disks, before: Disks, now: Disks, v: VersionId, version: Version,
                      nodes: seq<NodeId>,
                      nets: nat -> WriteNet, results: seq<Written>, w: Written)
    requires |results| < |nodes| && MM.Distinct(nodes)
    requires forall i :: WriteDone(hash, start, before, v, version, nodes, nets, results, i)
    requires forall i :: WriteAhead(hash, start, before, v, version, nodes, nets, |results|, i)
    requires forall k :: NotWritten(start, before, v, nodes, k)
    requires var n := nodes[|results|];
             && now == AfterPut(before, n, v, nets(|results|).put)
             && w == WriteResult(hash, before, n, v, version, nets(|results|))
             && (w == Verified ==> Intact(hash, now, n, v, version))
    ensures forall i :: WriteDone(hash, start, now, v, version, nodes, nets, results + [w], i)
    ensures var next := |results| + 1; forall i :: WriteAhead(hash, start, now, v, version, nodes, nets, next, i)
    ensures forall k :: NotWritten(start, now, v, nodes, k)
  {
    var k, next := |results|, |results| + 1;
    assert ChangedAt(before, now, nodes[k], v);
    forall d ensures NotWritten(start, now, v, nodes, d) {
      assert NotWritten(start, before, v, nodes, d);
    }
    forall i: nat ensures WriteDone(hash, start, now, v, version, nodes, nets, results + [w], i) {
      assert WriteDone(hash, start, before, v, version, nodes, nets, results, i);
      assert WriteAhead(hash, start, before, v, version, nodes, nets, k, i);
      if i < k {
        WritesAreIndependent(hash, before, now, nodes[i], nodes[k], v, version, nets(i));
      }
    }
    forall i: nat ensures WriteAhead(hash, start, now, v, version, nodes, nets, next, i) {
      assert WriteAhead(hash, start, before, v, version, nodes, nets, k, i);
      if k < i < |nodes| {
        WritesAreIndependent(hash, before, now, nodes[i], nodes[k], v, version, nets(i));
      }
    }
  }

  method WriteAll(m: MM.MetadataManager, c: Cluster, v: VersionId, version: Version, nodes: seq<NodeId>,
                  nets: nat -> WriteNet)
    returns (results: seq<Written>)
    requires MM.Distinct(nodes)
    requires forall r :: r in m.db.replicas && m.db.replicas[r].version == v && m.db.replicas[r].node in nodes ==>
               m.db.replicas[r].status != Healthy
    modifies c`disks
    ensures |results| == |nodes|
    ensures forall i :: WriteDone(c.hash, old(c.disks), c.disks, v, version, nodes, nets, results, i)
    ensures forall k :: NotWritten(old(c.disks), c.disks, v, nodes, k)
    ensures Safe(c.hash, m.db, old(c.disks)) ==> Safe(c.hash, m.db, c.disks)
  {
    results := [];
    forall k ensures NotWritten(c.disks, c.disks, v, nodes, k) {
    }
    forall i: nat ensures WriteAhead(c.hash, c.disks, c.disks, v, version, nodes, nets, 0, i) {
    }
    for k := 0 to |nodes|
      invariant |results| == k
      invariant forall i :: WriteDone(c.hash, old(c.disks), c.disks, v, version, nodes, nets, results, i)
      invariant forall i :: WriteAhead(c.hash, old(c.disks), c.disks, v, version, nodes, nets, k, i)
      invariant forall d :: NotWritten(old(c.disks), c.disks, v, nodes, d)
      invariant Safe(c.hash, m.db, old(c.disks)) ==> Safe(c.hash, m.db, c.disks)
    {
      ghost var before := c.disks;
      var w := WriteOne(c, nodes[k], v, version, nets(k));
      WritesProceed(c.hash, old(c.disks), before, c.disks, v, version, nodes, nets, results, w);
      if Safe(c.hash, m.db, before) {
        SafeElsewhere(c.hash, m.db, before, c.disks, nodes[k], v);
      }
      results := results + [w];
      assert k + 1 == |results|;
    }
  }

  /** Record every result on its row. */
  method MarkAll(m: MM.MetadataManager, c: Cluster, v: VersionId, ids: seq<ReplicaId>, nodes: seq<NodeId>,
                 results: seq<Written>,
                 ghost before: map<ReplicaId, Replica>)
    requires m.Valid() && c.Valid() && v in m.db.versions && |results| == |nodes|
    requires Batch(before, m.db.replicas, v, ids, nodes, [])
    requires forall i :: 0 <= i < |results| && results[i] == Verified ==>
               Intact(c.hash, c.disks, nodes[i], v, m.db.versions[v])
    modifies m`db
    ensures m.Valid() && m.db == old(m.db).(replicas := m.db.replicas)
    ensures Batch(before, m.db.replicas, v, ids, nodes, results)
    ensures Safe(c.hash, old(m.db), c.disks) ==> Safe(c.hash, m.db, c.disks)
  {
    for k := 0 to |nodes|
      invariant m.Valid() && m.db == old(m.db).(replicas := m.db.replicas)
      invariant Batch(before, m.db.replicas, v, ids, nodes, results[..k])
      invariant Safe(c.hash, old(m.db), c.disks) ==> Safe(c.hash, m.db, c.disks)
    {
      MarkOne(m, c, v, ids, nodes, ids[k], results[..k], results[k], before);
      assert results[..k] + [results[k]] == results[..k + 1];
    }
    assert results[..|nodes|] == results;
  }

  /** Record the next result of a batch. */
  method MarkOne(m: MM.MetadataManager, c: Cluster, v: VersionId, ids: seq<ReplicaId>, nodes: seq<NodeId>,
                 id: ReplicaId, ghost done: seq<Written>, w: Written,
                 ghost before: map<ReplicaId, Replica>)
    requires m.Valid() && v in m.db.versions && |done| < |nodes| && Batch(before, m.db.replicas, v, ids, nodes, done)
             && id == ids[|done|]
    requires w == Verified ==> Intact(c.hash, c.disks, nodes[|done|], v, m.db.versions[v])
    modifies m`db
    ensures m.Valid() && m.db == old(m.db).(replicas := m.db.replicas)
    ensures Batch(before, m.db.replicas, v, ids, nodes, done + [w])
    ensures Safe(c.hash, old(m.db), c.disks) ==> Safe(c.hash, m.db, c.disks)
  {
    m.Opened();
    var version := m.db.versions[v];
    assert VersionOk(m.db.objects, m.db.versions, v);
    assert BatchRow(m.db.replicas, v, ids, nodes, done, |done|);
    if w == Verified {
      var _ := m.MarkReplicaHealthy(id, version.checksum, version.size);
    } else {
      var _ := m.SetReplicaState(id, Failed);
    }
    BatchStep(before, old(m.db.replicas), m.db.replicas, v, ids, nodes, done, w);
    if Safe(c.hash, old(m.db), c.disks) {
      SafeRows(c.hash, old(m.db), m.db, c.disks);
    }
  }

  /** Write to every node of a batch that has just been created, and record the results. */
  method WriteBatch(m: MM.MetadataManager, c: Cluster, v: VersionId, version: Version, ids: seq<ReplicaId>,
                    nodes: seq<NodeId>,
                    nets: nat -> WriteNet, ghost before: Tables)
    returns (results: seq<Written>)
    requires m.Valid() && c.Valid() && v in m.db.versions && version == m.db.versions[v] && MM.Distinct(nodes)
    requires m.db == before.(replicas := m.db.replicas) && Batch(before.replicas, m.db.replicas, v, ids, nodes, [])
    modifies m`db, c`disks
    ensures m.Valid() && m.db == before.(replicas := m.db.replicas)
    ensures |results| == |nodes|
    ensures forall i :: WriteDone(c.hash, old(c.disks), c.disks, v, version, nodes, nets, results, i)
    ensures forall k :: NotWritten(old(c.disks), c.disks, v, nodes, k)
    ensures Batch(before.replicas, m.db.replicas, v, ids, nodes, results)
    ensures Safe(c.hash, before, old(c.disks)) ==> Safe(c.hash, m.db, c.disks)
  {
    m.Opened();
    PreparedSafe(c.hash, before, m.db, c.disks, v, ids, nodes);
    results := WriteAll(m, c, v, version, nodes, nets);
    forall i | 0 <= i < |results| && results[i] == Verified ensures Intact(c.hash, c.disks, nodes[i], v, version) {
      assert WriteDone(c.hash, old(c.disks), c.disks, v, version, nodes, nets, results, i);
    }
    MarkAll(m, c, v, ids, nodes, results, before.replicas);
  }

  // ----- The whole operation

  /** How many writes verified. */
  function Count(results: seq<Written>): nat {
    if results == [] then 0 else Count(results[..|results| - 1]) + if results[|results| - 1] == Verified then 1 else 0
  }

  /** Node n was selected and its write verified (or, for `verified` false, did not). */
  ghost predicate Ended(nodes: seq<NodeId>, results: seq<Written>, n: NodeId, verified: bool)
    requires |results| <= |nodes|
  {
    exists i :: 0 <= i < |results| && nodes[i] == n && (results[i] == Verified) == verified
  }

  ghost predicate PartNode(nodes: seq<NodeId>, results: seq<Written>, part: seq<NodeId>, verified: bool, n: NodeId)
    requires |results| <= |nodes|
  {
    n in part <==> Ended(nodes, results, n, verified)
  }

  /** `part` lists, without repetition, the selected nodes whose write verified (or did not). */
  ghost predicate Part(nodes: seq<NodeId>, results: seq<Written>, part: seq<NodeId>, verified: bool)
    requires |results| <= |nodes|
  {
    MM.Distinct(part) && forall n :: PartNode(nodes, results, part, verified, n)
  }

  lemma EndedMore(nodes: seq<NodeId>, results: seq<Written>, w: Written, n: NodeId, verified: bool)
    requires |results| < |nodes|
    ensures Ended(nodes, results + [w], n, verified) <==>
              Ended(nodes, results, n, verified) || (n == nodes[|results|] && (w == Verified) == verified)
  {
    var all := results + [w];
    if Ended(nodes, results, n, verified) {
      var i :| 0 <= i < |results| && nodes[i] == n && (results[i] == Verified) == verified;
      assert all[i] == results[i];
    }
    assert all[|results|] == w;
  }

  lemma PartGrows(nodes: seq<NodeId>, results: seq<Written>, part: seq<NodeId>, verified: bool, w: Written)
    requires |results| < |nodes| && MM.Distinct(nodes) && Part(nodes, results, part, verified)
    ensures var part' := if (w == Verified) == verified then part + [nodes[|results|]] else part;
            Part(nodes, results + [w], part', verified)
  {
    var next, all := nodes[|results|], results + [w];
    var part' := if (w == Verified) == verified then part + [next] else part;
    assert PartNode(nodes, results, part, verified, next);
    forall n ensures PartNode(nodes, all, part', verified, n) {
      assert PartNode(nodes, results, part, verified, n);
      EndedMore(nodes, results, w, n, verified);
    }
  }

  /** Both lists after one more result. */
  lemma PartsGrow(nodes: seq<NodeId>, results: seq<Written>, healthy: seq<NodeId>, failed: seq<NodeId>, w: Written)
    requires |results| < |nodes| && MM.Distinct(nodes) && Part(nodes, results, healthy, true)
             && Part(nodes, results, failed, false)
    requires |healthy| == Count(results) && |healthy| + |failed| == |results|
    ensures var healthy' := if w == Verified then healthy + [nodes[|results|]] else healthy;
            var failed' := if w == Verified then failed else failed + [nodes[|results|]];
            && Part(nodes, results + [w], healthy', true) && Part(nodes, results + [w], failed', false)
            && |healthy'| == Count(results + [w]) && |healthy'| + |failed'| == |results| + 1
  {
    PartGrows(nodes, results, healthy, true, w);
    PartGrows(nodes, results, failed, false, w);
    assert (results + [w])[..|results|] == results;
  }

  method Partition(nodes: seq<NodeId>, results: seq<Written>) returns (healthy: seq<NodeId>, failed: seq<NodeId>)
    requires MM.Distinct(nodes) && |results| == |nodes|
    ensures Part(nodes, results, healthy, true) && Part(nodes, results, failed, false)
    ensures |healthy| == Count(results) && |healthy| + |failed| == |nodes|
  {
    healthy, failed := [], [];
    for k := 0 to |nodes|
      invariant Part(nodes, results[..k], healthy, true) && Part(nodes, results[..k], failed, false)
      invariant |healthy| == Count(results[..k]) && |healthy| + |failed| == k
    {
      assert results[..k + 1] == results[..k] + [results[k]];
      PartsGrow(nodes, results[..k], healthy, failed, results[k]);
      if results[k] == Verified {
        healthy := healthy + [nodes[k]];
      } else {
        failed := failed + [nodes[k]];
      }
    }
    assert results[..|nodes|] == results;
  }

  predicate ValidRequest(factor: int, quorum: int, expected: Option<int>) {
    1 <= quorum <= factor && (expected.Some? ==> expected.value >= 0)
  }

  /** Why a request is turned away before anything changes. */
  function Refusal(db: Tables, v: VersionId, factor: int, quorum: int, expected: Option<int>): Option<VaultError> {
    if !ValidRequest(factor, quorum, expected) then Some(ValueError)
    else if v !in db.versions then Some(ObjectNotFound)
    else if db.versions[v].state != Preparing then Some(InvalidState)
    else if |EligibleNodes(db, v, db.versions[v].size, {})| < factor then Some(InsufficientReplicas)
    else None
  }

  /**
    Replicate a PREPARING version to the `factor` best nodes and commit it once `quorum` replicas are
    verified; `nets(i)` says how the calls to the i-th selected node go. Every row of the batch ends
    HEALTHY or FAILED, as its own write went; no other row changes.
   */
  method ReplicateVersion(m: MM.MetadataManager, c: Cluster, rows: seq<NodeId>, v: VersionId, factor: int, quorum: int,
                          expected: Option<int>, nets: nat -> WriteNet)
    returns (r: Result<ReplicationResult, VaultError>, ghost nodes: seq<NodeId>, ghost ids: seq<ReplicaId>,
             ghost results: seq<Written>)
    requires m.Valid() && c.Valid() && Enumerates(rows, m.db.nodes)
    modifies m`db, m`commits, c`disks
    ensures m.Valid() && m.commits == old(m.commits) + NewCommits(old(m.db), v, expected, r.Ok?)
    ensures Safe(c.hash, old(m.db), old(c.disks)) ==> Safe(c.hash, m.db, c.disks)
    ensures var refusal := Refusal(old(m.db), v, factor, quorum, expected);
            if refusal.Some? then r == Err(refusal.value) && m.db == old(m.db) && c.disks == old(c.disks)
            else
              var version := old(m.db.versions)[v];
              && IsTop(old(m.db.nodes), EligibleNodes(old(m.db), v, version.size, {}), factor, nodes)
                 && |results| == factor
              && (forall i :: WriteDone(c.hash, old(c.disks), c.disks, v, version, nodes, nets, results, i))
              && (forall k :: NotWritten(old(c.disks), c.disks, v, nodes, k))
              && Batch(old(m.db.replicas), m.db.replicas, v, ids, nodes, results)
              && Settlement(old(m.db), m.db, v, quorum, expected, results, r.Ok?)
              && (r.Ok? ==> r.value.selected == nodes
                            && Part(nodes, results, r.value.healthy, true)
                               && Part(nodes, results, r.value.failed, false)
                            && |r.value.healthy| >= quorum && |r.value.healthy| + |r.value.failed| == factor)
              && Quorate(old(m.db), m.db, v, quorum, expected, ids, results)
  {
    nodes, ids, results := [], [], [];
    if !ValidRequest(factor, quorum, expected) {
      return Err(ValueError), nodes, ids, results;
    }
    if v !in m.db.versions {
      return Err(ObjectNotFound), nodes, ids, results;
    }
    var version := m.db.versions[v];
    if version.state != Preparing {
      return Err(InvalidState), nodes, ids, results;
    }
    var prepared := Prepare(m, rows, v, factor);
    if prepared.Err? {
      return Err(prepared.error), nodes, ids, results;
    }
    var (selected, created) := prepared.value;
    nodes, ids := selected, created;
    r, results := WriteAndSettle(m, c, v, version, quorum, expected, created, selected, nets, old(m.db));
    QuorumMeans(old(m.db), m.db, v, quorum, expected, ids, nodes, results, r.Ok?);
  }

  /** Everything that follows the creation of the rows. */
  method WriteAndSettle(m: MM.MetadataManager, c: Cluster, v: VersionId, version: Version, quorum: int,
                        expected: Option<int>,
                        ids: seq<ReplicaId>, nodes: seq<NodeId>, nets: nat -> WriteNet, ghost before: Tables)
    returns (r: Result<ReplicationResult, VaultError>, ghost results: seq<Written>)
    requires m.Valid() && c.Valid() && v in m.db.versions && version == m.db.versions[v] && version.state == Preparing
             && MM.Distinct(nodes)
    requires m.db == before.(replicas := m.db.replicas) && Batch(before.replicas, m.db.replicas, v, ids, nodes, [])
    requires expected.Some? ==> expected.value >= 0
    modifies m`db, m`commits, c`disks
    ensures m.Valid() && m.commits == old(m.commits) + NewCommits(before, v, expected, r.Ok?)
    ensures |results| == |nodes|
    ensures forall i :: WriteDone(c.hash, old(c.disks), c.disks, v, version, nodes, nets, results, i)
    ensures forall k :: NotWritten(old(c.disks), c.disks, v, nodes, k)
    ensures Batch(before.replicas, m.db.replicas, v, ids, nodes, results)
    ensures Settlement(before, m.db, v, quorum, expected, results, r.Ok?)
    ensures Safe(c.hash, before, old(c.disks)) ==> Safe(c.hash, m.db, c.disks)
    ensures r.Ok? ==> r.value.selected == nodes
                      && Part(nodes, results, r.value.healthy, true) && Part(nodes, results, r.value.failed, false)
                      && |r.value.healthy| >= quorum && |r.value.healthy| + |r.value.failed| == |nodes|
  {
    var written := WriteBatch(m, c, v, version, ids, nodes, nets, before);
    results := written;
    r := Settle(m, c, v, quorum, expected, nodes, written);
  }

  /** What a replication adds to the log of commits. */
  ghost function NewCommits(db: Tables, v: VersionId, expected: Option<int>, ok: bool): seq<Commit> {
    if ok && v in db.versions
    then [Commit(db.versions[v].owner, expected, CurrentNumber(db, db.versions[v].owner), db.versions[v].number)]
    else []
  }

  /** What becomes of the version once every result is recorded. */
  ghost predicate Settlement(before: Tables, after: Tables, v: VersionId, quorum: int, expected: Option<int>,
                             results: seq<Written>, ok: bool)
    requires v in before.versions
  {
    var settled :=
      if Unexpected in results then before
      else if Count(results) < quorum
      then before.(versions := before.versions[v := before.versions[v].(state := VersionFailed)])
      else if CanCommit(before, v, expected) then AfterCommit(before, v)
      else before;
    && after == settled.(replicas := after.replicas)
    && (ok <==> Unexpected !in results && Count(results) >= quorum && CanCommit(before, v, expected))
  }

  /** The rows of the batch that are HEALTHY. */
  function NewHealthy(replicas: map<ReplicaId, Replica>, ids: seq<ReplicaId>): set<ReplicaId> {
    set r | r in replicas && r in ids && replicas[r].status == Healthy
  }

  lemma {:induction false} VerifiedIds(ids: seq<ReplicaId>, results: seq<Written>)
    requires |results| <= |ids| && forall i, j :: 0 <= i < j < |ids| ==> ids[i] != ids[j]
    ensures |set i | 0 <= i < |results| && results[i] == Verified :: ids[i]| == Count(results)
  {
    var verified := set i | 0 <= i < |results| && results[i] == Verified :: ids[i];
    if results != [] {
      var k := |results| - 1;
      VerifiedIds(ids, results[..k]);
      var earlier := set i | 0 <= i < k && results[..k][i] == Verified :: ids[i];
      assert ids[k] !in earlier;
      assert verified == if results[k] == Verified then earlier + {ids[k]} else earlier;
    }
  }

  /**
    The quorum, on the tables: the version is COMMITTED exactly when nothing unexpected happened, at least `quorum`
    of its new rows are HEALTHY and the commit is allowed, and FAILED exactly when fewer are.
   */
  ghost predicate Quorate(before: Tables, after: Tables, v: VersionId, quorum: int, expected: Option<int>,
                          ids: seq<ReplicaId>, results: seq<Written>)
  {
    && v in after.versions
    && (after.versions[v].state == Committed <==>
          Unexpected !in results && |NewHealthy(after.replicas, ids)| >= quorum && CanCommit(before, v, expected))
    && (after.versions[v].state == VersionFailed <==>
          Unexpected !in results && |NewHealthy(after.replicas, ids)| < quorum)
  }

  /** The number of verified writes is the number of HEALTHY rows, so it is the tables that decide. */
  lemma QuorumMeans(before: Tables, after: Tables, v: VersionId, quorum: int, expected: Option<int>,
                    ids: seq<ReplicaId>, nodes: seq<NodeId>, results: seq<Written>, ok: bool)
    requires v in before.versions && before.versions[v].state == Preparing
    requires Batch(before.replicas, after.replicas, v, ids, nodes, results) && |results| == |nodes|
    requires Settlement(before, after, v, quorum, expected, results, ok)
    ensures Quorate(before, after, v, quorum, expected, ids, results)
    ensures ok <==> after.versions[v].state == Committed
  {
    VerifiedIds(ids, results);
    var verified := set i | 0 <= i < |results| && results[i] == Verified :: ids[i];
    forall i | 0 <= i < |ids| ensures ids[i] in NewHealthy(after.replicas, ids) <==> results[i] == Verified {
      assert BatchRow(after.replicas, v, ids, nodes, results, i);
    }
    assert NewHealthy(after.replicas, ids) == verified;
  }

  lemma PreparedSafe(hash: Hash, before: Tables, after: Tables, disks: Disks, v: VersionId, ids: seq<ReplicaId>,
                     nodes: seq<NodeId>)
    requires Consistent(after) && after == before.(replicas := after.replicas)
    requires Batch(before.replicas, after.replicas, v, ids, nodes, [])
    ensures Safe(hash, before, disks) ==> Safe(hash, after, disks)
    ensures forall r :: r in after.replicas && after.replicas[r].version == v && after.replicas[r].node in nodes ==>
              after.replicas[r].status != Healthy
  {
    forall r | r in after.replicas && after.replicas[r].version == v && after.replicas[r].node in nodes
      ensures after.replicas[r].status != Healthy
    {
      var i :| 0 <= i < |nodes| && nodes[i] == after.replicas[r].node;
      assert BatchRow(after.replicas, v, ids, nodes, [], i);
      assert RowOk(after.replicas, r, ids[i]);
    }
    if Safe(hash, before, disks) {
      forall i | 0 <= i < |ids| ensures ids[i] in after.replicas && after.replicas[ids[i]].status == Copying {
        assert BatchRow(after.replicas, v, ids, nodes, [], i);
      }
      forall r | r in after.replicas && after.replicas[r].status == Healthy
        ensures r in before.replicas && before.replicas[r] == after.replicas[r]
      {
        assert OtherRow(before.replicas, after.replicas, ids, r);
      }
      SafeRows(hash, before, after, disks);
    }
  }

  method Settle(m: MM.MetadataManager, c: Cluster, v: VersionId, quorum: int, expected: Option<int>, nodes: seq<NodeId>,
                results: seq<Written>)
    returns (r: Result<ReplicationResult, VaultError>)
    requires m.Valid() && v in m.db.versions && m.db.versions[v].state == Preparing
    requires MM.Distinct(nodes) && |results| == |nodes| && (expected.Some? ==> expected.value >= 0)
    modifies m`db, m`commits
    ensures m.Valid() && m.db.replicas == old(m.db.replicas)
    ensures m.commits == old(m.commits) + NewCommits(old(m.db), v, expected, r.Ok?)
    ensures Settlement(old(m.db), m.db, v, quorum, expected, results, r.Ok?)
    ensures Safe(c.hash, old(m.db), c.disks) ==> Safe(c.hash, m.db, c.disks)
    ensures r.Ok? ==> r.value.selected == nodes
                      && Part(nodes, results, r.value.healthy, true) && Part(nodes, results, r.value.failed, false)
                      && |r.value.healthy| >= quorum && |r.value.healthy| + |r.value.failed| == |nodes|
  {
    var healthy, failed := Partition(nodes, results);
    var decided := Decide(m, c, v, quorum, expected, results, |healthy|);
    r := if decided.Ok? then Ok(ReplicationResult(nodes, healthy, failed)) else Err(decided.error);
  }

  /** Commit, fail, or leave the version as it is. */
  method Decide(m: MM.MetadataManager, c: Cluster, v: VersionId, quorum: int, expected: Option<int>,
                results: seq<Written>, verified: nat)
    returns (r: Result<(), VaultError>)
    requires m.Valid() && v in m.db.versions && m.db.versions[v].state == Preparing
    requires verified == Count(results) && (expected.Some? ==> expected.value >= 0)
    modifies m`db, m`commits
    ensures m.Valid() && m.db.replicas == old(m.db.replicas)
    ensures m.commits == old(m.commits) + NewCommits(old(m.db), v, expected, r.Ok?)
    ensures Settlement(old(m.db), m.db, v, quorum, expected, results, r.Ok?)
    ensures r.Ok? ==> verified >= quorum
    ensures Safe(c.hash, old(m.db), c.disks) ==> Safe(c.hash, m.db, c.disks)
  {
    if Unexpected in results {
      return Err(Aborted);
    }
    SafeSettled(c.hash, m.db, v, c.disks);
    if verified < quorum {
      var _ := m.FailVersion(v);
      return Err(InsufficientReplicas);
    }
    r := m.CommitVersion(v, expected);
  }

  /** Neither committing nor failing a version touches what backs its rows. */
  lemma SafeSettled(hash: Hash, db: Tables, v: VersionId, disks: Disks)
    requires v in db.versions
    ensures Safe(hash, db, disks) ==>
              Safe(hash, db.(versions := db.versions[v := db.versions[v].(state := VersionFailed)]), disks)
    ensures Safe(hash, db, disks) && db.versions[v].owner in db.objects ==> Safe(hash, AfterCommit(db, v), disks)
  {
    SafeVersions(hash, db, db.(versions := db.versions[v := db.versions[v].(state := VersionFailed)]), disks);
    if db.versions[v].owner in db.objects {
      SafeVersions(hash, db, AfterCommit(db, v), disks);
    }
  }
}
