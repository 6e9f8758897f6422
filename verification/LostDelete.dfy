/** A migration whose source DELETE takes effect but reports failure, from nothing to the unsafe state. */
module LostDelete {
  import opened Base
  import opened Names
  import opened Tables
  import opened Cluster
  import opened Traces
  import opened Placement
  import MM = MetadataManager
  import Replication
  import opened Rebalance

  /** A blob of no bytes, which a version of size 0 with the digest of nothing accepts. */
  const EMPTY := Blob([], true)

  /** Every call of the migration goes well, except that the source DELETE reports failure. */
  const NET := RebalanceNet(Reached, Reached, DeleteDone, Uploaded(EMPTY), Reached, DeleteFails(true))

  /** A PREPARING version of no bytes and one HEALTHY node. */
  method Prepare(hash: Hash, a: NodeId, address: string) returns (m: MM.MetadataManager, c: Cluster)
    requires YieldsDigests(hash) && a != "" && Strip(address) != ""
    ensures fresh(m) && fresh(c) && m.Valid() && c.Valid() && c.hash == hash && c.disks == map[]
    ensures m.db == Tables(map[0 := Object("o", None, Active)], map[0 := Version(0, 1, 0, hash([]), Preparing)],
                           map[a := Node(NormalizeAddress(address), NodeHealthy, 1, 0,
                                         None)], map[], map[], map[], map[])
  {
    m := new MM.MetadataManager();
    c := new Cluster(hash);
    assert IsName("o");
    var _ := m.CreateObject(0, "o");
    var number := m.CreateVersion(0, 0, 0, hash([]), None);
    var _ := m.RegisterNode(None, a, address, 1, NodeHealthy);
  }

  /** The version is replicated to the node and committed. */
  method Commit(m: MM.MetadataManager, c: Cluster, a: NodeId) returns (ghost row: ReplicaId)
    requires m.Valid() && c.Valid() && c.disks == map[]
    requires m.db.versions == map[0 := Version(0, 1, 0, c.hash([]), Preparing)] && m.db.replicas == map[]
    requires 0 in m.db.objects && m.db.objects[0].current == None
    requires m.db.nodes.Keys == {a} && m.db.nodes[a].status == NodeHealthy
    modifies m`db, m`commits, c`disks
    ensures m.Valid() && Safe(c.hash, m.db, c.disks)
    ensures m.db == old(m.db).(objects := m.db.objects, replicas := m.db.replicas,
                               versions := map[0 := Version(0, 1, 0, c.hash([]), Committed)])
    ensures m.db.replicas.Keys == {row} && IsRow(m.db.replicas, row, 0, a) && m.db.replicas[row].status == Healthy
    ensures Intact(c.hash, c.disks, a, 0, m.db.versions[0])
  {
    m.Opened();
    assert NodeOk(m.db.nodes, a);
    assert Safe(c.hash, m.db, c.disks) by {
      forall r ensures Backed(c.hash, m.db, c.disks, r) {
      }
    }
    ghost var before, disks := m.db, c.disks;
    assert EligibleNodes(m.db, 0, 0, {}) == {a};
    var _, nodes, ids, results :=
      Replication.ReplicateVersion(m, c, [a], 0, 1, 1, None, _ => Replication.WriteNet(Uploaded(EMPTY), Reached));
    assert nodes == [a];
    assert Replication.WriteDone(c.hash, disks, c.disks, 0, before.versions[0], nodes,
                                 _ => Replication.WriteNet(Uploaded(EMPTY), Reached), results, 0);
    assert results == [Replication.Verified];
    assert Replication.Count(results[..0]) == 0;
    assert Replication.BatchRow(m.db.replicas, 0, ids, nodes, results, 0);
    row := ids[0];
    forall r | r in m.db.replicas ensures r == row {
      assert Replication.OtherRow(before.replicas, m.db.replicas, ids, r);
    }
  }

  /** A second node, and a job that moves the replica there. */
  method Stage(hash: Hash, a: NodeId, b: NodeId, x: string, y: string) returns (m: MM.MetadataManager, c: Cluster,
                                                                                    id: JobId)
    requires YieldsDigests(hash) && a != "" && b != "" && a != b
    requires Strip(x) != "" && Strip(y) != "" && NormalizeAddress(x) != NormalizeAddress(y)
    ensures fresh(m) && fresh(c) && m.Valid() && c.Valid() && c.hash == hash && Safe(hash, m.db, c.disks)
    ensures id in m.db.rebalances && m.db.rebalances[id] == Job(0, a, b, Progress(JobPending, 0))
    ensures 0 in m.db.versions && m.db.versions[0].state == Committed
    ensures LossPossible(hash, m.db.versions[0], Point(m.db.replicas, c.disks), 1, 0, a, b, NET)
  {
    m, c := Prepare(hash, a, x);
    ghost var row := Commit(m, c, a);
    ghost var committed := m.db;
    var _ := m.RegisterNode(None, b, y, 1, NodeHealthy);
    SameRowsSafe(c.hash, committed, m.db, c.disks);
    var created := CreateJob(m, 0, a, b);
    SameRowsSafe(c.hash, committed, m.db, c.disks);
    assert Migratable(committed.(nodes := m.db.nodes), 0, a, b);
    id := created.value;
    assert HealthyRows(m.db.replicas, 0) == {row};
  }

  /**
    For every hash: from nothing, by calls of the managers alone, to a safe state with a job that is due; then one
    run of the job whose source DELETE takes effect but reports failure, and a HEALTHY row has no bytes behind it.
   */
  method DeleteLost(hash: Hash, a: NodeId, b: NodeId, x: string, y: string)
    returns (m: MM.MetadataManager, c: Cluster, ghost start: Tables, ghost disks: Disks, ghost id: JobId)
    requires YieldsDigests(hash) && a != "" && b != "" && a != b
    requires Strip(x) != "" && Strip(y) != "" && NormalizeAddress(x) != NormalizeAddress(y)
    ensures c.hash == hash && Consistent(start) && Safe(hash, start, disks)
    ensures id in start.rebalances && start.rebalances[id] == Job(0, a, b, Progress(JobPending, 0))
            && 0 in start.versions
    ensures NET.deleteSource == DeleteFails(true)
            && LossPossible(hash, start.versions[0], Point(start.replicas, disks), 1, 0, a, b, NET)
    ensures m.Valid() && id in m.db.rebalances && m.db.rebalances[id].progress.attempts == 1
    ensures m.db == start.(replicas := m.db.replicas, rebalances := start.rebalances[id := m.db.rebalances[id]])
    ensures Moved(start.replicas, m.db.replicas, 0, a, b)
    ensures !Safe(hash, m.db, c.disks) && HasHealthy(m.db.replicas, 0, a) && (a, 0) !in c.disks
  {
    var job;
    m, c, job := Stage(hash, a, b, x, y);
    m.Opened();
    start, disks, id := m.db, c.disks, job;
    var _, outcome, points, lost := RunJob(m, c, 1, 1, job, NET);
  }
}
