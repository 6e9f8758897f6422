/** The one replica row that a repair or a migration works on. */
module Targets {
  import opened Base
  import opened Tables
  import opened Cluster
  import opened Traces
  import MM = MetadataManager

  /**
    Between two tables, row t of version v on node n went from one of `from` (or nothing) to `to`; no other
    row changed.
   */
  ghost predicate Retargeted(before: map<ReplicaId, Replica>, after: map<ReplicaId, Replica>, t: ReplicaId,
                             v: VersionId, n: NodeId, from: set<ReplicaState>, to: ReplicaState)
  {
    && IsRow(after, t, v, n) && after[t].status == to
    && after == before[t := after[t]]
    && (if t in before then IsRow(before, t, v, n) && before[t].status in from else !HasRow(before, v, n))
  }

  /** The states a row may have when work on it starts. */
  const REPAIRABLE := {Pending, Corrupted, Stale, Unavailable, Repairing}
  const COPYABLE := {Pending, Corrupted, Stale, Unavailable, Copying}

  lemma RetargetedHealthy(before: map<ReplicaId, Replica>, after: map<ReplicaId, Replica>, t: ReplicaId,
                          v: VersionId, n: NodeId, from: set<ReplicaState>, to: ReplicaState)
    requires Retargeted(before, after, t, v, n, from, to) && Healthy !in from
    ensures t !in HealthyRows(before, v)
    ensures to == Healthy ==> HealthyRows(after, v) == HealthyRows(before, v) + {t}
                              && |HealthyRows(after, v)| == |HealthyRows(before, v)| + 1
    ensures to != Healthy ==> HealthyRows(after, v) == HealthyRows(before, v)
    ensures forall r :: r in HealthyRows(before, v) ==> r in after && after[r] == before[r]
  {
    if to == Healthy {
      assert HealthyRows(after, v) == HealthyRows(before, v) + {t};
    } else {
      assert HealthyRows(after, v) == HealthyRows(before, v);
    }
  }

  /**
    While work goes on the row is not HEALTHY, so its bytes may change freely; it ends HEALTHY only on intact
    bytes.
   */
  lemma RetargetedSafe(hash: Hash, before: Tables, after: Tables, disks: Disks, disks': Disks, t: ReplicaId,
                       v: VersionId, n: NodeId, from: set<ReplicaState>, to: ReplicaState)
    requires Consistent(before) && Safe(hash, before, disks) && before.versions == after.versions && v in after.versions
    requires Retargeted(before.replicas, after.replicas, t, v, n, from, to) && Healthy !in from
    requires ChangedAt(disks, disks', n, v)
    requires to == Healthy ==> Intact(hash, disks', n, v, after.versions[v])
    ensures Safe(hash, after, disks')
  {
    forall r | r in before.replicas && before.replicas[r].version == v && before.replicas[r].node == n
      ensures before.replicas[r].status != Healthy
    {
      assert RowOk(before.replicas, r, t);
      assert IsRow(before.replicas, r, v, n);
    }
    SafeElsewhere(hash, before, disks, disks', n, v);
    assert Backed(hash, after, disks', t);
    SafeRows(hash, before, after, disks');
  }

  /** Rows are never lost on the way. */
  lemma RetargetedKeepsRows(before: map<ReplicaId, Replica>, after: map<ReplicaId, Replica>, t: ReplicaId,
                            v: VersionId, n: NodeId, from: set<ReplicaState>, to: ReplicaState)
    requires Retargeted(before, after, t, v, n, from, to)
    ensures HasRow(after, v, n)
    ensures forall w: VersionId, x :: HasRow(before, w, x) ==> HasRow(after, w, x)
    ensures forall w: VersionId, x :: HasRow(after, w, x) ==> HasRow(before, w, x) || (w, x) == (v, n)
  {
    assert IsRow(after, t, v, n);
    forall w: VersionId, x | HasRow(before, w, x) ensures HasRow(after, w, x) {
      var r :| r in before && IsRow(before, r, w, x);
      assert IsRow(after, r, w, x);
    }
    forall w: VersionId, x | HasRow(after, w, x) && (w, x) != (v, n) ensures HasRow(before, w, x) {
      var r :| r in after && IsRow(after, r, w, x);
      assert IsRow(before, r, w, x);
    }
  }

  /** Row t is the one of v on n: it was there already, or it has just been created. */
  ghost predicate Located(before: map<ReplicaId, Replica>, after: map<ReplicaId, Replica>, t: ReplicaId, v: VersionId,
                          n: NodeId) {
    && IsRow(after, t, v, n)
    && (if t in before then after == before else !HasRow(before, v,
                                                         n) && after == before[t := Replica(v, n, Pending, None, None)])
  }

  /** Find the row of a version on a node, or create it. */
  method RowFor(m: MM.MetadataManager, v: VersionId, n: NodeId) returns (t: ReplicaId)
    requires m.Valid() && v in m.db.versions && n in m.db.nodes
    modifies m`db
    ensures m.Valid() && m.db == old(m.db).(replicas := m.db.replicas)
    ensures Located(old(m.db.replicas), m.db.replicas, t, v, n)
    ensures m.db == old(m.db) || RowAction(old(m.db.replicas), m.db.replicas, {v}, t)
    ensures forall s :: s in old(m.db.replicas) && IsRow(old(m.db.replicas), s, v, n) ==> s == t
  {
    m.Opened();
    var found := m.FindRow(v, n);
    if found.Some? {
      t := found.value;
      forall s | s in m.db.replicas && IsRow(m.db.replicas, s, v, n) ensures s == t {
        assert RowOk(m.db.replicas, s, t);
      }
      return;
    }
    assert NodeOk(m.db.nodes, n);
    t := FreshId(m.db.replicas.Keys);
    var _ := m.CreateReplica(t, v, n);
  }

  /** Setting the state of a located row. */
  lemma LocatedRetargeted(before: map<ReplicaId, Replica>, mid: map<ReplicaId, Replica>, after: map<ReplicaId, Replica>,
                          t: ReplicaId,
                          v: VersionId, n: NodeId, from: set<ReplicaState>, to: ReplicaState)
    requires Located(before, mid, t, v, n) && mid[t].status in from
    requires after == mid[t := mid[t].(status := to)]
    ensures Retargeted(before, after, t, v, n, from, to)
  {
  }

  // ----- Copying bytes

  datatype TransferResult = Transferred | TransferFailed | TransferDied

  predicate Carries(hash: Hash, blob: Blob, version: Version) {
    blob.sound && hash(blob.data) == version.checksum && |blob.data| == version.size
  }

  /** One of the calls of a transfer never returns. */
  predicate TransferDies(clear: Deletion, put: Upload, verify: Reach) {
    clear.DeleteDies? || (clear.DeleteDone? && (put.UploadDies? || (put.Uploaded? && verify == Dies)))
  }

  /** A point with the given rows, at which only the bytes of v on n may differ. */
  ghost predicate OnlyBytes(p: Point, rows: map<ReplicaId, Replica>, disks: Disks, n: NodeId, v: VersionId) {
    p.replicas == rows && ChangedAt(disks, p.disks, n, v)
  }

  /**
    The copy of repair and rebalance: clear the target, upload what the source streams, verify the
    result. Only a target that measures up counts. `points` is what happens on the way, over the given rows.
   */
  method Transfer(c: Cluster, n: NodeId, v: VersionId, version: Version, clear: Deletion, put: Upload, verify: Reach,
                  ghost rows: map<ReplicaId, Replica> := map[])
    returns (r: TransferResult, ghost points: seq<Point>)
    modifies c`disks
    ensures ChangedAt(old(c.disks), c.disks, n, v)
    ensures Trace(points, {v}, Point(rows, old(c.disks)), Point(rows, c.disks))
    ensures forall i :: 0 <= i < |points| ==> OnlyBytes(points[i], rows, old(c.disks), n, v)
    ensures r == Transferred ==> Intact(c.hash, c.disks, n, v, version)
    ensures r == TransferDied <==> TransferDies(clear, put, verify)
    ensures r == Transferred <==>
              clear.DeleteDone? && put.Uploaded? && Carries(c.hash, put.blob, version) && verify == Reached
  {
    ghost var start := Point(rows, c.disks);
    TraceStarts(start, {v});
    points := [start];
    var cleared := c.Delete(n, v, clear);
    ghost var empty := Point(rows, c.disks);
    ByCall(start, empty, {v}, n, v);
    TraceMore(points, {v}, start, start, empty);
    points := points + [empty];
    assert OnlyBytes(empty, rows, old(c.disks), n, v);
    if cleared != Answered {
      return if cleared == Gone then TransferDied else TransferFailed, points;
    }
    var uploaded, _ := c.Put(n, v, put);
    ghost var full := Point(rows, c.disks);
    ByCall(empty, full, {v}, n, v);
    TraceMore(points, {v}, start, empty, full);
    points := points + [full];
    assert OnlyBytes(full, rows, old(c.disks), n, v);
    if uploaded != Answered {
      return if uploaded == Gone then TransferDied else TransferFailed, points;
    }
    var measured := c.Verify(n, v, verify, true);
    if measured == Died {
      return TransferDied, points;
    }
    r := if Agrees(measured, version) then Transferred else TransferFailed;
  }
}
