/** The control plane as a whole: any sequence of calls of its managers, each call one step. */
module ControlPlane {
  import opened Base
  import opened Tables
  import opened Metadata
  import opened Cluster
  import opened Placement
  import opened Traces
  import opened Steps
  import opened Names
  import MM = MetadataManager
  import Replication
  import Repair
  import Rebalance
  import Drain
  import Recovery
  import Integrity
  import Health

  /** A caller marks a row HEALTHY although its bytes are not right. */
  predicate FalseMark(hash: Hash, db: Tables, disks: Disks, r: ReplicaId, checksum: string, size: int) {
    && CanMarkHealthy(db, r, checksum, size)
    && !Intact(hash, disks, db.replicas[r].node, db.replicas[r].version, db.versions[db.replicas[r].version])
  }

  /** A run of the job loses its source DELETE: it takes effect, under a HEALTHY row, but reports failure. */
  ghost predicate LosingRun(hash: Hash, db: Tables, disks: Disks, settings: Settings, id: JobId,
                            move: Rebalance.RebalanceNet) {
    && id in db.rebalances && Rebalance.Starts(db, db.rebalances[id], settings.maxAttempts)
    && var job := db.rebalances[id];
       Rebalance.LossPossible(hash, db.versions[job.version], Point(db.replicas, disks), settings.factor, job.version,
                              job.source, job.target, move)
  }

  /** A migration by one call loses its source DELETE, if no other job is active. */
  ghost predicate LosingMigration(hash: Hash, db: Tables, disks: Disks, settings: Settings, v: VersionId,
                                  source: NodeId, target: NodeId, move: Rebalance.RebalanceNet) {
    && Rebalance.Lost(move.deleteSource)
    && (Rebalance.NoneActive(db.rebalances) ==>
          && Rebalance.Migratable(db, v, source, target)
          && Rebalance.LossPossible(hash, db.versions[v], Point(db.replicas, disks), settings.factor, v, source, target,
                                    move))
  }

  /** The steps that may take the bytes from under a HEALTHY row, or put a HEALTHY row over wrong ones. */
  ghost predicate Careless(hash: Hash, db: Tables, disks: Disks, settings: Settings, step: Step) {
    match step
    case Rows(MarkHealthy(r, checksum, size)) => FalseMark(hash, db, disks, r, checksum, size)
    case Copy(RunMove(id, move)) => LosingRun(hash, db, disks, settings, id, move)
    case Copy(Migrate(v, source, target, move)) => LosingMigration(hash, db, disks, settings, v, source, target, move)
    case Copy(DrainNode(_, moves)) => exists k :: Rebalance.Lost(moves(k).deleteSource)
    case _ => false
  }

  /** The steps for which being careless is all it takes to lose safety. */
  ghost predicate Exposing(db: Tables, step: Step) {
    step.Rows? || (step.Copy? && (step.copy.RunMove? || (step.copy.Migrate? && Rebalance.NoneActive(db.rebalances))))
  }

  /** The steps that may commit a version. */
  predicate Committing(step: Step) {
    (step.Edit? && step.edit.CommitVersion?) || (step.Copy? && step.copy.Replicate?)
  }

  // ----- Heartbeats

  /** The heartbeat that a step accepts, if any. */
  function Accepted(db: Tables, step: Step): Option<(NodeId, int)> {
    match step
    case Edit(UpdateHeartbeat(n, room, used, _, at)) =>
      if MM.HeartbeatVerdict(db, n, room, used, at) == Ok(true) then Some((n, at)) else None
    case Watch(Heartbeat(n, capacity, used, at)) =>
      if MM.HeartbeatVerdict(db, n, Some(capacity), Some(used), at) == Ok(true) then Some((n, at)) else None
    case Watch(HeartbeatAndRecover(n, capacity, used, at, _)) =>
      if MM.HeartbeatVerdict(db, n, Some(capacity), Some(used), at) == Ok(true) then Some((n, at)) else None
    case _ => None
  }

  /** Heartbeat times change only by the heartbeat that is accepted. */
  ghost predicate BeatStep(before: Tables, after: Tables, beat: Option<(NodeId, int)>, n: NodeId) {
    && (n in before.nodes ==>
          && n in after.nodes
          && after.nodes[n].heartbeat == if beat.Some? && beat.value.0 == n then Some(beat.value.1)
                                         else before.nodes[n].heartbeat)
    && (n !in before.nodes && n in after.nodes ==> after.nodes[n].heartbeat == None)
  }

  ghost predicate BeatsStep(before: Tables, after: Tables, beat: Option<(NodeId, int)>) {
    forall n :: BeatStep(before, after, beat, n)
  }

  // ----- Single steps

  method PerformEdit(m: MM.MetadataManager, c: Cluster, edit: EditStep) returns (ghost commits: seq<Commit>)
    requires m.Valid()
    modifies m`db, m`commits
    ensures m.Valid() && m.commits == old(m.commits) + commits
    ensures |commits| <= 1 && (commits != [] ==> edit.CommitVersion?)
    ensures ObjectsStep(old(m.db), m.db, commits) && OneStep(old(m.db), m.db)
    ensures BeatsStep(old(m.db), m.db, Accepted(old(m.db), Edit(edit))) && EditEffect(old(m.db), m.db, edit)
    ensures Safe(c.hash, old(m.db), c.disks) ==> Safe(c.hash, m.db, c.disks)
  {
    commits := [];
    ghost var beat := Accepted(m.db, Edit(edit));
    m.Opened();
    SameObjects(m.db, m.db);
    match edit {
      case CreateObject(name) =>
        var o := FreshId(m.db.objects.Keys);
        var created := m.CreateObject(o, name);
        assert created.Ok? ==> NewObject(old(m.db), m.db, NormalizeName(name).value, o);
        forall p ensures ObjectStep(old(m.db), m.db, [], p) {
        }
      case CreateVersion(o, size, checksum, expected) =>
        var v := FreshId(m.db.versions.Keys);
        var created := m.CreateVersion(v, o, size, checksum, expected);
        assert created.Ok? ==> NewVersion(old(m.db), m.db, o, size, ValidateChecksum(checksum).value, v);
        MM.CurrentUnmoved(old(m.db), m.db);
        forall p ensures ObjectStep(old(m.db), m.db, [], p) {
        }
      case CommitVersion(v, expected) =>
        var committed := m.CommitVersion(v, expected);
        if committed.Ok? {
          CommitFollowsTable(old(m.db), v, expected);
          commits := m.commits[|old(m.commits)|..];
        }
      case FailVersion(v) =>
        var _ := m.FailVersion(v);
        MM.CurrentUnmoved(old(m.db), m.db);
        forall p ensures ObjectStep(old(m.db), m.db, [], p) {
        }
      case SetObject(o, state) =>
        var _ := m.TransitionObjectState(o, state);
        forall p ensures ObjectStep(old(m.db), m.db, [], p) {
        }
      case RegisterNode(id, address, capacity, status) =>
        var generated := FreshName(m.db.nodes.Keys);
        var _ := m.RegisterNode(id, generated, address, capacity, status);
        assert Registered(old(m.db), m.db, id, address, capacity, status, generated);
        SameObjects(old(m.db), m.db);
      case SetNode(n, state) =>
        var _ := m.TransitionNodeState(n, state);
        SameObjects(old(m.db), m.db);
      case UpdateHeartbeat(n, room, used, wanted, at) =>
        var _ := m.UpdateNodeHeartbeat(n, room, used, wanted, at);
        SameObjects(old(m.db), m.db);
    }
    forall n ensures BeatStep(old(m.db), m.db, beat, n) {
    }
    SafeVersions(c.hash, old(m.db), m.db, c.disks);
  }

  /** A call on rows: at most a false mark makes the tables unsafe, and that always does. */
  method PerformRows(m: MM.MetadataManager, c: Cluster, step: RowStep) returns (ghost lost: bool)
    requires m.Valid()
    modifies m`db
    ensures m.Valid() && m.db == old(m.db).(replicas := m.db.replicas) && OneStep(old(m.db), m.db)
    ensures Safe(c.hash, old(m.db), c.disks) ==> (Safe(c.hash, m.db, c.disks) <==> !lost)
    ensures RowEffect(old(m.db), m.db, step)
    ensures lost <==> step.MarkHealthy? && FalseMark(c.hash, old(m.db), c.disks, step.r, step.checksum, step.size)
  {
    lost := false;
    m.Opened();
    match step {
      case CreateReplica(v, n) =>
        var id := FreshId(m.db.replicas.Keys);
        var created := m.CreateReplica(id, v, n);
        assert created.Ok? ==> NewRow(old(m.db), m.db, v, n, id);
      case CreateReplicas(v, nodes) =>
        var ids := Replication.FreshIds(m.db.replicas.Keys, |nodes|);
        var created := m.CreateReplicas(ids, v, nodes);
        assert created.Ok? ==> NewRows(old(m.db), m.db, v, nodes, ids);
        AddRowsContent(old(m.db.replicas), ids, v, nodes);
      case SetReplica(r, state) =>
        var _ := m.SetReplicaState(r, state);
      case SetReplicas(rows, state) =>
        var set' := m.SetReplicaStates(rows, state);
        if set'.Ok? {
          SetEachContent(old(m.db.replicas), rows, state);
        }
      case RecordVerification(r, checksum, size) =>
        var _ := m.RecordReplicaVerification(r, checksum, size);
      case MarkHealthy(r, checksum, size) =>
        lost := FalseMark(c.hash, m.db, c.disks, r, checksum, size);
        var _ := m.MarkReplicaHealthy(r, checksum, size);
        MarkedSafe(c.hash, old(m.db), m.db, c.disks, r, checksum, size);
        return;
      case RemoveReplica(r) =>
        var _ := m.RemoveReplica(r);
    }
    if Safe(c.hash, old(m.db), c.disks) {
      SafeRows(c.hash, old(m.db), m.db, c.disks);
    }
  }

  /** A mark keeps the tables safe exactly when the marked bytes are right. */
  lemma MarkedSafe(hash: Hash, before: Tables, after: Tables, disks: Disks, r: ReplicaId, checksum: string, size: int)
    requires Consistent(before)
    requires after == if CanMarkHealthy(before, r, checksum, size) then AfterHealthy(before, r) else before
    ensures Safe(hash, before, disks) ==>
              (Safe(hash, after, disks) <==> !FalseMark(hash, before, disks, r, checksum, size))
  {
    if FalseMark(hash, before, disks, r, checksum, size) {
      assert !Backed(hash, after, disks, r);
    } else if Safe(hash, before, disks) {
      SafeRows(hash, before, after, disks);
    }
  }

  /** The rows of the node table in some order. */
  method ListNodes(nodes: map<NodeId, Node>) returns (rows: seq<NodeId>)
    ensures Enumerates(rows, nodes)
  {
    rows := [];
    var rest := nodes.Keys;
    while rest != {}
      invariant rest <= nodes.Keys
      invariant forall n :: n in nodes ==> n in rows || n in rest
      invariant forall i :: 0 <= i < |rows| ==> rows[i] in nodes && rows[i] !in rest
      invariant forall i, j :: 0 <= i < j < |rows| ==> rows[i] != rows[j]
      decreases rest
    {
      var n :| n in rest;
      rows, rest := rows + [n], rest - {n};
    }
  }

  method PerformReplicate(m: MM.MetadataManager, c: Cluster, factor: nat, v: VersionId, quorum: int,
                          expected: Option<int>,
                          writes: nat -> Replication.WriteNet)
    returns (ghost commits: seq<Commit>)
    requires m.Valid() && c.Valid()
    modifies m`db, m`commits, c`disks
    ensures m.Valid() && m.commits == old(m.commits) + commits && |commits| <= 1
    ensures ObjectsStep(old(m.db), m.db, commits) && BeatsStep(old(m.db), m.db, None)
    ensures ReplicateEffect(c.hash, old(m.db), old(c.disks), m.db, c.disks, factor, v, quorum, expected, writes)
    ensures Safe(c.hash, old(m.db), old(c.disks)) ==> Safe(c.hash, m.db, c.disks)
  {
    m.Opened();
    var rows := ListNodes(m.db.nodes);
    var r, nodes, ids, results := Replication.ReplicateVersion(m, c, rows, v, factor, quorum, expected, writes);
    commits := Replication.NewCommits(old(m.db), v, expected, r.Ok?);
    SameObjects(old(m.db), old(m.db));
    if Replication.Refusal(old(m.db), v, factor, quorum, expected).None? {
      SettledObjects(old(m.db), m.db, v, quorum, expected, results, r.Ok?);
      assert Replicated(c.hash, old(m.db), old(c.disks), m.db, c.disks, factor, v, quorum, expected, writes, nodes, ids,
                        results);
    }
    forall n ensures BeatStep(old(m.db), m.db, None, n) {
    }
  }

  lemma SettledObjects(before: Tables, after: Tables, v: VersionId, quorum: int, expected: Option<int>,
                       results: seq<Replication.Written>, ok: bool)
    requires Consistent(before) && v in before.versions && before.versions[v].state == Preparing
    requires Replication.Settlement(before, after, v, quorum, expected, results, ok)
    ensures ObjectsStep(before, after, Replication.NewCommits(before, v, expected, ok)) && after.nodes == before.nodes
  {
    var commits := Replication.NewCommits(before, v, expected, ok);
    if ok {
      CommitFollowsTable(before, v, expected);
      forall o ensures ObjectStep(before, after, commits, o) {
        assert ObjectStep(before, AfterCommit(before, v), commits, o);
      }
    } else {
      MM.CurrentUnmoved(before, after);
      forall o ensures ObjectStep(before, after, commits, o) {
      }
    }
  }

  /** Steps that prepare or make repairs. */
  method PerformRepair(m: MM.MetadataManager, c: Cluster, settings: Settings, copy: CopyStep)
    requires m.Valid() && c.Valid() && settings.Valid()
    requires copy.CreateRepair? || copy.ScheduleRepair? || copy.RunRepair? || copy.RepairUntilHealthy?
    modifies m`db, c`disks
    ensures m.Valid()
    ensures ObjectsStep(old(m.db), m.db, []) && BeatsStep(old(m.db), m.db, None)
    ensures CopyEffect(c.hash, settings, old(m.db), old(c.disks), m.db, c.disks, copy)
    ensures Safe(c.hash, old(m.db), old(c.disks)) ==> Safe(c.hash, m.db, c.disks)
  {
    match copy {
      case CreateRepair(v, source, target) =>
        if v in m.db.versions {
          var _ := Repair.CreateJob(m, v, source, target);
        }
        SameRowsSafe(c.hash, old(m.db), m.db, c.disks);
      case ScheduleRepair(v, preferred) =>
        var _ := Repair.ScheduleForVersion(m, v, settings.factor, preferred);
        SameRowsSafe(c.hash, old(m.db), m.db, c.disks);
      case RunRepair(job, net) =>
        var _, outcome, t := Repair.RunJob(m, c, settings.maxAttempts, job, net);
      case RepairUntilHealthy(v, nets, latest) =>
        var _, done := Repair.RepairVersionUntilHealthy(m, c, settings.maxAttempts, v, settings.factor, nets, latest);
    }
    SameObjects(old(m.db), m.db);
    forall n ensures BeatStep(old(m.db), m.db, None, n) {
    }
  }

  /** Steps that create and run migration jobs. */
  method PerformMove(m: MM.MetadataManager, c: Cluster, settings: Settings, copy: CopyStep) returns (ghost lost: bool)
    requires m.Valid() && c.Valid() && settings.Valid() && (copy.CreateMove? || copy.RunMove?)
    modifies m`db, c`disks
    ensures m.Valid()
    ensures ObjectsStep(old(m.db), m.db, []) && BeatsStep(old(m.db), m.db, None)
    ensures CopyEffect(c.hash, settings, old(m.db), old(c.disks), m.db, c.disks, copy)
    ensures Safe(c.hash, old(m.db), old(c.disks)) ==> (Safe(c.hash, m.db, c.disks) <==> !lost)
    ensures lost ==> Careless(c.hash, old(m.db), old(c.disks), settings, Copy(copy))
    ensures Exposing(old(m.db), Copy(copy)) && Careless(c.hash, old(m.db), old(c.disks), settings, Copy(copy)) ==> lost
  {
    lost := false;
    match copy {
      case CreateMove(v, source, target) =>
        var _ := Rebalance.CreateJob(m, v, source, target);
        SameRowsSafe(c.hash, old(m.db), m.db, c.disks);
      case RunMove(job, net) =>
        var _, outcome, points, missed := Rebalance.RunJob(m, c, settings.factor, settings.maxAttempts, job, net);
        lost := missed;
    }
    SameObjects(old(m.db), m.db);
    forall n ensures BeatStep(old(m.db), m.db, None, n) {
    }
  }

  /** Migrations by one call, and drains. */
  method PerformMigration(m: MM.MetadataManager, c: Cluster, settings: Settings, copy: CopyStep)
    returns (ghost lost: bool)
    requires m.Valid() && c.Valid() && settings.Valid() && (copy.Migrate? || copy.DrainNode?)
    modifies m`db, c`disks
    ensures m.Valid()
    ensures ObjectsStep(old(m.db), m.db, []) && BeatsStep(old(m.db), m.db, None)
    ensures CopyEffect(c.hash, settings, old(m.db), old(c.disks), m.db, c.disks, copy)
    ensures Safe(c.hash, old(m.db), old(c.disks)) ==> (Safe(c.hash, m.db, c.disks) <==> !lost)
    ensures lost ==> Careless(c.hash, old(m.db), old(c.disks), settings, Copy(copy))
    ensures Exposing(old(m.db), Copy(copy)) && Careless(c.hash, old(m.db), old(c.disks), settings, Copy(copy)) ==> lost
  {
    ghost var start := Point(m.db.replicas, c.disks);
    match copy {
      case Migrate(v, source, target, net) =>
        var moved, points, missed := Rebalance.MigrateReplica(m, c, settings.factor, settings.maxAttempts, v, source,
                                                              target, net);
        lost := missed;
        if Rebalance.NoneActive(old(m.db.rebalances)) && Rebalance.Migratable(old(m.db), v, source, target)
           && moved.Err? {
          Rebalance.KeptSourceRow(start, Point(m.db.replicas, c.disks), v, source, target,
                                  Rebalance.SourceFree(c.hash, old(m.db.versions)[v], start, settings.factor, v, source,
                                                       target, net));
        }
      case DrainNode(n, nets) =>
        var _, points, missed := Drain.DrainNode(m, c, settings.factor, settings.maxAttempts, n, nets);
        lost := missed;
    }
    SameObjects(old(m.db), m.db);
    forall n ensures BeatStep(old(m.db), m.db, None, n) {
    }
  }

  /** Any step that writes, copies or deletes bytes, or prepares that. */
  method PerformCopy(m: MM.MetadataManager, c: Cluster, settings: Settings, copy: CopyStep)
    returns (ghost commits: seq<Commit>, ghost lost: bool)
    requires m.Valid() && c.Valid() && settings.Valid()
    modifies m`db, m`commits, c`disks
    ensures m.Valid() && m.commits == old(m.commits) + commits
    ensures |commits| <= 1 && (commits != [] ==> copy.Replicate?)
    ensures ObjectsStep(old(m.db), m.db, commits) && BeatsStep(old(m.db), m.db, None)
    ensures CopyEffect(c.hash, settings, old(m.db), old(c.disks), m.db, c.disks, copy)
    ensures Safe(c.hash, old(m.db), old(c.disks)) ==> (Safe(c.hash, m.db, c.disks) <==> !lost)
    ensures lost ==> Careless(c.hash, old(m.db), old(c.disks), settings, Copy(copy))
    ensures Exposing(old(m.db), Copy(copy)) && Careless(c.hash, old(m.db), old(c.disks), settings, Copy(copy)) ==> lost
  {
    commits, lost := [], false;
    if copy.Replicate? {
      commits := PerformReplicate(m, c, settings.factor, copy.v, copy.quorum, copy.expected, copy.writes);
    } else if copy.CreateRepair? || copy.ScheduleRepair? || copy.RunRepair? || copy.RepairUntilHealthy? {
      PerformRepair(m, c, settings, copy);
    } else if copy.CreateMove? || copy.RunMove? {
      lost := PerformMove(m, c, settings, copy);
    } else {
      lost := PerformMigration(m, c, settings, copy);
    }
  }

  predicate Checking(watch: WatchStep) {
    watch.CheckReplica? || watch.ScanNode? || watch.ScanVersion? || watch.CreateCheck? || watch.RunCheck?
  }

  /** Steps of the integrity manager. */
  method PerformCheck(m: MM.MetadataManager, c: Cluster, settings: Settings, watch: WatchStep)
    requires m.Valid() && settings.Valid() && Checking(watch)
    modifies m`db
    ensures m.Valid()
    ensures ObjectsStep(old(m.db), m.db, []) && BeatsStep(old(m.db), m.db, None)
    ensures WatchEffect(c.hash, settings, old(m.db), m.db, c.disks, watch)
    ensures Safe(c.hash, old(m.db), c.disks) ==> Safe(c.hash, m.db, c.disks)
  {
    match watch {
      case CheckReplica(r, how) =>
        var _ := Integrity.VerifyReplica(m, c, settings.factor, r, how);
      case ScanNode(n, reach) =>
        var _, done, results := Integrity.ScanNode(m, c, settings.factor, n, reach);
        Integrity.ScannedSafe(c.hash, old(m.db), m.db, c.disks, done, results);
        Integrity.ScannedMeans(c.hash, old(m.db), m.db, c.disks, done, results);
      case ScanVersion(v, reach) =>
        var _, done, results := Integrity.ScanVersion(m, c, settings.factor, v, reach);
        Integrity.ScannedSafe(c.hash, old(m.db), m.db, c.disks, done, results);
        Integrity.ScannedMeans(c.hash, old(m.db), m.db, c.disks, done, results);
      case CreateCheck(node, version) =>
        var created := Integrity.CreateJob(m, node, version);
        assert created.Ok? ==> NewCheck(old(m.db), m.db, node, version, created.value);
        SameRowsSafe(c.hash, old(m.db), m.db, c.disks);
      case RunCheck(job, reach) =>
        var _, outcome, done := Integrity.RunJob(m, c, settings.factor, settings.maxAttempts, job, reach);
    }
    SameObjects(old(m.db), m.db);
    forall n ensures BeatStep(old(m.db), m.db, None, n) {
    }
  }

  /** The other steps that watch the nodes. */
  method PerformWatch(m: MM.MetadataManager, c: Cluster, settings: Settings, watch: WatchStep)
    requires m.Valid() && settings.Valid() && !Checking(watch)
    modifies m`db
    ensures m.Valid()
    ensures ObjectsStep(old(m.db), m.db, []) && BeatsStep(old(m.db), m.db, Accepted(old(m.db), Watch(watch)))
    ensures WatchEffect(c.hash, settings, old(m.db), m.db, c.disks, watch)
    ensures Safe(c.hash, old(m.db), c.disks) ==> Safe(c.hash, m.db, c.disks)
  {
    ghost var beat := Accepted(m.db, Watch(watch));
    match watch {
      case Reconcile(n, reach) =>
        var _, done, stuck := Recovery.ReconcileNode(m, c, settings.factor, n, reach);
      case ReconcileAndMark(n, reach) =>
        var _, done, stuck := Recovery.ReconcileAndMarkHealthy(m, c, settings.factor, n, reach);
      case Heartbeat(n, capacity, used, at) =>
        var _ := Health.Ingest(m, n, capacity, used, at);
        SameRowsSafe(c.hash, old(m.db), m.db, c.disks);
      case HeartbeatAndRecover(n, capacity, used, at, reach) =>
        var _, done := Health.IngestAndRecover(m, c, settings.factor, n, capacity, used, at, reach);
      case DetectNode(n, now) =>
        if n in m.db.nodes {
          var _, done := Health.Evaluate(m, settings.factor, n, now, settings.suspectAfter, settings.unavailableAfter);
          Health.RowsDownSafe(c.hash, old(m.db), m.db, c.disks, done);
        }
      case DetectAll(now) =>
        var _, seen, done := Health.Scan(m, settings.factor, now, settings.suspectAfter, settings.unavailableAfter);
        Health.RowsDownSafe(c.hash, old(m.db), m.db, c.disks, done);
        forall n ensures BeatStep(old(m.db), m.db, None, n) {
          assert Health.NodeJudged(old(m.db), m.db, seen, now, settings.suspectAfter, settings.unavailableAfter, n);
        }
    }
    SameObjects(old(m.db), m.db);
    forall n ensures BeatStep(old(m.db), m.db, beat, n) {
    }
  }

  /**
    What a step may do to the tables: nothing turns back, objects follow the state table unless the step commits
    them, heartbeat times change only by the heartbeat that the step accepts, and a call of the metadata manager
    takes every row along one edge at most.
   */
  ghost predicate Transition(before: Tables, after: Tables, step: Step, commits: seq<Commit>) {
    && Follows(before, after)
    && |commits| <= 1 && (commits != [] ==> Committing(step)) && ObjectsStep(before, after, commits)
    && BeatsStep(before, after, Accepted(before, step))
    && (step.Edit? || step.Rows? ==> OneStep(before, after))
  }

  /** Safety survives every step that is not careless, and no false mark and no losing migration. */
  ghost predicate SafetyStep(hash: Hash, settings: Settings, before: Tables, from: Disks, after: Tables, to: Disks,
                             step: Step) {
    && (Safe(hash, before, from) && !Careless(hash, before, from, settings, step) ==> Safe(hash, after, to))
    && (Safe(hash, before, from) && Exposing(before, step) && Careless(hash, before, from, settings, step) ==>
          !Safe(hash, after, to))
  }

  /** One step. */
  method Perform(m: MM.MetadataManager, c: Cluster, settings: Settings, step: Step) returns (ghost commits: seq<Commit>)
    requires m.Valid() && c.Valid() && settings.Valid()
    modifies m, c`disks
    ensures m.Valid() && m.commits == old(m.commits) + commits
    ensures Transition(old(m.db), m.db, step, commits)
    ensures SafetyStep(c.hash, settings, old(m.db), old(c.disks), m.db, c.disks, step)
    ensures Effect(c.hash, settings, old(m.db), old(c.disks), m.db, c.disks, step)
  {
    commits := [];
    ghost var lost;
    m.Snapshot();
    match step {
      case Edit(edit) =>
        commits := PerformEdit(m, c, edit);
      case Rows(rows) =>
        lost := PerformRows(m, c, rows);
        SameObjects(old(m.db), m.db);
        forall n ensures BeatStep(old(m.db), m.db, None, n) {
        }
      case Copy(copy) =>
        commits, lost := PerformCopy(m, c, settings, copy);
      case Watch(watch) =>
        if Checking(watch) {
          PerformCheck(m, c, settings, watch);
        } else {
          PerformWatch(m, c, settings, watch);
        }
    }
    m.Opened();
  }

  // ----- Runs

  /** The tables before and after every step, consistent at each point, and what each step added to the log. */
  ghost predicate IsHistory(steps: seq<Step>, history: seq<Tables>, commits: seq<seq<Commit>>) {
    && |history| == |steps| + 1 && |commits| == |steps|
    && (forall i :: ConsistentAt(history, i))
    && forall i :: TransitionAt(steps, history, commits, i)
  }

  ghost predicate ConsistentAt(history: seq<Tables>, i: nat) {
    i < |history| ==> Consistent(history[i])
  }

  ghost predicate TransitionAt(steps: seq<Step>, history: seq<Tables>, commits: seq<seq<Commit>>, i: nat)
    requires |history| == |steps| + 1 && |commits| == |steps|
  {
    i < |steps| ==> Transition(history[i], history[i + 1], steps[i], commits[i])
  }

  lemma HistoryGoesOn(steps: seq<Step>, history: seq<Tables>, commits: seq<seq<Commit>>, step: Step, after: Tables,
                      new': seq<Commit>)
    requires IsHistory(steps, history, commits) && Transition(history[|steps|], after, step, new') && Consistent(after)
    ensures IsHistory(steps + [step], history + [after], commits + [new'])
  {
    var steps', history', commits' := steps + [step], history + [after], commits + [new'];
    forall i: nat ensures ConsistentAt(history', i) {
      assert ConsistentAt(history, i);
    }
    forall i: nat ensures TransitionAt(steps', history', commits', i) {
      assert TransitionAt(steps, history, commits, i);
    }
  }

  // ----- Safety over a run

  ghost predicate SafetyStepAt(hash: Hash, settings: Settings, steps: seq<Step>, history: seq<Tables>,
                               disks: seq<Disks>, i: nat)
    requires |history| == |steps| + 1 && |disks| == |steps| + 1
  {
    i < |steps| ==>
      && SafetyStep(hash, settings, history[i], disks[i], history[i + 1], disks[i + 1], steps[i])
      && Effect(hash, settings, history[i], disks[i], history[i + 1], disks[i + 1], steps[i])
  }

  /** The disks before and after every step, and what each step did to the tables, the disks and safety. */
  ghost predicate IsPhysical(hash: Hash, settings: Settings, steps: seq<Step>, history: seq<Tables>,
                             disks: seq<Disks>) {
    && |history| == |steps| + 1 && |disks| == |steps| + 1
    && forall i :: SafetyStepAt(hash, settings, steps, history, disks, i)
  }

  ghost predicate CarelessAt(hash: Hash, settings: Settings, steps: seq<Step>, history: seq<Tables>, disks: seq<Disks>,
                             i: nat) {
    && i < |steps| && i < |history| && i < |disks|
    && Careless(hash, history[i], disks[i], settings, steps[i])
  }

  /** No step before point i is careless. */
  ghost predicate CarefulUntil(hash: Hash, settings: Settings, steps: seq<Step>, history: seq<Tables>,
                               disks: seq<Disks>, i: nat) {
    forall j: nat :: j < i ==> !CarelessAt(hash, settings, steps, history, disks, j)
  }

  /** From a safe start, safety holds at every point that no careless step comes before. */
  ghost predicate SafeWhileCareful(hash: Hash, settings: Settings, steps: seq<Step>, history: seq<Tables>,
                                   disks: seq<Disks>, i: nat)
    requires |history| == |steps| + 1 && |disks| == |steps| + 1
  {
    i <= |steps| && Safe(hash, history[0], disks[0]) && CarefulUntil(hash, settings, steps, history, disks, i) ==>
      Safe(hash, history[i], disks[i])
  }

  lemma PhysicalGoesOn(hash: Hash, settings: Settings, steps: seq<Step>, history: seq<Tables>, disks: seq<Disks>,
                       step: Step, after: Tables, to: Disks)
    requires IsPhysical(hash, settings, steps, history, disks)
    requires SafetyStep(hash, settings, history[|steps|], disks[|steps|], after, to, step)
    requires Effect(hash, settings, history[|steps|], disks[|steps|], after, to, step)
    ensures IsPhysical(hash, settings, steps + [step], history + [after], disks + [to])
  {
    var steps', history', disks' := steps + [step], history + [after], disks + [to];
    forall i: nat ensures SafetyStepAt(hash, settings, steps', history', disks', i) {
      assert SafetyStepAt(hash, settings, steps, history, disks, i);
    }
  }

  lemma {:induction false} SafeUntilCareless(hash: Hash, settings: Settings, steps: seq<Step>, history: seq<Tables>,
                                             disks: seq<Disks>, i: nat)
    requires IsPhysical(hash, settings, steps, history, disks)
    ensures SafeWhileCareful(hash, settings, steps, history, disks, i)
  {
    if 0 < i <= |steps| && Safe(hash, history[0], disks[0])
       && CarefulUntil(hash, settings, steps, history, disks, i) {
      SafeUntilCareless(hash, settings, steps, history, disks, i - 1);
      assert SafetyStepAt(hash, settings, steps, history, disks, i - 1);
      assert !CarelessAt(hash, settings, steps, history, disks, i - 1);
    }
  }

  /**
    Over a run without drains, whose migrations by one call find no other job active: every point is safe exactly
    when the first one is and no step is a false mark or loses its source DELETE.
   */
  lemma SafeExactly(hash: Hash, settings: Settings, steps: seq<Step>, history: seq<Tables>, disks: seq<Disks>)
    requires IsPhysical(hash, settings, steps, history, disks)
    requires forall i :: 0 <= i < |steps| && steps[i].Copy? ==>
               !steps[i].copy.DrainNode? && (steps[i].copy.Migrate? ==> Rebalance.NoneActive(history[i].rebalances))
    ensures (forall i :: 0 <= i <= |steps| ==> Safe(hash, history[i], disks[i])) <==>
              && Safe(hash, history[0], disks[0])
              && forall i: nat :: !CarelessAt(hash, settings, steps, history, disks, i)
  {
    if forall i: nat :: !CarelessAt(hash, settings, steps, history, disks, i) {
      if Safe(hash, history[0], disks[0]) {
        forall i | 0 <= i <= |steps| ensures Safe(hash, history[i], disks[i]) {
          SafeUntilCareless(hash, settings, steps, history, disks, i);
          assert CarefulUntil(hash, settings, steps, history, disks, i);
        }
      }
    } else {
      var i: nat :| CarelessAt(hash, settings, steps, history, disks, i);
      assert SafetyStepAt(hash, settings, steps, history, disks, i);
      assert Safe(hash, history[i], disks[i]) ==> !Safe(hash, history[i + 1], disks[i + 1]);
    }
  }

  function Flat(commits: seq<seq<Commit>>): seq<Commit> {
    if commits == [] then [] else Flat(commits[..|commits| - 1]) + commits[|commits| - 1]
  }

  /** The accepted heartbeats of a run, in order. */
  function Beats(steps: seq<Step>, history: seq<Tables>): seq<(NodeId, int)>
    requires |history| == |steps| + 1
  {
    if steps == [] then []
    else
      var k := |steps| - 1;
      var beat := Accepted(history[k], steps[k]);
      Beats(steps[..k], history[..k + 1]) + if beat.Some? then [beat.value] else []
  }

  ghost predicate BeatOk(beats: seq<(NodeId, int)>, db: Tables, i: nat) {
    i < |beats| ==>
      && beats[i].0 in db.nodes && db.nodes[beats[i].0].heartbeat.Some?
      && beats[i].1 <= db.nodes[beats[i].0].heartbeat.value
  }

  ghost predicate BeatOrder(beats: seq<(NodeId, int)>, i: nat, j: nat) {
    i < j < |beats| && beats[i].0 == beats[j].0 ==> beats[i].1 < beats[j].1
  }

  /** The accepted heartbeats of each node are strictly increasing, up to the one on its row. */
  ghost predicate BeatsOk(beats: seq<(NodeId, int)>, db: Tables) {
    (forall i :: BeatOk(beats, db, i)) && (forall i, j :: BeatOrder(beats, i, j))
  }

  lemma BeatsGoOn(beats: seq<(NodeId, int)>, before: Tables, after: Tables, step: Step, commits: seq<Commit>)
    requires BeatsOk(beats, before) && Transition(before, after, step, commits)
    ensures var beat := Accepted(before, step); BeatsOk(beats + (if beat.Some? then [beat.value] else []), after)
  {
    var beat := Accepted(before, step);
    var beats' := beats + if beat.Some? then [beat.value] else [];
    if beat.Some? {
      assert BeatStep(before, after, beat, beat.value.0);
    }
    forall i: nat ensures BeatOk(beats', after, i) {
      assert BeatOk(beats, before, i);
      if i < |beats| {
        assert NodeFollows(before, after, beats[i].0);
      }
    }
    forall i: nat, j: nat ensures BeatOrder(beats', i, j) {
      assert BeatOrder(beats, i, j) && BeatOk(beats, before, i);
    }
  }

  /** Over every history, accepted heartbeats are strictly increasing per node. */
  lemma {:induction false} BeatsIncrease(steps: seq<Step>, history: seq<Tables>, commits: seq<seq<Commit>>)
    requires IsHistory(steps, history, commits)
    ensures BeatsOk(Beats(steps, history), history[|steps|])
    decreases |steps|
  {
    if steps != [] {
      var k := |steps| - 1;
      var steps', history', commits' := steps[..k], history[..k + 1], commits[..k];
      forall i: nat ensures ConsistentAt(history', i) {
        assert ConsistentAt(history, i);
      }
      forall i: nat ensures TransitionAt(steps', history', commits', i) {
        assert TransitionAt(steps, history, commits, i);
      }
      BeatsIncrease(steps', history', commits');
      assert TransitionAt(steps, history, commits, k);
      BeatsGoOn(Beats(steps', history'), history[k], history[k + 1], steps[k], commits[k]);
    }
  }

  /** Object o keeps to the state table in step i. */
  ghost predicate KeepsToTable(history: seq<Tables>, i: nat, o: ObjectId) {
    i + 1 < |history| && o in history[i].objects ==>
      o in history[i + 1].objects && ObjectEdge(history[i].objects[o].state, history[i + 1].objects[o].state)
  }

  /** Step i commits a version of object o, which is not ACTIVE. */
  ghost predicate Resurrects(history: seq<Tables>, commits: seq<seq<Commit>>, i: nat, o: ObjectId) {
    i < |commits| && i < |history| && HasCommit(commits[i], o) && o in history[i].objects
      && history[i].objects[o].state != Active
  }

  /**
    Over every history, object states follow the state table exactly when no commit succeeds on an object that
    is not ACTIVE.
   */
  lemma TableKeptExactly(steps: seq<Step>, history: seq<Tables>, commits: seq<seq<Commit>>)
    requires IsHistory(steps, history, commits)
    ensures (forall i: nat, o :: KeepsToTable(history, i, o)) <==>
              (forall i: nat, o :: !Resurrects(history, commits, i, o))
  {
    forall i: nat, o ensures KeepsToTable(history, i, o) <==> !Resurrects(history, commits, i, o) {
      assert TransitionAt(steps, history, commits, i);
      if i < |steps| {
        assert ObjectStep(history[i], history[i + 1], commits[i], o);
      }
    }
  }

  /** The next step of a run. */
  method PerformNext(m: MM.MetadataManager, c: Cluster, settings: Settings, steps: seq<Step>, k: nat,
                     ghost history: seq<Tables>, ghost disks: seq<Disks>, ghost commits: seq<seq<Commit>>,
                     ghost first: Tables)
    returns (ghost new': seq<Commit>)
    requires m.Valid() && c.Valid() && settings.Valid() && k < |steps| && |commits| == k && Follows(first, m.db)
    requires IsHistory(steps[..k], history, commits) && history[k] == m.db
    requires IsPhysical(c.hash, settings, steps[..k], history, disks) && disks[k] == c.disks
    modifies m, c`disks
    ensures m.Valid() && m.commits == old(m.commits) + new' && Flat(commits + [new']) == Flat(commits) + new'
    ensures IsHistory(steps[..k + 1], history + [m.db], commits + [new'])
    ensures IsPhysical(c.hash, settings, steps[..k + 1], history + [m.db], disks + [c.disks])
    ensures Follows(first, m.db)
  {
    ghost var before := m.db;
    new' := Perform(m, c, settings, steps[k]);
    FollowsOn(first, before, m.db);
    m.Opened();
    HistoryGoesOn(steps[..k], history, commits, steps[k], m.db, new');
    PhysicalGoesOn(c.hash, settings, steps[..k], history, disks, steps[k], m.db, c.disks);
    assert steps[..k] + [steps[k]] == steps[..k + 1];
    assert (commits + [new'])[..k] == commits;
  }

  /**
    Any run of the control plane, whatever the node calls do.

    `history` and `disks` have the state before and after every step, and `commits` what each step added to the log.
    The tables are consistent at every point and nothing turns back: FAILED rows, COMMITTED and FAILED versions,
    version contents, heartbeat times, REMOVED nodes and current version numbers. From a safe start, every HEALTHY
    row is backed by a node that holds bytes of the version's size and checksum, at every point that no careless
    step comes before.
   */
  method Run(m: MM.MetadataManager, c: Cluster, settings: Settings, steps: seq<Step>)
    returns (ghost history: seq<Tables>, ghost disks: seq<Disks>, ghost commits: seq<seq<Commit>>)
    requires m.Valid() && c.Valid() && settings.Valid()
    modifies m, c`disks
    ensures m.Valid() && m.commits == old(m.commits) + Flat(commits)
    ensures IsHistory(steps, history, commits) && history[0] == old(m.db) && history[|steps|] == m.db
    ensures IsPhysical(c.hash, settings, steps, history, disks) && disks[0] == old(c.disks)
            && disks[|steps|] == c.disks
    ensures Follows(old(m.db), m.db)
    ensures BeatsOk(Beats(steps, history), m.db)
    ensures (forall i: nat, o :: KeepsToTable(history, i, o)) <==>
              (forall i: nat, o :: !Resurrects(history, commits, i, o))
    ensures forall i: nat :: SafeWhileCareful(c.hash, settings, steps, history, disks, i)
  {
    history, disks, commits := [m.db], [c.disks], [];
    FollowsItself(m.db);
    m.Opened();
    for k := 0 to |steps|
      invariant m.Valid() && m.commits == old(m.commits) + Flat(commits)
      invariant |commits| == k && IsHistory(steps[..k], history, commits) && history[0] == old(m.db)
                && history[k] == m.db
      invariant IsPhysical(c.hash, settings, steps[..k], history, disks) && disks[0] == old(c.disks)
                && disks[k] == c.disks
      invariant Follows(old(m.db), m.db)
    {
      ghost var new' := PerformNext(m, c, settings, steps, k, history, disks, commits, old(m.db));
      history, disks, commits := history + [m.db], disks + [c.disks], commits + [new'];
    }
    assert steps[..|steps|] == steps;
    RunMeans(c.hash, settings, steps, history, disks, commits);
  }

  /** What follows from a history of steps. */
  lemma RunMeans(hash: Hash, settings: Settings, steps: seq<Step>, history: seq<Tables>, disks: seq<Disks>,
                 commits: seq<seq<Commit>>)
    requires IsHistory(steps, history, commits) && IsPhysical(hash, settings, steps, history, disks)
    ensures BeatsOk(Beats(steps, history), history[|steps|])
    ensures (forall i: nat, o :: KeepsToTable(history, i, o)) <==>
              (forall i: nat, o :: !Resurrects(history, commits, i, o))
    ensures forall i: nat :: SafeWhileCareful(hash, settings, steps, history, disks, i)
  {
    BeatsIncrease(steps, history, commits);
    TableKeptExactly(steps, history, commits);
    forall i: nat ensures SafeWhileCareful(hash, settings, steps, history, disks, i) {
      SafeUntilCareless(hash, settings, steps, history, disks, i);
    }
  }

  /**
    A run from nothing: the whole life of a control plane. The log of commits is complete, so over the whole life the
    numbers committed for an object strictly rise, and no two commits of it expected the same version.
   */
  method Life(hash: Hash, settings: Settings, steps: seq<Step>)
    returns (m: MM.MetadataManager, c: Cluster, ghost history: seq<Tables>, ghost disks: seq<Disks>,
             ghost commits: seq<seq<Commit>>)
    requires YieldsDigests(hash) && settings.Valid()
    ensures m.Valid() && c.hash == hash && m.commits == Flat(commits)
    ensures IsHistory(steps, history, commits) && history[|steps|] == m.db
            && history[0] == Tables(map[], map[], map[], map[], map[], map[], map[])
    ensures IsPhysical(hash, settings, steps, history, disks) && disks[0] == map[] && disks[|steps|] == c.disks
    ensures Consistent(m.db) && CommitsOk(Flat(commits), m.db) && BeatsOk(Beats(steps, history), m.db)
    ensures forall i: nat, j: nat :: OnePerExpectation(Flat(commits), i, j)
    ensures Safe(hash, history[0], disks[0])
            && forall i: nat :: SafeWhileCareful(hash, settings, steps, history, disks, i)
  {
    m := new MM.MetadataManager();
    c := new Cluster(hash);
    assert Safe(hash, m.db, c.disks) by {
      forall r ensures Backed(hash, m.db, c.disks, r) {
      }
    }
    history, disks, commits := Run(m, c, settings, steps);
    m.Opened();
    forall i: nat, j: nat ensures OnePerExpectation(m.commits, i, j) {
      if i < j < |m.commits| && m.commits[i].owner == m.commits[j].owner {
        OneCommitPerExpectation(m.commits, m.db, i, j);
      }
    }
  }
}
