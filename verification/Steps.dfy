/** The calls of the managers as steps, and what each of them does to the tables and the disks. */
module Steps {
  import opened Base
  import opened Names
  import opened Tables
  import opened Metadata
  import opened Cluster
  import opened Jobs
  import opened Placement
  import opened Traces
  import MM = MetadataManager
  import Replication
  import Repair
  import Rebalance
  import Drain
  import Recovery
  import Integrity
  import Health

  datatype Settings = Settings(factor: nat, maxAttempts: nat, suspectAfter: int, unavailableAfter: int) {
    predicate Valid() {
      factor >= 1 && maxAttempts >= 1 && 0 < suspectAfter < unavailableAfter
    }
  }

  /** Calls of the metadata manager. */
  datatype EditStep =
    | CreateObject(name: string)
    | CreateVersion(o: ObjectId, size: int, checksum: string, expected: Option<int>)
    | CommitVersion(v: VersionId, expected: Option<int>)
    | FailVersion(v: VersionId)
    | SetObject(o: ObjectId, objectState: ObjectState)
    | RegisterNode(id: Option<string>, address: string, capacity: int, status: NodeState)
    | SetNode(n: NodeId, nodeState: NodeState)
    | UpdateHeartbeat(n: NodeId, room: Option<int>, used: Option<int>, wanted: Option<NodeState>, at: int)

  /** Calls of the metadata manager on replica rows. */
  datatype RowStep =
    | CreateReplica(v: VersionId, n: NodeId)
    | CreateReplicas(v: VersionId, nodes: seq<NodeId>)
    | SetReplica(r: ReplicaId, state: ReplicaState)
    | SetReplicas(rows: seq<ReplicaId>, state: ReplicaState)
    | RecordVerification(r: ReplicaId, checksum: string, size: int)
    | MarkHealthy(r: ReplicaId, checksum: string, size: int)
    | RemoveReplica(r: ReplicaId)

  /** Calls that write, copy or delete bytes, or prepare that. */
  datatype CopyStep =
    | Replicate(v: VersionId, quorum: int, expected: Option<int>, writes: nat -> Replication.WriteNet)
    | CreateRepair(v: VersionId, source: NodeId, target: NodeId)
    | ScheduleRepair(v: VersionId, preferred: Option<ReplicaId>)
    | RunRepair(job: JobId, repair: Repair.RepairNet)
    | RepairUntilHealthy(v: VersionId, repairs: nat -> Repair.RepairNet, latest: Repair.Order)
    | CreateMove(v: VersionId, source: NodeId, target: NodeId)
    | RunMove(job: JobId, move: Rebalance.RebalanceNet)
    | Migrate(v: VersionId, source: NodeId, target: NodeId, move: Rebalance.RebalanceNet)
    | DrainNode(n: NodeId, moves: ReplicaId -> Rebalance.RebalanceNet)

  /** Calls that only watch the nodes. */
  datatype WatchStep =
    | Reconcile(n: NodeId, reach: ReplicaId -> Reach)
    | ReconcileAndMark(n: NodeId, reach: ReplicaId -> Reach)
    | CheckReplica(r: ReplicaId, how: Reach)
    | ScanNode(n: NodeId, reach: ReplicaId -> Reach)
    | ScanVersion(v: VersionId, reach: ReplicaId -> Reach)
    | CreateCheck(node: Option<NodeId>, version: Option<VersionId>)
    | RunCheck(job: JobId, reach: ReplicaId -> Reach)
    | Heartbeat(n: NodeId, capacity: int, used: int, at: int)
    | HeartbeatAndRecover(n: NodeId, capacity: int, used: int, at: int, reach: ReplicaId -> Reach)
    | DetectNode(n: NodeId, now: int)
    | DetectAll(now: int)

  datatype Step = Edit(edit: EditStep) | Rows(rows: RowStep) | Copy(copy: CopyStep) | Watch(watch: WatchStep)

  // ----- Effects of calls of the metadata manager

  ghost predicate NewObject(before: Tables, after: Tables, name: string, o: ObjectId) {
    o !in before.objects && after == before.(objects := before.objects[o := Object(name, None, Active)])
  }

  /** The new version of object o has a number above all others of it. */
  ghost predicate NewVersion(before: Tables, after: Tables, o: ObjectId, size: int, checksum: string, v: VersionId) {
    && v !in before.versions && v in after.versions && size >= 0
    && after == before.(versions := before.versions[v := Version(o, after.versions[v].number, size, checksum,
                                                                 Preparing)])
    && forall w :: w in before.versions && before.versions[w].owner == o ==>
         before.versions[w].number < after.versions[v].number
  }

  predicate VersionAllowed(db: Tables, o: ObjectId, size: int, checksum: string, expected: Option<int>) {
    && size >= 0 && ValidateChecksum(checksum).Ok? && (expected.Some? ==> expected.value >= 0)
    && o in db.objects && db.objects[o].state == Active && ExpectedMatches(expected, CurrentNumber(db, o))
  }

  ghost predicate Registered(before: Tables, after: Tables, id: Option<string>, address: string, capacity: int,
                             status: NodeState, generated: NodeId) {
    && generated !in before.nodes && generated != ""
    && var r := MM.Registration(before, id, generated, address, capacity);
       if r.Ok? && r.value !in before.nodes
       then capacity >= 0
            && after == before.(nodes := before.nodes[r.value := Node(NormalizeAddress(address), status, capacity, 0,
                                                                      None)])
       else after == before
  }

  ghost predicate EditEffect(before: Tables, after: Tables, edit: EditStep) {
    match edit
    case CreateObject(name) =>
      if NormalizeName(name).None? || MM.NameTaken(before.objects, NormalizeName(name).value) then after == before
      else exists o :: NewObject(before, after, NormalizeName(name).value, o)
    case CreateVersion(o, size, checksum, expected) =>
      if VersionAllowed(before, o, size, checksum, expected)
      then exists v :: NewVersion(before, after, o, size, ValidateChecksum(checksum).value, v)
      else after == before
    case CommitVersion(v, expected) =>
      after == if CanCommit(before, v, expected) && (expected.Some? ==> expected.value >= 0)
               then AfterCommit(before, v) else before
    case FailVersion(v) =>
      after == if v in before.versions && before.versions[v].state != Committed
               then before.(versions := before.versions[v := before.versions[v].(state := VersionFailed)])
               else before
    case SetObject(o, state) =>
      after == if o in before.objects && ObjectEdge(before.objects[o].state, state)
               then before.(objects := before.objects[o := before.objects[o].(state := state)])
               else before
    case RegisterNode(id, address, capacity, status) =>
      exists generated :: Registered(before, after, id, address, capacity, status, generated)
    case SetNode(n, state) =>
      after == if n in before.nodes && (state == before.nodes[n].status || state in NodeEdges(before.nodes[n].status))
               then before.(nodes := before.nodes[n := before.nodes[n].(status := state)])
               else before
    case UpdateHeartbeat(n, room, used, wanted, at) =>
      if MM.HeartbeatVerdict(before, n, room, used, at) != Ok(true) then after == before
      else
        var heard := MM.AfterHeartbeat(before.nodes[n], room, used, at);
        var status := if wanted.Some? && wanted.value in NodeEdges(heard.status) then wanted.value else heard.status;
        after == before.(nodes := before.nodes[n := heard.(status := status)])
  }

  // ----- Effects of calls on replica rows

  predicate RowAllowed(db: Tables, v: VersionId, n: NodeId) {
    n != "" && v in db.versions && n in db.nodes && !HasRow(db.replicas, v, n)
  }

  ghost predicate NewRow(before: Tables, after: Tables, v: VersionId, n: NodeId, r: ReplicaId) {
    r !in before.replicas && after == before.(replicas := before.replicas[r := Replica(v, n, Pending, None, None)])
  }

  ghost predicate NewRows(before: Tables, after: Tables, v: VersionId, nodes: seq<NodeId>, ids: seq<ReplicaId>) {
    && |ids| == |nodes| && (forall i :: 0 <= i < |ids| ==> ids[i] !in before.replicas)
    && (forall i, j :: 0 <= i < j < |ids| ==> ids[i] != ids[j])
    && after == before.(replicas := AddRows(before.replicas, ids, v, nodes))
  }

  ghost predicate RowEffect(before: Tables, after: Tables, step: RowStep) {
    match step
    case CreateReplica(v, n) =>
      if RowAllowed(before, v, n) then exists r :: NewRow(before, after, v, n, r) else after == before
    case CreateReplicas(v, nodes) =>
      if nodes != [] && MM.Distinct(nodes) && v in before.versions && forall n :: n in nodes ==>
          RowAllowed(before, v, n)
      then exists ids :: NewRows(before, after, v, nodes, ids)
      else after == before
    case SetReplica(r, state) =>
      after == if CanSet(before.replicas, r, state)
               then before.(replicas := WithStatus(before.replicas, r, state)) else before
    case SetReplicas(rows, state) =>
      after == if state != Healthy && forall i :: 0 <= i < |rows| ==> CanSet(before.replicas, rows[i], state)
               then before.(replicas := SetEach(before.replicas, rows, state)) else before
    case RecordVerification(_, _, _) => after == before
    case MarkHealthy(r, checksum, size) =>
      after == if CanMarkHealthy(before, r, checksum, size) then AfterHealthy(before, r) else before
    case RemoveReplica(r) =>
      after == if r in before.replicas && before.replicas[r].status in {Healthy, Corrupted, Stale, Unavailable}
               then before.(replicas := before.replicas - {r}) else before
  }

  // ----- Effects of calls that move bytes

  /** A replication that was not refused: the best nodes, rows settled, and the quorum decides. */
  ghost predicate Replicated(hash: Hash, before: Tables, from: Disks, after: Tables, to: Disks, factor: nat,
                             v: VersionId, quorum: int, expected: Option<int>, writes: nat -> Replication.WriteNet,
                             nodes: seq<NodeId>, ids: seq<ReplicaId>, results: seq<Replication.Written>)
  {
    && v in before.versions && |results| == |nodes|
    && IsTop(before.nodes, EligibleNodes(before, v, before.versions[v].size, {}), factor, nodes)
    && (forall i :: Replication.WriteDone(hash, from, to, v, before.versions[v], nodes, writes, results, i))
    && Replication.Batch(before.replicas, after.replicas, v, ids, nodes, results)
    && Replication.Quorate(before, after, v, quorum, expected, ids, results)
  }

  ghost predicate ReplicateEffect(hash: Hash, before: Tables, from: Disks, after: Tables, to: Disks, factor: nat,
                                  v: VersionId, quorum: int, expected: Option<int>,
                                  writes: nat -> Replication.WriteNet)
  {
    if Replication.Refusal(before, v, factor, quorum, expected).Some? then after == before && to == from
    else exists nodes, ids, results ::
           Replicated(hash, before, from, after, to, factor, v, quorum, expected, writes, nodes, ids, results)
  }

  ghost predicate RepairRan(hash: Hash, settings: Settings, before: Tables, from: Disks, after: Tables, id: JobId,
                            net: Repair.RepairNet) {
    id in before.repairs ==>
      && id in after.repairs && before.repairs[id].version in before.versions
      && var job := before.repairs[id];
         var outcome := Repair.OutcomeOf(hash, before, from, job, before.versions[job.version], settings.maxAttempts,
                                         net);
         && after.repairs == before.repairs[id := job.(progress := After(job.progress, settings.maxAttempts, outcome))]
         && (outcome == Succeeded ==> HasRowIn(after.replicas, job.version, job.target, {Healthy}))
  }

  ghost predicate MoveRan(hash: Hash, settings: Settings, before: Tables, from: Disks, after: Tables, id: JobId,
                          net: Rebalance.RebalanceNet) {
    id in before.rebalances && Rebalance.Starts(before, before.rebalances[id], settings.maxAttempts) ==>
      && id in after.rebalances
      && var job := before.rebalances[id];
         && after.rebalances[id].progress.attempts == job.progress.attempts + 1
         && (after.rebalances[id].progress.status == JobSucceeded <==>
               Rebalance.MovePossible(hash, before.versions[job.version], Point(before.replicas, from), settings.factor,
                                      job.version, job.source, job.target, net))
         && (after.rebalances[id].progress.status == JobSucceeded ==>
               !HasRow(after.replicas, job.version, job.source)
                 && Rebalance.HasHealthy(after.replicas, job.version, job.target))
  }

  /** With no job active, a migration moves the row exactly when it may and can, and otherwise leaves it. */
  ghost predicate Migrated(hash: Hash, settings: Settings, before: Tables, from: Disks, after: Tables, v: VersionId,
                           source: NodeId, target: NodeId, net: Rebalance.RebalanceNet) {
    Rebalance.NoneActive(before.rebalances) ==>
      if Rebalance.Migratable(before, v, source, target)
         && Rebalance.MovePossible(hash, before.versions[v], Point(before.replicas, from), settings.factor, v, source,
                                   target, net)
      then !HasRow(after.replicas, v, source) && Rebalance.HasHealthy(after.replicas, v, target)
      else HasRow(before.replicas, v, source) ==> HasRow(after.replicas, v, source)
  }

  /** With no job active, a drain takes the rows off the node exactly when it may and all of them can go. */
  ghost predicate Drained(hash: Hash, settings: Settings, before: Tables, from: Disks, after: Tables, n: NodeId,
                          nets: ReplicaId -> Rebalance.RebalanceNet) {
    var all := && n in before.nodes && before.nodes[n].status in {NodeHealthy, NodeDraining}
               && Drain.CanDrain(hash, before, from, settings.factor, n, nets);
    && (n in before.nodes ==>
          && n in after.nodes
          && (before.nodes[n].status in {NodeHealthy, NodeDraining} ==>
                after.nodes[n].status in {NodeDraining, NodeRemoved}))
    && (Rebalance.NoneActive(before.rebalances) ==>
          && (all ==> Drain.AllDrained(before, after.replicas, settings.factor, n))
          && (n in before.nodes && before.nodes[n].status != NodeRemoved ==>
                (after.nodes[n].status == NodeRemoved <==> all && RowsOn(after.replicas, n) == {})))
  }

  ghost predicate CopyEffect(hash: Hash, settings: Settings, before: Tables, from: Disks, after: Tables, to: Disks,
                             copy: CopyStep) {
    match copy
    case Replicate(v, quorum, expected, writes) =>
      ReplicateEffect(hash, before, from, after, to, settings.factor, v, quorum, expected, writes)
    case CreateRepair(v, source, target) =>
      && to == from && after == before.(repairs := after.repairs) && Repair.JobsKept(before.repairs, after.repairs)
      && (v in before.versions && source in before.nodes && target in before.nodes && source != target ==>
            exists j :: Repair.IsActive(after.repairs, j, v, target))
    case ScheduleRepair(v, preferred) =>
      && to == from && after == before.(repairs := after.repairs) && Repair.JobsKept(before.repairs, after.repairs)
      && (v in before.versions && preferred.None? ==> Repair.Served(after, settings.factor, v))
    case RunRepair(id, net) => RepairRan(hash, settings, before, from, after, id, net)
    case RepairUntilHealthy(v, nets, latest) =>
      Repair.IsOrder(latest) && Repair.Idle(before.repairs, v) ==>
        (|HealthyRows(after.replicas, v)| >= settings.factor <==>
           || |HealthyRows(before.replicas, v)| >= settings.factor
           || Repair.CanComplete(hash, before, from, v, settings.factor, nets, latest))
    case CreateMove(v, source, target) =>
      && to == from && after == before.(rebalances := after.rebalances)
      && (if Rebalance.Migratable(before, v, source, target)
          then exists j :: Rebalance.IsActive(after.rebalances, j, v, target)
          else after == before)
    case RunMove(id, net) => MoveRan(hash, settings, before, from, after, id, net)
    case Migrate(v, source, target, net) => Migrated(hash, settings, before, from, after, v, source, target, net)
    case DrainNode(n, nets) => Drained(hash, settings, before, from, after, n, nets)
  }

  // ----- Effects of calls that watch the nodes

  /** A scan that can get through finds exactly the bad rows. */
  ghost predicate ScanEffect(hash: Hash, before: Tables, after: Tables, disks: Disks, node: Option<NodeId>,
                             version: Option<VersionId>, reach: ReplicaId -> Reach) {
    var scope := Integrity.Scope(before, node, version);
    !Integrity.Unknown(before, node, version) && Integrity.Clean(hash, before, disks, reach, scope) ==>
      Integrity.Checked(hash, before, after, disks, scope)
  }

  ghost predicate ReconcileEffect(hash: Hash, before: Tables, after: Tables, disks: Disks, n: NodeId,
                                  reach: ReplicaId -> Reach, marked: bool) {
    var known := Recovery.Known(before, n);
    var due := n in before.nodes && before.nodes[n].status == NodeRecovering;
    var through := due && Recovery.AllReconcilable(hash, before, disks, reach, known);
    && (!due ==> after == before)
    && (through ==> Recovery.Progressed(hash, before, after, disks, reach, known))
    && after.nodes == if marked && through && Recovery.AllSolved(hash, before, disks, reach, known)
                      then before.nodes[n := before.nodes[n].(status := NodeHealthy)] else before.nodes
  }

  ghost predicate NewCheck(before: Tables, after: Tables, node: Option<NodeId>, version: Option<VersionId>, j: JobId) {
    && j !in before.checks
    && after == before.(checks := before.checks[j := Check(node, version, Progress(JobPending, 0), 0, 0)])
  }

  ghost predicate CheckRan(hash: Hash, settings: Settings, before: Tables, after: Tables, disks: Disks, id: JobId,
                           reach: ReplicaId -> Reach) {
    id in before.checks && !Finished(before.checks[id].progress, settings.maxAttempts) ==>
      && id in after.checks
      && var job := before.checks[id];
         var scope := Integrity.Scope(before, job.node, job.version);
         && after.checks[id].progress.attempts == job.progress.attempts + 1
         && (after.checks[id].progress.status == JobSucceeded <==>
               && !Integrity.Unknown(before, job.node, job.version)
               && Integrity.Clean(hash, before, disks, reach, scope))
         && (after.checks[id].progress.status == JobSucceeded ==>
               Integrity.Checked(hash, before, after, disks, scope) && after.checks[id].checked == |scope|)
  }

  ghost predicate WatchEffect(hash: Hash, settings: Settings, before: Tables, after: Tables, disks: Disks,
                              watch: WatchStep) {
    match watch
    case Reconcile(n, reach) => ReconcileEffect(hash, before, after, disks, n, reach, false)
    case ReconcileAndMark(n, reach) => ReconcileEffect(hash, before, after, disks, n, reach, true)
    case CheckReplica(r, how) =>
      if Integrity.Checkable(before, r) && Integrity.Measurable(before, disks, how, r)
         && Integrity.Bad(hash, before, disks, r)
      then after.replicas == WithStatus(before.replicas, r, Corrupted)
      else after == before
    case ScanNode(n, reach) => ScanEffect(hash, before, after, disks, Some(n), None, reach)
    case ScanVersion(v, reach) => ScanEffect(hash, before, after, disks, None, Some(v), reach)
    case CreateCheck(node, version) =>
      if (node.Some? && node.value !in before.nodes) || (version.Some? && version.value !in before.versions)
      then after == before
      else exists j :: NewCheck(before, after, node, version, j)
    case RunCheck(id, reach) => CheckRan(hash, settings, before, after, disks, id, reach)
    case Heartbeat(n, capacity, used, at) =>
      after == if MM.HeartbeatVerdict(before, n, Some(capacity), Some(used), at) == Ok(true)
               then Health.Heard(before, n, capacity, used, at) else before
    case HeartbeatAndRecover(n, capacity, used, at, reach) =>
      if MM.HeartbeatVerdict(before, n, Some(capacity), Some(used), at) != Ok(true) then after == before
      else
        var heard := Health.Heard(before, n, capacity, used, at);
        if Health.Returns(before, n, capacity, used, at)
        then ReconcileEffect(hash, heard, after, disks, n, reach, true)
        else after == heard
    case DetectNode(n, now) =>
      after.nodes == if n !in before.nodes then before.nodes
                     else before.nodes[n := before.nodes[n].(status := Health.Judge(before.nodes[n], now,
                                                                                    settings.suspectAfter,
                                                                                    settings.unavailableAfter))]
    case DetectAll(now) =>
      && Health.Judged(before, after, before.nodes.Keys, now, settings.suspectAfter, settings.unavailableAfter)
      && var fallen := Health.Fallen(before, before.nodes.Keys, now, settings.suspectAfter, settings.unavailableAfter);
         Health.RowsDown(before, after, fallen) && Health.AllServed(before, after, settings.factor, fallen)
  }

  /** What a step does, whatever else the call returns. */
  ghost predicate Effect(hash: Hash, settings: Settings, before: Tables, from: Disks, after: Tables, to: Disks,
                         step: Step) {
    match step
    case Edit(edit) => to == from && EditEffect(before, after, edit)
    case Rows(rows) => to == from && RowEffect(before, after, rows)
    case Copy(copy) => CopyEffect(hash, settings, before, from, after, to, copy)
    case Watch(watch) => to == from && WatchEffect(hash, settings, before, after, from, watch)
  }
}
