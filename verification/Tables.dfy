/** The rows of the control plane and what every operation keeps true of them. */
module Tables {
  import opened Base

  type ObjectId = nat
  type VersionId = nat
  type ReplicaId = nat
  type JobId = nat
  type NodeId = string

  datatype ObjectState = Active | Deleting | Deleted
  datatype VersionState = Preparing | Committed | VersionFailed
  datatype ReplicaState = Pending | Copying | Healthy | Stale | Corrupted | Unavailable | Repairing | Failed
  datatype NodeState =
    NodeJoining | NodeHealthy | NodeSuspect | NodeUnavailable | NodeRecovering | NodeDraining | NodeRemoved
  datatype JobStatus = JobPending | JobRunning | JobSucceeded | JobFailed

  datatype Object = Object(name: string, current: Option<VersionId>, state: ObjectState)
  datatype Version = Version(owner: ObjectId, number: nat, size: nat, checksum: string, state: VersionState)
  datatype Node = Node(address: string, status: NodeState, capacity: nat, used: nat, heartbeat: Option<int>)
  datatype Replica = Replica(version: VersionId, node: NodeId, status: ReplicaState, checksum: Option<string>,
                             size: Option<nat>)
  /** How far a durable job has come. */
  datatype Progress = Progress(status: JobStatus, attempts: nat)
  /** A repair or rebalance job. */
  datatype Job = Job(version: VersionId, source: NodeId, target: NodeId, progress: Progress)
  /** An integrity job: one node, one version, or everything. */
  datatype Check = Check(node: Option<NodeId>, version: Option<VersionId>, progress: Progress, checked: nat,
                         corrupted: nat)

  datatype Tables = Tables(
    objects: map<ObjectId, Object>,
    versions: map<VersionId, Version>,
    nodes: map<NodeId, Node>,
    replicas: map<ReplicaId, Replica>,
    repairs: map<JobId, Job>,
    rebalances: map<JobId, Job>,
    checks: map<JobId, Check>)

  datatype VaultError =
    | ValueError
    | ObjectNotFound
    | AlreadyExists
    | InvalidState
    | VersionConflict
    | ChecksumMismatch
    | InsufficientReplicas
    | NodeUnavailableError
    | StorageFull
    | RepairInProgress
    | ClientError
    | Aborted

  function Free(node: Node): nat {
    if node.used <= node.capacity then node.capacity - node.used else 0
  }

  // ----- State transition tables

  function ObjectEdges(s: ObjectState): set<ObjectState> {
    match s
    case Active => {Deleting}
    case Deleting => {Deleted}
    case Deleted => {}
  }

  function NodeEdges(s: NodeState): set<NodeState> {
    match s
    case NodeJoining => {NodeHealthy}
    case NodeHealthy => {NodeSuspect, NodeDraining}
    case NodeSuspect => {NodeHealthy, NodeUnavailable}
    case NodeUnavailable => {NodeRecovering}
    case NodeRecovering => {NodeHealthy, NodeSuspect}
    case NodeDraining => {NodeRemoved}
    case NodeRemoved => {}
  }

  function ReplicaEdges(s: ReplicaState): set<ReplicaState> {
    match s
    case Pending => {Repairing, Copying, Failed}
    case Copying => {Failed}
    case Healthy => {Stale, Corrupted, Unavailable}
    case Stale => {Repairing}
    case Corrupted => {Repairing}
    case Unavailable => {Repairing}
    case Repairing => {Copying, Failed}
    case Failed => {}
  }

  // ----- Versions of an object

  ghost predicate VersionOk(objects: map<ObjectId, Object>, versions: map<VersionId, Version>, v: VersionId) {
    v in versions ==> versions[v].owner in objects && versions[v].number >= 1 && IsSha256(versions[v].checksum)
  }

  /** Version numbers of one object are distinct. */
  ghost predicate NumberOk(versions: map<VersionId, Version>, v: VersionId, w: VersionId) {
    (v in versions && w in versions && versions[v].owner == versions[w].owner
     && versions[v].number == versions[w].number) ==>
      v == w
  }

  predicate CommittedOf(versions: map<VersionId, Version>, o: ObjectId, v: VersionId) {
    v in versions && versions[v].owner == o && versions[v].state == Committed
  }

  /**
    The current version is the object's own committed version with the largest number; none means none is
    committed.
   */
  ghost predicate CurrentOk(objects: map<ObjectId, Object>, versions: map<VersionId, Version>, o: ObjectId) {
    o in objects ==>
      match objects[o].current
      case None => forall v :: !CommittedOf(versions, o, v)
      case Some(c) =>
        CommittedOf(versions, o, c) &&
        forall v :: CommittedOf(versions, o, v) ==> versions[v].number <= versions[c].number
  }

  /** Object names are distinct. */
  ghost predicate NameOk(objects: map<ObjectId, Object>, o: ObjectId, p: ObjectId) {
    o in objects && p in objects && objects[o].name == objects[p].name ==> o == p
  }

  ghost predicate VersionsOk(objects: map<ObjectId, Object>, versions: map<VersionId, Version>) {
    && (forall o, p :: NameOk(objects, o, p))
    && (forall v :: VersionOk(objects, versions, v))
    && (forall v, w :: NumberOk(versions, v, w))
    && (forall o :: CurrentOk(objects, versions, o))
  }

  // ----- Replica rows

  /** A row points to a version and a node; a HEALTHY one carries its version's checksum and size. */
  ghost predicate ReplicaOk(db: Tables, r: ReplicaId) {
    r in db.replicas ==>
      var row := db.replicas[r];
      && row.version in db.versions && row.node in db.nodes
      && (row.status == Healthy ==> row.checksum == Some(db.versions[row.version].checksum)
                                    && row.size == Some(db.versions[row.version].size))
  }

  /** At most one row per version and node. */
  ghost predicate RowOk(replicas: map<ReplicaId, Replica>, r: ReplicaId, s: ReplicaId) {
    (r in replicas && s in replicas && replicas[r].version == replicas[s].version
     && replicas[r].node == replicas[s].node) ==>
      r == s
  }

  ghost predicate ReplicasOk(db: Tables) {
    && (forall r :: ReplicaOk(db, r))
    && (forall r, s :: RowOk(db.replicas, r, s))
  }

  ghost predicate NodeOk(nodes: map<NodeId, Node>, n: NodeId) {
    n in nodes ==> n != "" && nodes[n].used <= nodes[n].capacity
  }

  /** Node addresses are distinct. */
  ghost predicate AddressOk(nodes: map<NodeId, Node>, n: NodeId, k: NodeId) {
    n in nodes && k in nodes && nodes[n].address == nodes[k].address ==> n == k
  }

  ghost predicate JobOk(db: Tables, j: Job) {
    j.version in db.versions && j.source in db.nodes && j.target in db.nodes
  }

  ghost predicate RepairOk(db: Tables, j: JobId) {
    j in db.repairs ==> JobOk(db, db.repairs[j])
  }

  ghost predicate RebalanceOk(db: Tables, j: JobId) {
    j in db.rebalances ==> JobOk(db, db.rebalances[j]) && db.rebalances[j].source != db.rebalances[j].target
  }

  ghost predicate Consistent(db: Tables) {
    && VersionsOk(db.objects, db.versions)
    && ReplicasOk(db)
    && (forall n :: NodeOk(db.nodes, n))
    && (forall n, k :: AddressOk(db.nodes, n, k))
    && (forall j :: RepairOk(db, j))
    && (forall j :: RebalanceOk(db, j))
  }

  // ----- Queries

  /** The row of a version on a node. */
  predicate IsRow(replicas: map<ReplicaId, Replica>, r: ReplicaId, v: VersionId, n: NodeId) {
    r in replicas && replicas[r].version == v && replicas[r].node == n
  }

  predicate HasRow(replicas: map<ReplicaId, Replica>, v: VersionId, n: NodeId) {
    exists r :: r in replicas && IsRow(replicas, r, v, n)
  }

  /** The version has a row on the node, in one of the given states. */
  predicate HasRowIn(replicas: map<ReplicaId, Replica>, v: VersionId, n: NodeId, states: set<ReplicaState>) {
    exists r :: r in replicas && IsRow(replicas, r, v, n) && replicas[r].status in states
  }

  function HealthyRows(replicas: map<ReplicaId, Replica>, v: VersionId): set<ReplicaId> {
    set r | r in replicas && replicas[r].version == v && replicas[r].status == Healthy
  }

  function RowsOn(replicas: map<ReplicaId, Replica>, n: NodeId): set<ReplicaId> {
    set r | r in replicas && replicas[r].node == n
  }

  // ----- Replica rows over time

  /**
    One metadata operation, as far as a row is concerned: it stays where it is, FAILED is never left,
    and HEALTHY is entered only from COPYING or REPAIRING with the version's checksum and size.
   */
  ghost predicate RowStep(before: Tables, after: Tables, r: ReplicaId) {
    && (r in before.replicas && r in after.replicas ==>
          before.replicas[r].version == after.replicas[r].version && before.replicas[r].node == after.replicas[r].node)
    && (r in before.replicas && before.replicas[r].status == Failed ==>
          r in after.replicas && after.replicas[r] == before.replicas[r])
    && (r in after.replicas && after.replicas[r].status == Healthy ==>
          r in before.replicas && before.replicas[r].status in {Healthy, Copying, Repairing})
    && (r in before.replicas && r !in after.replicas ==>
          before.replicas[r].status in {Healthy, Corrupted, Stale, Unavailable})
  }

  ghost predicate OneStep(before: Tables, after: Tables) {
    forall r :: RowStep(before, after, r)
  }
}
