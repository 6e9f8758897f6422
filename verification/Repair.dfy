/** Durable, verified replica repair. */
module Repair {
  import opened Base
  import opened Tables
  import opened Metadata
  import opened Cluster
  import opened Targets
  import opened Jobs
  import opened Placement
  import MM = MetadataManager

  /** How the node calls of one repair run go. */
  datatype RepairNet = RepairNet(verifySource: Reach, deleteTarget: Deletion, put: Upload, verifyTarget: Reach)

  /** One of the calls of the run never returns. */
  predicate Dying(net: RepairNet) {
    net.verifySource == Dies || net.deleteTarget.DeleteDies? || net.put.UploadDies? || net.verifyTarget == Dies
  }

  function DyingRuns(nets: seq<RepairNet>): nat {
    if nets == [] then 0 else DyingRuns(nets[..|nets| - 1]) + if Dying(nets[|nets| - 1]) then 1 else 0
  }

  /** A job that is still PENDING or RUNNING for a version and target. */
  predicate IsActive(repairs: map<JobId, Job>, j: JobId, v: VersionId, target: NodeId) {
    j in repairs && repairs[j].version == v && repairs[j].target == target && InProgress(repairs[j].progress)
  }

  /** Job j is at work on version v. */
  predicate WorksOn(repairs: map<JobId, Job>, j: JobId, v: VersionId) {
    j in repairs && repairs[j].version == v && InProgress(repairs[j].progress)
  }

  /** Jobs are added, and none that was there changes. */
  ghost predicate JobsKept(before: map<JobId, Job>, after: map<JobId, Job>) {
    forall j :: j in before ==> j in after && after[j] == before[j]
  }

  /**
    Once row r is no longer HEALTHY, no repair of its version can be scheduled without its own node: there is no
    source left, or no node that could take it.
   */
  predicate Unrepairable(db: Tables, r: ReplicaId)
    requires r in db.replicas && db.replicas[r].version in db.versions
  {
    var v := db.replicas[r].version;
    HealthyRows(db.replicas, v) - {r} == {} || EligibleNodes(db, v, db.versions[v].size, {}) == {}
  }

  /** Demoting a row takes it from the sources, and changes nothing about who could be a target. */
  lemma DemotedPool(before: Tables, after: Tables, id: ReplicaId, to: ReplicaState)
    requires id in before.replicas && to != Healthy && before.replicas[id].version in before.versions
    requires after == before.(replicas := after.replicas)
    requires after.replicas == if before.replicas[id].status == Healthy then WithStatus(before.replicas, id, to)
                               else before.replicas
    ensures var v := before.replicas[id].version;
            && HealthyRows(after.replicas, v) == HealthyRows(before.replicas, v) - {id}
            && EligibleNodes(after, v, after.versions[v].size, {}) ==
               EligibleNodes(before, v, before.versions[v].size, {})
  {
    var v := before.replicas[id].version;
    assert HealthyRows(after.replicas, v) == HealthyRows(before.replicas, v) - {id};
    forall n ensures Eligible(after, v, after.versions[v].size, {}, n) <==>
        Eligible(before, v, after.versions[v].size, {}, n) {
      forall s ensures IsRow(after.replicas, s, v, n) <==> IsRow(before.replicas, s, v, n) {
      }
    }
  }

  /** Version v has enough HEALTHY rows, or a job is at work on it, or none can be: no source, or no node for it. */
  ghost predicate Served(db: Tables, factor: int, v: VersionId) {
    && v in db.versions
    && (|| |HealthyRows(db.replicas, v)| >= factor
        || HealthyRows(db.replicas, v) == {}
        || EligibleNodes(db, v, db.versions[v].size, {}) == {}
        || exists j :: WorksOn(db.repairs, j, v))
  }

  method FindActive(m: MM.MetadataManager, v: VersionId, target: NodeId) returns (j: Option<JobId>)
    ensures j.None? ==> forall i :: !IsActive(m.db.repairs, i, v, target)
    ensures j.Some? ==> IsActive(m.db.repairs, j.value, v, target)
  {
    if i :| i in m.db.repairs && IsActive(m.db.repairs, i, v, target) {
      return Some(i);
    }
    j := None;
  }

  method CreateJob(m: MM.MetadataManager, v: VersionId, source: NodeId, target: NodeId) returns (r: Result<JobId,
                                                                                                 VaultError>)
    requires m.Valid() && v in m.db.versions
    modifies m`db
    ensures m.Valid()
    ensures r.Err? ==> m.db == old(m.db)
    ensures r.Err? <==> (source == target && !HasRowIn(m.db.replicas, v, target, {Corrupted}))
                        || ((forall i :: !IsActive(old(m.db.repairs), i, v, target))
                            && (source !in m.db.nodes || target !in m.db.nodes))
    ensures r == Err(ValueError) ==> source == target
    ensures r.Err? && source in m.db.nodes && target in m.db.nodes ==> r.error == ValueError
    ensures r.Ok? ==> IsActive(m.db.repairs, r.value, v, target)
    ensures r.Ok? && m.db != old(m.db) ==>
              && r.value !in old(m.db.repairs)
              && m.db == old(m.db).(repairs := old(m.db.repairs)[r.value := Job(v, source, target,
                                                                                Progress(JobPending, 0))])
  {
    m.Opened();
    if source == target {
      var row := m.FindRow(v, target);
      if row.None? || m.db.replicas[row.value].status != Corrupted {
        forall s | s in m.db.replicas
          && IsRow(m.db.replicas, s, v, target) ensures m.db.replicas[s].status != Corrupted {
          assert row.Some? ==> RowOk(m.db.replicas, s, row.value);
        }
        return Err(ValueError);
      }
    }
    var active := FindActive(m, v, target);
    if active.Some? {
      return Ok(active.value);
    }
    if source !in m.db.nodes || target !in m.db.nodes {
      return Err(ObjectNotFound);
    }
    var id := FreshId(m.db.repairs.Keys);
    m.PutRepair(id, Job(v, source, target, Progress(JobPending, 0)));
    r := Ok(id);
  }

  /** The preferred row's own node is HEALTHY and has room. */
  predicate OwnNodeFits(db: Tables, v: VersionId, preferred: Option<ReplicaId>)
    requires v in db.versions
  {
    && preferred.Some? && preferred.value in db.replicas && db.replicas[preferred.value].node in db.nodes
    && db.nodes[db.replicas[preferred.value].node].status == NodeHealthy
    && Free(db.nodes[db.replicas[preferred.value].node]) >= db.versions[v].size
  }

  /** The node that a repair of version v goes to: the preferred row's own node if it can take it, else the best one. */
  method TargetFor(m: MM.MetadataManager, v: VersionId, preferred: Option<ReplicaId>) returns (t: Option<NodeId>)
    requires m.Valid() && v in m.db.versions
    ensures var size := m.db.versions[v].size;
            if OwnNodeFits(m.db, v, preferred) then t == Some(m.db.replicas[preferred.value].node)
            else if EligibleNodes(m.db, v, size, {}) == {} then t == None
            else t.Some? && IsBest(m.db.nodes, EligibleNodes(m.db, v, size, {}), t.value)
  {
    if preferred.Some? && preferred.value in m.db.replicas {
      var n := m.db.replicas[preferred.value].node;
      if n in m.db.nodes && m.db.nodes[n].status == NodeHealthy && Free(m.db.nodes[n]) >= m.db.versions[v].size {
        return Some(n);
      }
    }
    t := BestTarget(m.db, v, m.db.versions[v].size, {});
  }

  /** The HEALTHY row that a repair of version v copies from: the latest one, if that is known. */
  method SourceFor(m: MM.MetadataManager, v: VersionId, latest: Option<NodeId>) returns (s: ReplicaId)
    requires m.Valid() && HealthyRows(m.db.replicas, v) != {}
    ensures s in HealthyRows(m.db.replicas, v)
    ensures latest.Some? && HasRowIn(m.db.replicas, v, latest.value, {Healthy}) ==>
              m.db.replicas[s].node == latest.value
  {
    if latest.Some? {
      if t :| t in m.db.replicas && IsRow(m.db.replicas, t, v, latest.value) && m.db.replicas[t].status == Healthy {
        return t;
      }
    }
    s :| s in HealthyRows(m.db.replicas, v);
  }

  /** The preferred row's own node can take a repair, and the version already has a HEALTHY row there. */
  ghost predicate SelfSource(db: Tables, v: VersionId, p: ReplicaId) {
    && p in db.replicas && db.replicas[p].node in db.nodes && db.nodes[db.replicas[p].node].status == NodeHealthy
    && exists s :: s in db.replicas && IsRow(db.replicas, s, v, db.replicas[p].node) && db.replicas[s].status == Healthy
  }

  /**
    Create, or find, the job that repairs a version. Rows and nodes are only read. Without a preferred
    replica the target has no row yet, so it differs from the source. `latest` is the node whose HEALTHY row comes
    first by its last verification, where that matters.
   */
  method ScheduleForVersion(m: MM.MetadataManager, v: VersionId, factor: int, preferred: Option<ReplicaId>,
                            latest: Option<NodeId> := None)
    returns (r: Result<Option<JobId>, VaultError>)
    requires m.Valid()
    modifies m`db
    ensures m.Valid()
    ensures m.db == old(m.db).(repairs := m.db.repairs) && old(m.db.repairs).Keys <= m.db.repairs.Keys
    ensures forall j :: j in old(m.db.repairs) ==> m.db.repairs[j] == old(m.db.repairs)[j]
    ensures r.Err? ==> m.db == old(m.db)
    ensures factor >= 1 && v in m.db.versions && preferred.None? ==> Served(m.db, factor, v)
    ensures r == Ok(None) ==> m.db == old(m.db)
    ensures r == Ok(None) <==>
              factor >= 1 && v in m.db.versions && preferred.None? && |HealthyRows(m.db.replicas, v)| >= factor
    ensures r.Ok? && r.value.Some? ==>
              && v in m.db.versions && HealthyRows(m.db.replicas, v) != {}
              && r.value.value in m.db.repairs && m.db.repairs[r.value.value].version == v
              && InProgress(m.db.repairs[r.value.value].progress)
              && (if OwnNodeFits(m.db, v, preferred)
                  then m.db.repairs[r.value.value].target == m.db.replicas[preferred.value].node
                  else IsBest(m.db.nodes, EligibleNodes(m.db, v, m.db.versions[v].size, {}),
                              m.db.repairs[r.value.value].target))
    ensures r.Err? ==>
              || r.error == (if factor < 1 then ValueError
                             else if v !in m.db.versions then ObjectNotFound
                             else if HealthyRows(m.db.replicas, v) == {} then NodeUnavailableError
                             else InsufficientReplicas)
              || (r.error == ValueError && preferred.Some? && SelfSource(m.db, v, preferred.value))
    // a new job copies from a HEALTHY row, and there is one exactly if no job for its target is active
    ensures r.Ok? && r.value.Some? ==>
              var id := r.value.value;
              && (id in old(m.db.repairs) ==> m.db == old(m.db))
              && (id in old(m.db.repairs) <==> exists i :: IsActive(old(m.db.repairs), i, v, m.db.repairs[id].target))
              && (id !in old(m.db.repairs) ==>
                    && m.db.repairs == old(m.db.repairs)[id := m.db.repairs[id]]
                    && m.db.repairs[id].progress == Progress(JobPending, 0)
                    && HasRowIn(m.db.replicas, v, m.db.repairs[id].source, {Healthy})
                    && (latest.Some? && HasRowIn(m.db.replicas, v, latest.value, {Healthy}) ==>
                          m.db.repairs[id].source == latest.value))
    ensures r == Err(InsufficientReplicas) <==>
              && factor >= 1 && v in m.db.versions && HealthyRows(m.db.replicas, v) != {}
              && (preferred.None? ==> |HealthyRows(m.db.replicas, v)| < factor)
              && !OwnNodeFits(m.db, v, preferred) && EligibleNodes(m.db, v, m.db.versions[v].size, {}) == {}
  {
    m.Opened();
    if factor < 1 {
      return Err(ValueError);
    }
    if v !in m.db.versions {
      return Err(ObjectNotFound);
    }
    var sources := HealthyRows(m.db.replicas, v);
    if |sources| >= factor && preferred.None? {
      return Ok(None);
    }
    if sources == {} {
      return Err(NodeUnavailableError);
    }
    var source := SourceFor(m, v, latest);
    var target := TargetFor(m, v, preferred);
    if target.None? {
      return Err(InsufficientReplicas);
    }
    assert ReplicaOk(m.db, source);
    assert IsRow(m.db.replicas, source, v, m.db.replicas[source].node);
    if preferred.None? || !SelfSource(m.db, v, preferred.value) {
      assert target.value in EligibleNodes(m.db, v, m.db.versions[v].size, {}) ==>
               Eligible(m.db, v, m.db.versions[v].size, {}, target.value);
    }
    var existing := FindActive(m, v, target.value);
    if existing.Some? {
      assert WorksOn(m.db.repairs, existing.value, v);
      return Ok(Some(existing.value));
    }
    var job := CreateJob(m, v, m.db.replicas[source].node, target.value);
    if job.Err? {
      return Err(job.error);
    }
    assert WorksOn(m.db.repairs, job.value, v);
    r := Ok(Some(job.value));
  }

  /** The repair of a row whose own node cannot take it: there is one exactly with a source and an eligible node. */
  method ScheduleElsewhere(m: MM.MetadataManager, v: VersionId, factor: int, id: ReplicaId)
    returns (r: Result<Option<JobId>, VaultError>)
    requires m.Valid() && factor >= 1 && v in m.db.versions
    requires !OwnNodeFits(m.db, v, Some(id)) && !SelfSource(m.db, v, id)
    modifies m`db
    ensures m.Valid() && m.db == old(m.db).(repairs := m.db.repairs) && JobsKept(old(m.db.repairs), m.db.repairs)
    ensures r.Err? <==>
              HealthyRows(m.db.replicas, v) == {} || EligibleNodes(m.db, v, m.db.versions[v].size, {}) == {}
    ensures r.Ok? ==> r.value.Some? && WorksOn(m.db.repairs, r.value.value, v)
  {
    r := ScheduleForVersion(m, v, factor, Some(id));
  }

  /** `_replica_for_target`: the target row, created if needed, brought to REPAIRING. */
  method TargetRow(m: MM.MetadataManager, v: VersionId, n: NodeId) returns (r: Result<ReplicaId, VaultError>)
    requires m.Valid() && v in m.db.versions && n in m.db.nodes
    modifies m`db
    ensures m.Valid()
    ensures r.Ok? ==>
              && m.db == old(m.db).(replicas := m.db.replicas)
              && Retargeted(old(m.db.replicas), m.db.replicas, r.value, v, n, REPAIRABLE, Repairing)
    ensures r.Err? ==> m.db == old(m.db)
    ensures r.Err? <==> HasRowIn(old(m.db.replicas), v, n, {Healthy, Copying, Failed})
  {
    var id := RowFor(m, v, n);
    ghost var located := m.db.replicas;
    var status := m.db.replicas[id].status;
    if status == Healthy {
      return Err(RepairInProgress);
    }
    if status in {Pending, Corrupted, Stale, Unavailable} {
      var _ := m.SetReplicaState(id, Repairing);
    } else if status != Repairing {
      return Err(InvalidState);
    }
    assert m.db.replicas == located[id := located[id].(status := Repairing)];
    LocatedRetargeted(old(m.db.replicas), located, m.db.replicas, id, v, n, REPAIRABLE, Repairing);
    r := Ok(id);
  }

  /** Source and target bytes and every call of an attempt are as they should be. */
  ghost predicate GoodNet(hash: Hash, disks: Disks, job: Job, version: Version, net: RepairNet) {
    Intact(hash, disks, job.source, job.version, version) && GoodCalls(hash, version, net)
  }

  /** Every call of an attempt goes well, and the bytes that arrive are the version's. */
  predicate GoodCalls(hash: Hash, version: Version, net: RepairNet) {
    && net.verifySource == Reached && net.deleteTarget.DeleteDone? && net.put.Uploaded?
    && Carries(hash, net.put.blob, version) && net.verifyTarget == Reached
  }

  /** The attempt gets to a call that never returns. */
  ghost predicate CopyDies(hash: Hash, disks: Disks, job: Job, version: Version, net: RepairNet) {
    || net.verifySource == Dies
    || (net.verifySource == Reached && Intact(hash, disks, job.source, job.version, version)
        && TransferDies(net.deleteTarget, net.put, net.verifyTarget))
  }

  /** The source row of a job is HEALTHY. */
  ghost predicate HasSource(db: Tables, job: Job) {
    HasRowIn(db.replicas, job.version, job.source, {Healthy})
  }

  /** The target row of a job cannot be repaired. */
  ghost predicate TargetBlocked(db: Tables, job: Job) {
    HasRowIn(db.replicas, job.version, job.target, {Healthy, Copying, Failed})
  }

  /** What a run amounts to before it makes any call: nothing, a refusal, or an attempt. */
  ghost function Admission(db: Tables, job: Job, maxAttempts: nat): Option<Outcome> {
    if Finished(job.progress, maxAttempts) then Some(Untouched)
    else if !HasSource(db, job) then Some(Rejected)
    else if TargetBlocked(db, job) then Some(Untouched)
    else if job.target !in db.nodes || db.nodes[job.target].status != NodeHealthy then Some(Rejected)
    else None
  }

  /** What a run comes to. */
  ghost function OutcomeOf(hash: Hash, db: Tables, disks: Disks, job: Job, version: Version, maxAttempts: nat,
                           net: RepairNet): Outcome
  {
    var admission := Admission(db, job, maxAttempts);
    if admission.Some? then admission.value
    else if GoodNet(hash, disks, job, version, net) then Succeeded
    else if CopyDies(hash, disks, job, version, net) then Outcome.Crashed
    else Errored
  }

  /**
    The outcomes, written out. A job that has SUCCEEDED, or FAILED with its attempts used up, is not run again, and
    neither is one whose target cannot be repaired; it is rejected for want of a source or of a HEALTHY target; and the
    calls and the source's bytes decide the rest.
   */
  lemma OutcomeMeans(hash: Hash, db: Tables, disks: Disks, job: Job, version: Version, maxAttempts: nat, net: RepairNet)
    ensures var p := job.progress;
            var over := p.status == JobSucceeded || (p.status == JobFailed && p.attempts >= maxAttempts);
            var source := HasRowIn(db.replicas, job.version, job.source, {Healthy});
            var blocked := HasRowIn(db.replicas, job.version, job.target, {Healthy, Copying, Failed});
            var up := job.target in db.nodes && db.nodes[job.target].status == NodeHealthy;
            var runs := !over && source && !blocked && up;
            var good := net.verifySource == Reached && Intact(hash, disks, job.source, job.version, version);
            var outcome := OutcomeOf(hash, db, disks, job, version, maxAttempts, net);
            && (outcome == Untouched <==> over || (source && blocked))
            && (outcome == Rejected <==> !over && (!source || (!blocked && !up)))
            && (outcome == Succeeded <==>
                  && runs && good && net.deleteTarget == DeleteDone && net.put.Uploaded?
                  && Carries(hash, net.put.blob, version) && net.verifyTarget == Reached)
            && (outcome == Outcome.Crashed <==>
                  runs && (net.verifySource == Dies
                           || (good && TransferDies(net.deleteTarget, net.put, net.verifyTarget))))
  {
  }

  lemma NoSource(db: Tables, job: Job, found: Option<ReplicaId>)
    requires Consistent(db)
    requires if found.None? then !HasRow(db.replicas, job.version, job.source)
             else IsRow(db.replicas, found.value, job.version, job.source) && db.replicas[found.value].status != Healthy
    ensures !exists s :: s in db.replicas && IsRow(db.replicas, s, job.version,
                                                   job.source) && db.replicas[s].status == Healthy
  {
    forall s | s in db.replicas
      && IsRow(db.replicas, s, job.version, job.source) ensures db.replicas[s].status != Healthy {
      assert found.Some? ==> RowOk(db.replicas, s, found.value);
    }
  }

  /** The attempt itself: the target row is REPAIRING and stays so unless the whole copy verifies. */
  method Attempt(m: MM.MetadataManager, c: Cluster, maxAttempts: nat, id: JobId, t: ReplicaId, net: RepairNet)
    returns (r: Result<JobStatus, VaultError>, outcome: Outcome)
    requires m.Valid() && c.Valid()
    requires id in m.db.repairs && m.db.repairs[id].version in m.db.versions
    requires IsRow(m.db.replicas, t, m.db.repairs[id].version, m.db.repairs[id].target)
             && m.db.replicas[t].status == Repairing
    modifies m`db, c`disks
    ensures m.Valid()
    ensures outcome in {Succeeded, Errored, Outcome.Crashed}
    ensures var job := old(m.db.repairs)[id];
            var version := old(m.db.versions)[job.version];
            && m.db == (if outcome == Succeeded then AfterHealthy(old(m.db), t) else old(m.db))
                       .(repairs := old(m.db.repairs)[id := job.(progress := After(job.progress, maxAttempts,
                                                                                   outcome))])
            && ChangedAt(old(c.disks), c.disks, job.target, job.version)
            && (outcome == Succeeded <==> GoodNet(c.hash, old(c.disks), job, version, net))
            && (outcome == Succeeded ==> Intact(c.hash, c.disks, job.target, job.version, version))
            && (outcome == Outcome.Crashed <==> CopyDies(c.hash, old(c.disks), job, version, net))
    ensures r.Ok? <==> outcome == Succeeded
    ensures r.Ok? ==> r.value == JobSucceeded
  {
    m.Opened();
    var job := m.db.repairs[id];
    var version := m.db.versions[job.version];
    assert RepairOk(m.db, id);
    assert VersionOk(m.db.objects, m.db.versions, job.version);
    var attempts := job.progress.attempts + 1;
    m.PutRepair(id, job.(progress := Progress(JobRunning, attempts)));
    var copied := CopyFrom(c, job, version, net);
    if copied == TransferDied {
      return Err(Aborted), Outcome.Crashed;
    }
    if copied == Transferred {
      var _ := m.MarkReplicaHealthy(t, version.checksum, version.size);
      m.PutRepair(id, job.(progress := Progress(JobSucceeded, attempts)));
      return Ok(JobSucceeded), Succeeded;
    }
    m.PutRepair(id, job.(progress := Progress(if attempts >= maxAttempts then JobFailed else JobPending, attempts)));
    return Err(ClientError), Errored;
  }

  /** The node calls of an attempt: measure the source, then rebuild the target from it. */
  method CopyFrom(c: Cluster, job: Job, version: Version, net: RepairNet) returns (copied: TransferResult)
    modifies c`disks
    ensures ChangedAt(old(c.disks), c.disks, job.target, job.version)
    ensures copied == Transferred <==> GoodNet(c.hash, old(c.disks), job, version, net)
    ensures copied == Transferred ==> Intact(c.hash, c.disks, job.target, job.version, version)
    ensures copied == TransferDied <==> CopyDies(c.hash, old(c.disks), job, version, net)
  {
    var measured := c.Verify(job.source, job.version, net.verifySource, true);
    if measured == Died {
      return TransferDied;
    }
    if !Agrees(measured, version) {
      return TransferFailed;
    }
    ghost var points;
    copied, points := Transfer(c, job.target, job.version, version, net.deleteTarget, net.put, net.verifyTarget);
  }

  /**
    One run of a repair job, whatever its node calls do. Nothing but the job row, the target row and
    the target's bytes changes; the target becomes HEALTHY exactly when the run succeeds, and then its
    bytes are right. What the run comes to is stated exactly: `OutcomeOf`.
   */
  method RunJob(m: MM.MetadataManager, c: Cluster, maxAttempts: nat, id: JobId, net: RepairNet)
    returns (r: Result<JobStatus, VaultError>, outcome: Outcome, ghost t: ReplicaId)
    requires m.Valid() && c.Valid() && maxAttempts >= 1
    modifies m`db, c`disks
    ensures m.Valid()
    ensures Safe(c.hash, old(m.db), old(c.disks)) ==> Safe(c.hash, m.db, c.disks)
    ensures id !in old(m.db.repairs) ==>
              r == Err(ObjectNotFound) && outcome == Untouched && m.db == old(m.db) && c.disks == old(c.disks)
    ensures id in old(m.db.repairs) ==>
              var job := old(m.db.repairs)[id];
              var after := job.(progress := After(job.progress, maxAttempts, outcome));
              && m.db == old(m.db).(replicas := m.db.replicas, repairs := old(m.db.repairs)[id := after])
              && RunStep(job.progress, after.progress, maxAttempts, outcome)
              && ChangedAt(old(c.disks), c.disks, job.target, job.version)
              && (m.db.replicas == old(m.db.replicas)
                  || Retargeted(old(m.db.replicas), m.db.replicas, t, job.version, job.target, REPAIRABLE,
                                if outcome == Succeeded then Healthy else Repairing))
              && job.version in m.db.versions
              && (outcome == Succeeded ==>
                    && Retargeted(old(m.db.replicas), m.db.replicas, t, job.version, job.target, REPAIRABLE, Healthy)
                    && Intact(c.hash, c.disks, job.target, job.version, m.db.versions[job.version]))
              && outcome == OutcomeOf(c.hash, old(m.db), old(c.disks), job, m.db.versions[job.version], maxAttempts,
                                      net)
              && (outcome == Untouched ==> m.db == old(m.db))
              // an attempt counts one; a handled error leaves the job PENDING exactly while attempts are left
              && (outcome in {Succeeded, Errored, Outcome.Crashed} ==>
                    m.db.repairs[id].progress.attempts == job.progress.attempts + 1)
              && (outcome == Errored ==>
                    m.db.repairs[id].progress.status ==
                    if m.db.repairs[id].progress.attempts < maxAttempts then JobPending else JobFailed)
              && (outcome == Succeeded ==> m.db.repairs[id].progress.status == JobSucceeded)
              && (outcome == Outcome.Crashed ==> m.db.repairs[id].progress.status == JobRunning)
              && (outcome == Rejected ==>
                    m.db.repairs[id].progress == Progress(JobFailed, job.progress.attempts))
              && (outcome in {Untouched, Rejected} ==> c.disks == old(c.disks))
              && (r.Ok? <==> outcome == Succeeded || Finished(job.progress, maxAttempts))
              && (r.Ok? ==> r.value == after.progress.status)
  {
    m.Opened();
    t := 0;
    if id !in m.db.repairs {
      return Err(ObjectNotFound), Untouched, t;
    }
    var job := m.db.repairs[id];
    assert RepairOk(m.db, id);
    assert m.db.repairs == m.db.repairs[id := job];
    if Finished(job.progress, maxAttempts) {
      return Ok(job.progress.status), Untouched, t;
    }
    var source := m.FindRow(job.version, job.source);
    var version := m.db.versions[job.version];
    if source.Some? {
      assert ReplicaOk(m.db, source.value);
    }
    if source.None? || m.db.replicas[source.value].status != Healthy || m.db.replicas[source.value].checksum.None? {
      NoSource(m.db, job, source);
      m.PutRepair(id, job.(progress := job.progress.(status := JobFailed)));
      SameRowsSafe(c.hash, old(m.db), m.db, c.disks);
      return Err(NodeUnavailableError), Rejected, t;
    }
    assert HasSource(m.db, job) by {
      assert IsRow(m.db.replicas, source.value, job.version, job.source);
    }
    var row := TargetRow(m, job.version, job.target);
    if row.Err? {
      return Err(row.error), Untouched, t;
    }
    t := row.value;
    if m.db.nodes[job.target].status != NodeHealthy {
      m.PutRepair(id, job.(progress := job.progress.(status := JobFailed)));
      if Safe(c.hash, old(m.db), old(c.disks)) {
        RetargetedSafe(c.hash, old(m.db), m.db, c.disks, c.disks, t, job.version, job.target, REPAIRABLE, Repairing);
      }
      return Err(NodeUnavailableError), Rejected, t;
    }
    assert Admission(old(m.db), job, maxAttempts).None?;
    r, outcome := Attempt(m, c, maxAttempts, id, row.value, net);
    ghost var to := if outcome == Succeeded then Healthy else Repairing;
    if Safe(c.hash, old(m.db), old(c.disks)) {
      RetargetedSafe(c.hash, old(m.db), m.db, old(c.disks), c.disks, t, job.version, job.target, REPAIRABLE, to);
    }
  }

  datatype RepairResult = RepairResult(job: JobId, target: NodeId, status: JobStatus)

  /** What the loop has done so far: one more HEALTHY row on a node of its own for every result. */
  ghost predicate Repaired(before: map<ReplicaId, Replica>, now: map<ReplicaId, Replica>, v: VersionId,
                           results: seq<RepairResult>) {
    && |HealthyRows(now, v)| == |HealthyRows(before, v)| + |results|
    && (forall r :: r in HealthyRows(before, v) ==> r in now && now[r] == before[r])
    && (forall i :: 0 <= i < |results| ==>
          results[i].status == JobSucceeded && !HasRow(before, v, results[i].target)
            && HasRow(now, v, results[i].target))
    && (forall i, j :: 0 <= i < j < |results| ==> results[i].target != results[j].target)
    && (forall n :: HasRow(before, v, n) ==> HasRow(now, v, n))
  }

  lemma RepairedMore(before: map<ReplicaId, Replica>, mid: map<ReplicaId, Replica>, now: map<ReplicaId, Replica>,
                     v: VersionId,
                     results: seq<RepairResult>, t: ReplicaId, result: RepairResult)
    requires Repaired(before, mid, v, results)
    requires Retargeted(mid, now, t, v, result.target, REPAIRABLE, Healthy) && !HasRow(mid, v, result.target)
    requires result.status == JobSucceeded
    ensures Repaired(before, now, v, results + [result])
  {
    RetargetedHealthy(mid, now, t, v, result.target, REPAIRABLE, Healthy);
    RetargetedKeepsRows(mid, now, t, v, result.target, REPAIRABLE, Healthy);
    forall r | r in HealthyRows(before, v) ensures r in now && now[r] == before[r] {
      assert r in HealthyRows(mid, v);
    }
  }

  /** A run that failed leaves its target row REPAIRING, if it got to it, and no other row is touched. */
  ghost predicate GaveUp(mid: map<ReplicaId, Replica>, now: map<ReplicaId, Replica>, v: VersionId) {
    now == mid || exists t, n :: Retargeted(mid, now, t, v, n, REPAIRABLE, Repairing)
  }

  lemma RepairedStill(before: map<ReplicaId, Replica>, mid: map<ReplicaId, Replica>, now: map<ReplicaId, Replica>,
                      v: VersionId, results: seq<RepairResult>)
    requires Repaired(before, mid, v, results) && GaveUp(mid, now, v)
    ensures Repaired(before, now, v, results)
  {
    if now != mid {
      var t, n :| Retargeted(mid, now, t, v, n, REPAIRABLE, Repairing);
      RetargetedHealthy(mid, now, t, v, n, REPAIRABLE, Repairing);
      RetargetedKeepsRows(mid, now, t, v, n, REPAIRABLE, Repairing);
      forall r | r in HealthyRows(before, v) ensures r in now && now[r] == before[r] {
        assert r in HealthyRows(mid, v);
      }
    }
  }

  /** Only rows, jobs and bytes of version v differ. */
  ghost predicate OnlyVersion(before: Tables, now: Tables, disks: Disks, disks': Disks, v: VersionId) {
    && now == before.(replicas := now.replicas, repairs := now.repairs)
    && (forall r :: OtherRow(before.replicas, now.replicas, v, r))
    && (forall k :: OtherBytes(disks, disks', v, k))
    && (forall j :: OtherJob(before.repairs, now.repairs, v, j))
  }

  ghost predicate OtherJob(before: map<JobId, Job>, now: map<JobId, Job>, v: VersionId, j: JobId) {
    && (j in before && before[j].version != v ==> j in now && now[j] == before[j])
    && (j in now && now[j].version != v ==> j in before && now[j] == before[j])
  }

  ghost predicate OtherRow(before: map<ReplicaId, Replica>, now: map<ReplicaId, Replica>, v: VersionId, r: ReplicaId) {
    && (r in before && before[r].version != v ==> r in now && now[r] == before[r])
    && (r in now && now[r].version != v ==> r in before && now[r] == before[r])
  }

  ghost predicate OtherBytes(disks: Disks, disks': Disks, v: VersionId, k: (NodeId, VersionId)) {
    k.1 != v ==> (k in disks <==> k in disks') && (k in disks ==> disks'[k] == disks[k])
  }

  lemma OnlyVersionOn(before: Tables, mid: Tables, now: Tables, a: Disks, b: Disks, c: Disks, v: VersionId)
    requires OnlyVersion(before, mid, a, b, v) && OnlyVersion(mid, now, b, c, v)
    ensures OnlyVersion(before, now, a, c, v)
  {
    forall r ensures OtherRow(before.replicas, now.replicas, v, r) {
      assert OtherRow(before.replicas, mid.replicas, v, r) && OtherRow(mid.replicas, now.replicas, v, r);
    }
    forall k ensures OtherBytes(a, c, v, k) {
      assert OtherBytes(a, b, v, k) && OtherBytes(b, c, v, k);
    }
    forall j ensures OtherJob(before.repairs, now.repairs, v, j) {
      assert OtherJob(before.repairs, mid.repairs, v, j) && OtherJob(mid.repairs, now.repairs, v, j);
    }
  }

  lemma OnlyVersionBy(before: Tables, now: Tables, disks: Disks, disks': Disks, v: VersionId, t: ReplicaId, n: NodeId,
                      to: ReplicaState)
    requires now == before.(replicas := now.replicas, repairs := now.repairs) && ChangedAt(disks, disks', n, v)
    requires now.replicas == before.replicas
             || Retargeted(before.replicas, now.replicas, t, v, n, REPAIRABLE, to)
    requires forall j :: OtherJob(before.repairs, now.repairs, v, j)
    ensures OnlyVersion(before, now, disks, disks', v)
  {
    forall k ensures OtherBytes(disks, disks', v, k) {
      assert k in disks - {(n, v)} <==> k in disks' - {(n, v)};
    }
  }

  // ----- When the loop gets through

  /**
    In which order the HEALTHY rows of a version come, by their last verification: `latest(k, nodes)` is the node of
    the first one in the k-th run, of those on the given nodes.
   */
  type Order = (nat, set<NodeId>) -> NodeId

  ghost predicate IsOrder(latest: Order) {
    forall k: nat, nodes: set<NodeId> :: nodes != {} ==> latest(k, nodes) in nodes
  }

  function HealthyNodes(replicas: map<ReplicaId, Replica>, v: VersionId): set<NodeId> {
    set r | r in HealthyRows(replicas, v) :: replicas[r].node
  }

  /** No repair job of version v is active. */
  ghost predicate Idle(repairs: map<JobId, Job>, v: VersionId) {
    forall j :: !WorksOn(repairs, j, v)
  }

  /**
    The k-th run of the loop goes well, when the ones before it have repaired the given targets: its calls do, and the
    row that comes first is one of those targets or was on right bytes at the start.
   */
  ghost predicate RunGood(hash: Hash, db: Tables, disks: Disks, v: VersionId, nets: nat -> RepairNet, latest: Order,
                          targets: seq<NodeId>, k: nat)
    requires k <= |targets|
  {
    var earlier := Elements(targets[..k]);
    var source := latest(k, HealthyNodes(db.replicas, v) + earlier);
    && v in db.versions && GoodCalls(hash, db.versions[v], nets(k))
    && (source in earlier || Intact(hash, disks, source, v, db.versions[v]))
  }

  /** The targets are the best eligible nodes, in order, and the runs to all of them go well. */
  ghost predicate Plan(hash: Hash, db: Tables, disks: Disks, v: VersionId, nets: nat -> RepairNet, latest: Order,
                       targets: seq<NodeId>)
  {
    && v in db.versions
    && IsTop(db.nodes, EligibleNodes(db, v, db.versions[v].size, {}), |targets|, targets)
    && forall k :: 0 <= k < |targets| ==> RunGood(hash, db, disks, v, nets, latest, targets, k)
  }

  /** There is a source, enough nodes are eligible, and every run that is needed goes well. */
  ghost predicate CanComplete(hash: Hash, db: Tables, disks: Disks, v: VersionId, factor: int, nets: nat -> RepairNet,
                              latest: Order)
  {
    && HealthyRows(db.replicas, v) != {}
    && exists targets ::
         |targets| == factor - |HealthyRows(db.replicas, v)| && Plan(hash, db, disks, v, nets, latest, targets)
  }

  /** Where the loop stands, against the start: the first runs of the plan are done, and no others. */
  ghost predicate OnPlan(hash: Hash, before: Tables, disks: Disks, now: Tables, disks': Disks, v: VersionId,
                         nets: nat -> RepairNet, latest: Order, targets: seq<NodeId>)
  {
    && Plan(hash, before, disks, v, nets, latest, targets)
    && now == before.(replicas := now.replicas, repairs := now.repairs)
    && EligibleNodes(now, v, before.versions[v].size, {}) ==
       EligibleNodes(before, v, before.versions[v].size, {}) - Elements(targets)
    && HealthyNodes(now.replicas, v) == HealthyNodes(before.replicas, v) + Elements(targets)
    && (forall n :: IntactNow(hash, before, disks, disks', v, targets, n))
    && Idle(now.repairs, v)
  }

  ghost predicate IntactNow(hash: Hash, before: Tables, disks: Disks, disks': Disks, v: VersionId,
                            targets: seq<NodeId>, n: NodeId)
  {
    v in before.versions && n !in EligibleNodes(before, v, before.versions[v].size, {}) - Elements(targets) ==>
      (Intact(hash, disks', n, v, before.versions[v]) <==>
       n in Elements(targets) || Intact(hash, disks, n, v, before.versions[v]))
  }

  lemma PlanStarts(hash: Hash, db: Tables, disks: Disks, v: VersionId, nets: nat -> RepairNet, latest: Order)
    requires v in db.versions && Idle(db.repairs, v)
    ensures OnPlan(hash, db, disks, db, disks, v, nets, latest, [])
  {
    assert Elements([]) == {};
    forall n ensures IntactNow(hash, db, disks, disks, v, [], n) {
    }
  }

  /** A run is good exactly when its calls and the row that it copies from are. */
  lemma RunGoodNow(hash: Hash, before: Tables, disks: Disks, now: Tables, disks': Disks, v: VersionId,
                   nets: nat -> RepairNet, latest: Order, targets: seq<NodeId>)
    requires OnPlan(hash, before, disks, now, disks', v, nets, latest, targets) && IsOrder(latest)
    requires HealthyNodes(now.replicas, v) != {}
    ensures var source := latest(|targets|, HealthyNodes(now.replicas, v));
            && source in HealthyNodes(now.replicas, v)
            && (RunGood(hash, before, disks, v, nets, latest, targets, |targets|) <==>
                GoodCalls(hash, before.versions[v], nets(|targets|))
                && Intact(hash, disks', source, v, before.versions[v]))
  {
    var k := |targets|;
    assert targets[..k] == targets;
    var source := latest(k, HealthyNodes(now.replicas, v));
    assert IntactNow(hash, before, disks, disks', v, targets, source);
    if source in HealthyNodes(before.replicas, v) {
      HealthyIsNotEligible(before, v, source);
    }
  }

  lemma HealthyIsNotEligible(db: Tables, v: VersionId, n: NodeId)
    requires v in db.versions && n in HealthyNodes(db.replicas, v)
    ensures n !in EligibleNodes(db, v, db.versions[v].size, {})
  {
    var s :| s in HealthyRows(db.replicas, v) && db.replicas[s].node == n;
    assert IsRow(db.replicas, s, v, n);
  }

  /** A repaired node is no longer eligible, and is HEALTHY for the version. */
  lemma PoolShrinks(mid: Tables, now: Tables, v: VersionId, size: nat, t: ReplicaId, n: NodeId)
    requires now == mid.(replicas := now.replicas, repairs := now.repairs) && !HasRow(mid.replicas, v, n)
    requires Retargeted(mid.replicas, now.replicas, t, v, n, REPAIRABLE, Healthy)
    ensures EligibleNodes(now, v, size, {}) == EligibleNodes(mid, v, size, {}) - {n}
    ensures HealthyNodes(now.replicas, v) == HealthyNodes(mid.replicas, v) + {n}
  {
    RetargetedKeepsRows(mid.replicas, now.replicas, t, v, n, REPAIRABLE, Healthy);
    forall x ensures x in EligibleNodes(now, v, size, {}) <==> x in EligibleNodes(mid, v, size, {}) - {n} {
    }
    RetargetedHealthy(mid.replicas, now.replicas, t, v, n, REPAIRABLE, Healthy);
    forall x ensures x in HealthyNodes(now.replicas, v) <==> x in HealthyNodes(mid.replicas, v) + {n} {
    }
  }

  /** One more run of the plan is done. */
  lemma PlanGoesOn(hash: Hash, before: Tables, disks: Disks, mid: Tables, disks': Disks, now: Tables, disks'': Disks,
                   v: VersionId, nets: nat -> RepairNet, latest: Order, targets: seq<NodeId>, t: ReplicaId, n: NodeId)
    requires OnPlan(hash, before, disks, mid, disks', v, nets, latest, targets)
    requires now == mid.(replicas := now.replicas, repairs := now.repairs) && Idle(now.repairs, v)
    requires IsBest(before.nodes, EligibleNodes(mid, v, before.versions[v].size, {}), n)
    requires Retargeted(mid.replicas, now.replicas, t, v, n, REPAIRABLE, Healthy) && !HasRow(mid.replicas, v, n)
    requires ChangedAt(disks', disks'', n, v) && Intact(hash, disks'', n, v, before.versions[v])
    requires RunGood(hash, before, disks, v, nets, latest, targets, |targets|)
    ensures OnPlan(hash, before, disks, now, disks'', v, nets, latest, targets + [n])
  {
    var size, targets' := before.versions[v].size, targets + [n];
    var pool := EligibleNodes(before, v, size, {});
    assert Elements(targets') == Elements(targets) + {n};
    TopGrows(before.nodes, pool, targets, n);
    forall k | 0 <= k < |targets'| ensures RunGood(hash, before, disks, v, nets, latest, targets', k) {
      assert targets'[..k] == targets[..k];
      if k < |targets| {
        assert RunGood(hash, before, disks, v, nets, latest, targets, k);
      }
    }
    PoolShrinks(mid, now, v, size, t, n);
    forall x ensures IntactNow(hash, before, disks, disks'', v, targets', x) {
      assert IntactNow(hash, before, disks, disks', v, targets, x);
      if x != n {
        IntactElsewhere(hash, disks', disks'', n, v, x, v, before.versions[v]);
      }
    }
  }

  /** A longer plan begins with the runs that are done, so a node is left and the next run goes well. */
  lemma PlanContinues(hash: Hash, before: Tables, disks: Disks, now: Tables, disks': Disks, v: VersionId,
                      nets: nat -> RepairNet, latest: Order, targets: seq<NodeId>, top: seq<NodeId>)
    requires OnPlan(hash, before, disks, now, disks', v, nets, latest, targets)
    requires Plan(hash, before, disks, v, nets, latest, top) && |targets| < |top|
    ensures EligibleNodes(now, v, before.versions[v].size, {}) != {}
    ensures RunGood(hash, before, disks, v, nets, latest, targets, |targets|)
  {
    TopPrefix(before.nodes, EligibleNodes(before, v, before.versions[v].size, {}), |top|, targets, top);
    assert RunGood(hash, before, disks, v, nets, latest, top, |targets|);
    assert targets[..|targets|] == top[..|targets|];
  }

  /** If the loop can get through, a node is left and the next run goes well. */
  lemma NextGood(hash: Hash, before: Tables, disks: Disks, now: Tables, disks': Disks, v: VersionId, factor: int,
                 nets: nat -> RepairNet, latest: Order, targets: seq<NodeId>)
    requires OnPlan(hash, before, disks, now, disks', v, nets, latest, targets)
    requires |HealthyRows(before.replicas, v)| + |targets| < factor
    requires CanComplete(hash, before, disks, v, factor, nets, latest)
    ensures EligibleNodes(now, v, before.versions[v].size, {}) != {}
    ensures RunGood(hash, before, disks, v, nets, latest, targets, |targets|)
  {
    var top :| |top| == factor - |HealthyRows(before.replicas, v)| && Plan(hash, before, disks, v, nets, latest, top);
    PlanContinues(hash, before, disks, now, disks', v, nets, latest, targets, top);
  }

  /** The job of the next turn. With none of v active it is a new one, from the row that comes first. */
  method NextJob(m: MM.MetadataManager, v: VersionId, factor: int, latest: NodeId) returns (r: Result<JobId,
                                                                                            VaultError>)
    requires m.Valid() && |HealthyRows(m.db.replicas, v)| < factor
    modifies m`db
    ensures m.Valid() && m.db == old(m.db).(repairs := m.db.repairs)
    ensures r.Ok? <==>
              && v in m.db.versions && HealthyRows(m.db.replicas, v) != {}
              && EligibleNodes(m.db, v, m.db.versions[v].size, {}) != {}
    ensures r.Ok? ==>
              && WorksOn(m.db.repairs, r.value, v)
              && Eligible(m.db, v, m.db.versions[v].size, {}, m.db.repairs[r.value].target)
              && IsBest(m.db.nodes, EligibleNodes(m.db, v, m.db.versions[v].size, {}), m.db.repairs[r.value].target)
    ensures r.Err? ==> m.db == old(m.db)
    ensures forall j :: OtherJob(old(m.db.repairs), m.db.repairs, v, j)
    ensures r.Ok? && Idle(old(m.db.repairs), v) ==>
              && r.value !in old(m.db.repairs) && m.db.repairs == old(m.db.repairs)[r.value := m.db.repairs[r.value]]
              && m.db.repairs[r.value].progress == Progress(JobPending, 0) && HasSource(m.db, m.db.repairs[r.value])
              && (HasRowIn(m.db.replicas, v, latest, {Healthy}) ==> m.db.repairs[r.value].source == latest)
  {
    var scheduled := ScheduleForVersion(m, v, factor, None, Some(latest));
    if scheduled.Err? {
      return Err(scheduled.error);
    }
    r := Ok(scheduled.value.value);
    assert m.db.repairs[r.value].target in EligibleNodes(m.db, v, m.db.versions[v].size, {});
    if Idle(old(m.db.repairs), v) {
      forall i ensures !IsActive(old(m.db.repairs), i, v, m.db.repairs[r.value].target) {
        assert !WorksOn(old(m.db.repairs), i, v);
      }
    }
  }

  /** A job that nothing stands in the way of succeeds exactly when its calls and its source are good. */
  lemma Unhindered(hash: Hash, db: Tables, disks: Disks, job: Job, maxAttempts: nat, net: RepairNet)
    requires job.version in db.versions && Eligible(db, job.version, db.versions[job.version].size, {}, job.target)
    requires HasSource(db, job) && !Finished(job.progress, maxAttempts)
    ensures OutcomeOf(hash, db, disks, job, db.versions[job.version], maxAttempts, net) == Succeeded <==>
            GoodNet(hash, disks, job, db.versions[job.version], net)
  {
  }

  /** One turn of the loop: schedule a job and run it. */
  method RepairOnce(m: MM.MetadataManager, c: Cluster, maxAttempts: nat, v: VersionId, factor: int, latest: NodeId,
                    net: RepairNet)
    returns (r: Result<RepairResult, VaultError>, ghost t: ReplicaId)
    requires m.Valid() && c.Valid() && maxAttempts >= 1 && |HealthyRows(m.db.replicas, v)| < factor
    modifies m`db, c`disks
    ensures m.Valid()
    ensures Safe(c.hash, old(m.db), old(c.disks)) ==> Safe(c.hash, m.db, c.disks)
    ensures OnlyVersion(old(m.db), m.db, old(c.disks), c.disks, v)
    ensures r.Err? ==> GaveUp(old(m.db.replicas), m.db.replicas, v)
    ensures r.Ok? ==>
              && v in m.db.versions && HealthyRows(old(m.db.replicas), v) != {}
              && r.value.status == JobSucceeded && !HasRow(old(m.db.replicas), v, r.value.target)
              && IsBest(m.db.nodes, EligibleNodes(old(m.db), v, m.db.versions[v].size, {}), r.value.target)
              && Retargeted(old(m.db.replicas), m.db.replicas, t, v, r.value.target, REPAIRABLE, Healthy)
              && ChangedAt(old(c.disks), c.disks, r.value.target, v)
              && Intact(c.hash, c.disks, r.value.target, v, m.db.versions[v])
    ensures Idle(old(m.db.repairs), v) && HasRowIn(old(m.db.replicas), v, latest, {Healthy}) && v in m.db.versions ==>
              (r.Ok? <==>
                 && EligibleNodes(old(m.db), v, m.db.versions[v].size, {}) != {}
                 && GoodCalls(c.hash, m.db.versions[v], net)
                 && Intact(c.hash, old(c.disks), latest, v, m.db.versions[v]))
    ensures r.Ok? && Idle(old(m.db.repairs), v) ==> Idle(m.db.repairs, v)
  {
    t := 0;
    var next := NextJob(m, v, factor, latest);
    SameRowsSafe(c.hash, old(m.db), m.db, c.disks);
    SomeHealthy(m.db.replicas, v, latest);
    SamePool(old(m.db), m.db, v);
    if next.Err? {
      OnlyVersionBy(old(m.db), m.db, c.disks, c.disks, v, t, "", Healthy);
      return Err(next.error), t;
    }
    var id := next.value;
    var job := m.db.repairs[id];
    ghost var mid := m.db;
    if Idle(old(m.db.repairs), v) {
      Unhindered(c.hash, m.db, c.disks, job, maxAttempts, net);
    }
    var ran, outcome;
    ran, outcome, t := RunJob(m, c, maxAttempts, id, net);
    OtherJobsOn(old(m.db.repairs), mid.repairs, m.db.repairs, v, id);
    OnlyVersionBy(old(m.db), m.db, old(c.disks), c.disks, v, t, job.target,
                  if outcome == Succeeded then Healthy else Repairing);
    if Idle(old(m.db.repairs), v) {
      NewJobDone(old(m.db.repairs), mid.repairs, m.db.repairs, id, v);
    }
    if ran.Err? {
      return Err(ran.error), t;
    }
    r := Ok(RepairResult(id, job.target, ran.value));
  }

  lemma OtherJobsOn(before: map<JobId, Job>, mid: map<JobId, Job>, now: map<JobId, Job>, v: VersionId, id: JobId)
    requires forall j :: OtherJob(before, mid, v, j)
    requires id in mid && mid[id].version == v && id in now && now[id].version == v && now == mid[id := now[id]]
    ensures forall j :: OtherJob(before, now, v, j)
  {
    forall j ensures OtherJob(before, now, v, j) {
      assert OtherJob(before, mid, v, j);
    }
  }

  lemma SomeHealthy(replicas: map<ReplicaId, Replica>, v: VersionId, n: NodeId)
    ensures HasRowIn(replicas, v, n, {Healthy}) ==> HealthyRows(replicas, v) != {}
  {
    if s :| s in replicas && IsRow(replicas, s, v, n) && replicas[s].status == Healthy {
      assert s in HealthyRows(replicas, v);
    }
  }

  lemma SamePool(before: Tables, after: Tables, v: VersionId)
    requires after == before.(repairs := after.repairs)
    ensures v in before.versions ==>
              EligibleNodes(after, v, before.versions[v].size, {}) == EligibleNodes(before, v, before.versions[v].size,
                                                                                    {})
  {
    if v in before.versions {
      forall n ensures Eligible(after, v, before.versions[v].size, {}, n) <==>
          Eligible(before, v, before.versions[v].size, {}, n) {
      }
    }
  }

  /** With no job of v active, the one that is scheduled is new, and once it has succeeded none is active again. */
  lemma NewJobDone(before: map<JobId, Job>, mid: map<JobId, Job>, now: map<JobId, Job>, id: JobId, v: VersionId)
    requires id in mid && id in now && mid == before[id := mid[id]] && now == mid[id := now[id]]
    requires Idle(before, v) && id !in before
    ensures JobsKept(before, now)
    ensures now[id].progress.status == JobSucceeded ==> Idle(now, v)
  {
    forall j ensures now[id].progress.status == JobSucceeded ==> !WorksOn(now, j, v) {
      assert !WorksOn(before, j, v);
    }
  }

  function TargetsOf(results: seq<RepairResult>): seq<NodeId> {
    seq(|results|, i requires 0 <= i < |results| => results[i].target)
  }

  // Unrelated facts under one quantifier, so that the state of the loop stays folded.

  ghost predicate StandsAt(hash: Hash, before: Tables, disks: Disks, now: Tables, disks': Disks, v: VersionId,
                           nets: nat -> RepairNet, latest: Order, planned: bool, results: seq<RepairResult>,
                           r: ReplicaId)
  {
    && OtherRow(before.replicas, now.replicas, v, r) && OnlyVersion(before, now, disks, disks', v)
    && Repaired(before.replicas, now.replicas, v, results)
    && (results != [] ==> v in before.versions && HealthyRows(before.replicas, v) != {})
    && (planned ==> OnPlan(hash, before, disks, now, disks', v, nets, latest, TargetsOf(results)))
  }

  /** Where the loop stands after the given results. */
  ghost predicate Stands(hash: Hash, before: Tables, disks: Disks, now: Tables, disks': Disks, v: VersionId,
                         nets: nat -> RepairNet, latest: Order, planned: bool, results: seq<RepairResult>)
  {
    forall r :: StandsAt(hash, before, disks, now, disks', v, nets, latest, planned, results, r)
  }

  lemma StandsMeans(hash: Hash, before: Tables, disks: Disks, now: Tables, disks': Disks, v: VersionId,
                    nets: nat -> RepairNet, latest: Order, planned: bool, results: seq<RepairResult>)
    ensures Stands(hash, before, disks, now, disks', v, nets, latest, planned, results) <==>
            && OnlyVersion(before, now, disks, disks', v) && Repaired(before.replicas, now.replicas, v, results)
            && (results != [] ==> v in before.versions && HealthyRows(before.replicas, v) != {})
            && (planned ==> OnPlan(hash, before, disks, now, disks', v, nets, latest, TargetsOf(results)))
  {
    if Stands(hash, before, disks, now, disks', v, nets, latest, planned, results) {
      assert StandsAt(hash, before, disks, now, disks', v, nets, latest, planned, results, 0);
    }
  }

  /** Where a plan is followed, a turn goes well exactly when the next run of it does. */
  lemma TurnMeans(hash: Hash, before: Tables, disks: Disks, now: Tables, disks': Disks, v: VersionId,
                  nets: nat -> RepairNet, latest: Order, results: seq<RepairResult>, first: NodeId, ok: bool)
    requires Stands(hash, before, disks, now, disks', v, nets, latest, true, results) && IsOrder(latest)
    requires first == latest(|results|, HealthyNodes(now.replicas, v))
    requires ok ==> HealthyRows(now.replicas, v) != {}
    requires Idle(now.repairs, v) && HasRowIn(now.replicas, v, first, {Healthy}) && v in now.versions ==>
               (ok <==>
                  && EligibleNodes(now, v, now.versions[v].size, {}) != {}
                     && GoodCalls(hash, now.versions[v], nets(|results|))
                  && Intact(hash, disks', first, v, now.versions[v]))
    ensures ok ==> RunGood(hash, before, disks, v, nets, latest, TargetsOf(results), |results|)
    ensures forall factor :: !ok && |HealthyRows(now.replicas, v)| < factor ==>
              !CanComplete(hash, before, disks, v, factor, nets, latest)
  {
    StandsMeans(hash, before, disks, now, disks', v, nets, latest, true, results);
    var targets := TargetsOf(results);
    if HealthyRows(now.replicas, v) != {} {
      FirstIsHealthy(now.replicas, v, first);
      RunGoodNow(hash, before, disks, now, disks', v, nets, latest, targets);
      forall factor | |HealthyRows(now.replicas, v)| < factor
        && CanComplete(hash, before, disks, v, factor, nets, latest)
        ensures ok
      {
        NextGood(hash, before, disks, now, disks', v, factor, nets, latest, targets);
      }
    }
  }

  /** A turn that goes well. */
  lemma StandsMore(hash: Hash, before: Tables, disks: Disks, mid: Tables, disks': Disks, now: Tables, disks'': Disks,
                   v: VersionId, nets: nat -> RepairNet, latest: Order, planned: bool, results: seq<RepairResult>,
                   t: ReplicaId, result: RepairResult)
    requires Stands(hash, before, disks, mid, disks', v, nets, latest, planned, results)
    requires OnlyVersion(mid, now, disks', disks'', v) && v in now.versions && HealthyRows(mid.replicas, v) != {}
    requires result.status == JobSucceeded && !HasRow(mid.replicas, v, result.target)
    requires IsBest(now.nodes, EligibleNodes(mid, v, now.versions[v].size, {}), result.target)
    requires Retargeted(mid.replicas, now.replicas, t, v, result.target, REPAIRABLE, Healthy)
    requires ChangedAt(disks', disks'', result.target, v) && Intact(hash, disks'', result.target, v, now.versions[v])
    requires planned ==>
               Idle(now.repairs, v) && RunGood(hash, before, disks, v, nets, latest, TargetsOf(results), |results|)
    ensures Stands(hash, before, disks, now, disks'', v, nets, latest, planned, results + [result])
  {
    StandsMeans(hash, before, disks, mid, disks', v, nets, latest, planned, results);
    OnlyVersionOn(before, mid, now, disks, disks', disks'', v);
    RepairedMore(before.replicas, mid.replicas, now.replicas, v, results, t, result);
    if planned {
      PlanGoesOn(hash, before, disks, mid, disks', now, disks'', v, nets, latest, TargetsOf(results), t, result.target);
      assert TargetsOf(results + [result]) == TargetsOf(results) + [result.target];
    }
    StandsMeans(hash, before, disks, now, disks'', v, nets, latest, planned, results + [result]);
  }

  /** What the loop leaves behind, whether it returns or raises. */
  ghost predicate LeftBehind(hash: Hash, before: Tables, disks: Disks, now: Tables, disks': Disks, v: VersionId,
                             nets: nat -> RepairNet, latest: Order, planned: bool, done: seq<RepairResult>)
  {
    && OnlyVersion(before, now, disks, disks', v) && Repaired(before.replicas, now.replicas, v, done)
    && (planned ==> Plan(hash, before, disks, v, nets, latest, TargetsOf(done)))
  }

  /** A turn that goes wrong. */
  lemma LoopRaises(hash: Hash, before: Tables, disks: Disks, mid: Tables, disks': Disks, now: Tables, disks'': Disks,
                   v: VersionId, nets: nat -> RepairNet, latest: Order, planned: bool, results: seq<RepairResult>)
    requires Stands(hash, before, disks, mid, disks', v, nets, latest, planned, results)
    requires OnlyVersion(mid, now, disks', disks'', v) && GaveUp(mid.replicas, now.replicas, v)
    ensures LeftBehind(hash, before, disks, now, disks'', v, nets, latest, planned, results)
    ensures |HealthyRows(now.replicas, v)| == |HealthyRows(mid.replicas, v)|
  {
    StandsMeans(hash, before, disks, mid, disks', v, nets, latest, planned, results);
    OnlyVersionOn(before, mid, now, disks, disks', disks'', v);
    RepairedStill(before.replicas, mid.replicas, now.replicas, v, results);
  }

  /** The loop is through. */
  lemma LoopEnds(hash: Hash, before: Tables, disks: Disks, now: Tables, disks': Disks, v: VersionId, factor: int,
                 nets: nat -> RepairNet, latest: Order, planned: bool, results: seq<RepairResult>)
    requires Stands(hash, before, disks, now, disks', v, nets, latest, planned, results)
    requires |HealthyRows(now.replicas, v)| >= factor
             && |results| <= Max(0, factor - |HealthyRows(before.replicas, v)|)
    ensures LeftBehind(hash, before, disks, now, disks', v, nets, latest, planned, results)
    ensures |results| == Max(0, factor - |HealthyRows(before.replicas, v)|)
    ensures |HealthyRows(before.replicas, v)| >= factor || v in before.versions
    ensures planned ==> |HealthyRows(before.replicas, v)| >= factor
                        || CanComplete(hash, before, disks, v, factor, nets, latest)
  {
    StandsMeans(hash, before, disks, now, disks', v, nets, latest, planned, results);
    assert |TargetsOf(results)| == |results|;
  }

  /** One turn of the loop, measured against its start. */
  method TakeTurn(m: MM.MetadataManager, c: Cluster, maxAttempts: nat, v: VersionId, factor: int,
                  nets: nat -> RepairNet, latest: Order, results: seq<RepairResult>, ghost before: Tables,
                  ghost disks: Disks, ghost planned: bool)
    returns (r: Result<RepairResult, VaultError>)
    requires m.Valid() && c.Valid() && maxAttempts >= 1 && |HealthyRows(m.db.replicas, v)| < factor
    requires Stands(c.hash, before, disks, m.db, c.disks, v, nets, latest, planned, results)
             && (planned ==> IsOrder(latest))
    modifies m`db, c`disks
    ensures m.Valid() && (Safe(c.hash, old(m.db), old(c.disks)) ==> Safe(c.hash, m.db, c.disks))
    ensures r.Ok? ==>
              && Stands(c.hash, before, disks, m.db, c.disks, v, nets, latest, planned, results + [r.value])
              && |HealthyRows(m.db.replicas, v)| == |HealthyRows(old(m.db.replicas), v)| + 1
    ensures r.Err? ==>
              && LeftBehind(c.hash, before, disks, m.db, c.disks, v, nets, latest, planned, results)
              && |HealthyRows(m.db.replicas, v)| == |HealthyRows(old(m.db.replicas), v)|
              && (planned ==> !CanComplete(c.hash, before, disks, v, factor, nets, latest))
  {
    ghost var mid, disks' := m.db, c.disks;
    StandsMeans(c.hash, before, disks, mid, disks', v, nets, latest, planned, results);
    var first := latest(|results|, HealthyNodes(m.db.replicas, v));
    var once, t := RepairOnce(m, c, maxAttempts, v, factor, first, nets(|results|));
    if planned {
      TurnMeans(c.hash, before, disks, mid, disks', v, nets, latest, results, first, once.Ok?);
    }
    if once.Err? {
      LoopRaises(c.hash, before, disks, mid, disks', m.db, c.disks, v, nets, latest, planned, results);
      return Err(once.error);
    }
    StandsMore(c.hash, before, disks, mid, disks', m.db, c.disks, v, nets, latest, planned, results, t, once.value);
    RetargetedHealthy(mid.replicas, m.db.replicas, t, v, once.value.target, REPAIRABLE, Healthy);
    r := Ok(once.value);
  }

  /**
    Repair until `factor` replicas are HEALTHY. `nets(k)` says how the calls of the k-th run go, and `latest` in which
    order the HEALTHY rows come. The loop ends because every run either raises or adds a HEALTHY row; `done` is what
    it has repaired, whether it returns or raises. With no job of the version active, it returns exactly when enough
    rows are HEALTHY or every run that is needed can succeed, and goes through the best eligible nodes in order until
    a run fails.
   */
  method RepairVersionUntilHealthy(m: MM.MetadataManager, c: Cluster, maxAttempts: nat, v: VersionId, factor: int,
                                   nets: nat -> RepairNet, latest: Order)
    returns (r: Result<seq<RepairResult>, VaultError>, ghost done: seq<RepairResult>)
    requires m.Valid() && c.Valid() && maxAttempts >= 1
    modifies m`db, c`disks
    ensures m.Valid()
    ensures Safe(c.hash, old(m.db), old(c.disks)) ==> Safe(c.hash, m.db, c.disks)
    ensures var planned := IsOrder(latest) && Idle(old(m.db.repairs), v) && v in old(m.db.versions);
            LeftBehind(c.hash, old(m.db), old(c.disks), m.db, c.disks, v, nets, latest, planned, done)
    ensures r.Ok? <==> |HealthyRows(m.db.replicas, v)| >= factor
    ensures r.Ok? ==> r.value == done && |done| == Max(0, factor - |HealthyRows(old(m.db.replicas), v)|)
    ensures IsOrder(latest) && Idle(old(m.db.repairs), v) ==>
              (r.Ok? <==>
                 || |HealthyRows(old(m.db.replicas), v)| >= factor
                 || CanComplete(c.hash, old(m.db), old(c.disks), v, factor, nets, latest))
  {
    var results: seq<RepairResult> := [];
    ghost var before, disks := m.db, c.disks;
    ghost var planned := IsOrder(latest) && Idle(before.repairs, v) && v in before.versions;
    if planned {
      PlanStarts(c.hash, before, disks, v, nets, latest);
    }
    OnlyVersionBy(before, before, disks, disks, v, 0, "", Healthy);
    StandsMeans(c.hash, before, disks, m.db, c.disks, v, nets, latest, planned, results);
    while |HealthyRows(m.db.replicas, v)| < factor
      invariant m.Valid() && (Safe(c.hash, before, disks) ==> Safe(c.hash, m.db, c.disks))
      invariant Stands(c.hash, before, disks, m.db, c.disks, v, nets, latest, planned, results)
      invariant |results| <= Max(0, factor - |HealthyRows(before.replicas, v)|)
      invariant |HealthyRows(m.db.replicas, v)| == |HealthyRows(before.replicas, v)| + |results|
      decreases factor - |HealthyRows(m.db.replicas, v)|
    {
      var once := TakeTurn(m, c, maxAttempts, v, factor, nets, latest, results, before, disks, planned);
      if once.Err? {
        return Err(once.error), results;
      }
      results := results + [once.value];
    }
    LoopEnds(c.hash, before, disks, m.db, c.disks, v, factor, nets, latest, planned, results);
    r, done := Ok(results), results;
  }

  /** The node that comes first has a HEALTHY row. */
  lemma FirstIsHealthy(replicas: map<ReplicaId, Replica>, v: VersionId, first: NodeId)
    requires HealthyRows(replicas, v) != {}
    ensures HealthyNodes(replicas, v) != {}
    ensures first in HealthyNodes(replicas, v) ==> HasRowIn(replicas, v, first, {Healthy})
  {
    var r :| r in HealthyRows(replicas, v);
    assert replicas[r].node in HealthyNodes(replicas, v);
    if first in HealthyNodes(replicas, v) {
      var s :| s in HealthyRows(replicas, v) && replicas[s].node == first;
      assert IsRow(replicas, s, v, first);
    }
  }

  /**
    Run a new job any number of times, whatever happens: its attempts stay bounded by `maxAttempts` plus the
    runs in which a call never returned.
   */
  method RunRepeatedly(m: MM.MetadataManager, c: Cluster, maxAttempts: nat, id: JobId, nets: seq<RepairNet>)
    returns (ghost history: seq<Progress>, ghost outcomes: seq<Outcome>)
    requires m.Valid() && c.Valid() && maxAttempts >= 1
    requires id in m.db.repairs && m.db.repairs[id].progress == Progress(JobPending, 0)
    modifies m`db, c`disks
    ensures m.Valid() && id in m.db.repairs && |outcomes| == |nets|
    ensures IsRun(history, outcomes, maxAttempts) && history[|outcomes|] == m.db.repairs[id].progress
    ensures forall k :: 0 <= k < |nets| && outcomes[k] == Outcome.Crashed ==> Dying(nets[k])
    ensures Bounded(m.db.repairs[id].progress, outcomes, DyingRuns(nets), maxAttempts)
  {
    history, outcomes := [m.db.repairs[id].progress], [];
    for k := 0 to |nets|
      invariant m.Valid() && id in m.db.repairs && |outcomes| == k
      invariant IsRun(history, outcomes, maxAttempts) && history[k] == m.db.repairs[id].progress
      invariant forall i :: 0 <= i < k && outcomes[i] == Outcome.Crashed ==> Dying(nets[i])
      invariant Crashes(outcomes) <= DyingRuns(nets[..k])
    {
      var _, outcome, t := RunJob(m, c, maxAttempts, id, nets[k]);
      RunGoesOn(history, outcomes, maxAttempts, m.db.repairs[id].progress, outcome);
      assert nets[..k + 1][..k] == nets[..k] && (outcomes + [outcome])[..k] == outcomes;
      history, outcomes := history + [m.db.repairs[id].progress], outcomes + [outcome];
    }
    assert nets[..|nets|] == nets;
    AttemptsBounded(history, outcomes, maxAttempts);
    StatusMeans(history, outcomes, maxAttempts);
  }
}
