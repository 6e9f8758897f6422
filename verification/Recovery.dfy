/** Reconciling a node that came back with what metadata says it holds. */
module Recovery {
  import opened Base
  import opened Tables
  import opened Metadata
  import opened Cluster
  import opened Placement
  import MM = MetadataManager
  import Repair

  /** What verifying one replica shows. `Crash` is an exception that the loop does not handle. */
  datatype Finding = Match | Absent | Damaged | Silent | Crash

  datatype RecoveryResult = RecoveryResult(
    checked: nat, healthy: nat, missing: seq<ReplicaId>, corrupted: seq<ReplicaId>, repairs: seq<JobId>,
    unresolved: seq<ReplicaId>, complete: bool)

  /** `_known_replicas`: rows of COMMITTED versions on the node that are not FAILED. */
  function Known(db: Tables, n: NodeId): set<ReplicaId> {
    set r | r in db.replicas && db.replicas[r].node == n && db.replicas[r].status != Failed
            && db.replicas[r].version in db.versions && db.versions[db.replicas[r].version].state == Committed
  }

  function FindingOf(measured: Measurement, version: Version): Finding {
    match measured
    case Died => Crash
    case NoAnswer => Silent
    case Missing => Absent
    case Invalid => Damaged
    case Measured(_, _, _) => if Agrees(measured, version) then Match else Damaged
  }

  /** What verifying row r shows, given how the call goes. */
  function FindingAt(hash: Hash, db: Tables, disks: Disks, reach: Reach, r: ReplicaId): Finding
    requires r in db.replicas && db.replicas[r].version in db.versions
  {
    var row := db.replicas[r];
    FindingOf(Measure(hash, disks, row.node, row.version, reach, true), db.versions[row.version])
  }

  /** The state of a row once its finding is dealt with. */
  function Reconciled(row: Replica, version: Version, finding: Finding): Replica {
    match finding
    case Match => row.(status := Healthy, checksum := Some(version.checksum), size := Some(version.size))
    case Absent => if row.status == Healthy then row.(status := Unavailable) else row
    case Damaged => if row.status == Healthy then row.(status := Corrupted) else row
    case Silent => row
    case Crash => row
  }

  // ----- The loop's progress

  /** Rows in `done` are reconciled, all others are as before. */
  ghost predicate RowAt(hash: Hash, before: Tables, now: Tables, disks: Disks, reach: ReplicaId -> Reach,
                        done: set<ReplicaId>, r: ReplicaId) {
    && (r in now.replicas <==> r in before.replicas)
    && (r in before.replicas && r !in done ==> now.replicas[r] == before.replicas[r])
    && (r in done ==> r in before.replicas && before.replicas[r].version in before.versions
                      && now.replicas[r] == Reconciled(before.replicas[r], before.versions[before.replicas[r].version],
                                                       FindingAt(hash, before, disks, reach(r), r)))
  }

  ghost predicate Progressed(hash: Hash, before: Tables, now: Tables, disks: Disks, reach: ReplicaId -> Reach,
                             done: set<ReplicaId>) {
    forall r :: RowAt(hash, before, now, disks, reach, done, r)
  }

  lemma ProgressMore(hash: Hash, before: Tables, mid: Tables, now: Tables, disks: Disks, reach: ReplicaId -> Reach,
                     done: set<ReplicaId>, r: ReplicaId)
    requires Progressed(hash, before, mid, disks, reach, done)
    requires r in before.replicas && r !in done && before.replicas[r].version in before.versions
    requires now.replicas == mid.replicas[r := Reconciled(before.replicas[r],
                                                          before.versions[before.replicas[r].version],
                                                          FindingAt(hash, before, disks, reach(r), r))]
    ensures Progressed(hash, before, now, disks, reach, done + {r})
  {
    var done' := done + {r};
    assert RowAt(hash, before, mid, disks, reach, done, r);
    forall s ensures RowAt(hash, before, now, disks, reach, done', s) {
      assert RowAt(hash, before, mid, disks, reach, done, s);
    }
  }

  /** HEALTHY after reconciliation: verified now, or unreachable and HEALTHY before. */
  lemma ReconciledHealthy(hash: Hash, db: Tables, disks: Disks, reach: Reach, r: ReplicaId)
    requires r in db.replicas && db.replicas[r].version in db.versions
    ensures var row := db.replicas[r];
            var version := db.versions[row.version];
            var finding := FindingAt(hash, db, disks, reach, r);
            && (Reconciled(row, version, finding).status == Healthy <==>
                  finding == Match || (finding in {Silent, Crash} && row.status == Healthy))
            && (finding == Match <==> reach == Reached && Intact(hash, disks, row.node, row.version, version))
  {
    AgreesIsIntact(hash, disks, db.replicas[r].node, db.replicas[r].version, reach, true,
                   db.versions[db.replicas[r].version]);
  }

  lemma ProgressedSafe(hash: Hash, before: Tables, now: Tables, disks: Disks, reach: ReplicaId -> Reach,
                       done: set<ReplicaId>)
    requires Progressed(hash, before, now, disks, reach, done) && now.versions == before.versions
    ensures Safe(hash, before, disks) ==> Safe(hash, now, disks)
  {
    if Safe(hash, before, disks) {
      forall r ensures Backed(hash, now, disks, r) {
        assert RowAt(hash, before, now, disks, reach, done, r) && Backed(hash, before, disks, r);
        if r in done {
          ReconciledHealthy(hash, before, disks, reach(r), r);
        }
      }
    }
  }

  /** The members of a set of rows with a given finding. */
  ghost function Found(hash: Hash, db: Tables, disks: Disks, reach: ReplicaId -> Reach, rows: set<ReplicaId>,
                       finding: Finding): set<ReplicaId> {
    set r | r in rows && r in db.replicas && db.replicas[r].version in db.versions
      && FindingAt(hash, db, disks, reach(r), r) == finding
  }

  lemma FoundMore(hash: Hash, db: Tables, disks: Disks, reach: ReplicaId -> Reach, rows: set<ReplicaId>, r: ReplicaId,
                  finding: Finding)
    requires r in db.replicas && db.replicas[r].version in db.versions && r !in rows
    ensures Found(hash, db, disks, reach, rows + {r}, finding) ==
            Add(Found(hash, db, disks, reach, rows, finding), r, FindingAt(hash, db, disks, reach(r), r) == finding)
    ensures r !in Found(hash, db, disks, reach, rows, finding)
  {
  }

  predicate Listed(list: seq<ReplicaId>, all: set<ReplicaId>, r: ReplicaId) {
    r in list <==> r in all
  }

  /** A list holds exactly the members of a set, each once. */
  ghost predicate Lists(list: seq<ReplicaId>, all: set<ReplicaId>) {
    |list| == |all| && forall r :: Listed(list, all, r)
  }

  function Push<T>(list: seq<T>, x: T, more: bool): seq<T> {
    if more then list + [x] else list
  }

  function Add<T>(all: set<T>, x: T, more: bool): set<T> {
    if more then all + {x} else all
  }

  lemma AddCount<T>(all: set<T>, x: T, more: bool)
    requires x !in all
    ensures |Add(all, x, more)| == |all| + if more then 1 else 0
  {
  }

  lemma ListMore(list: seq<ReplicaId>, all: set<ReplicaId>, r: ReplicaId, more: bool)
    requires Lists(list, all) && r !in all
    ensures Lists(Push(list, r, more), Add(all, r, more))
  {
    if more {
      var list', all' := list + [r], all + {r};
      forall s ensures Listed(list', all', s) {
        assert Listed(list, all, s);
      }
    }
  }

  /** Rows by what was found. */
  datatype Piles = Piles(matching: set<ReplicaId>, absent: set<ReplicaId>, damaged: set<ReplicaId>,
                         silent: set<ReplicaId>)

  ghost function PilesOf(hash: Hash, db: Tables, disks: Disks, reach: ReplicaId -> Reach, done: set<ReplicaId>): Piles {
    Piles(Found(hash, db, disks, reach, done, Match), Found(hash, db, disks, reach, done, Absent),
          Found(hash, db, disks, reach, done, Damaged), Found(hash, db, disks, reach, done, Silent))
  }

  /** Counters and lists for rows sorted into piles; `stuck` are those whose repair could not be scheduled. */
  ghost predicate Counts(p: Piles, n: nat, stuck: set<ReplicaId>, t: RecoveryResult) {
    && t.healthy == |p.matching| && Lists(t.missing, p.absent) && Lists(t.corrupted, p.damaged)
    && t.healthy + |t.missing| + |t.corrupted| == t.checked
    && t.checked + |p.silent| == n
    && |t.repairs| + |stuck| == |t.missing| + |t.corrupted|
    && Lists(t.unresolved, p.silent + stuck) && stuck <= p.absent + p.damaged
    && (t.complete <==> t.unresolved == [])
  }

  /** Whether a row is left unresolved although its node answered. */
  predicate Blocked(finding: Finding, job: Result<Option<JobId>, VaultError>) {
    finding in {Absent, Damaged} && job.Err?
  }

  /** The tally with one more row. */
  function Tally(t: RecoveryResult, r: ReplicaId, finding: Finding, job: Result<Option<JobId>,
                 VaultError>): RecoveryResult {
    RecoveryResult(
      t.checked + (if finding in {Match, Absent, Damaged} then 1 else 0),
      t.healthy + (if finding == Match then 1 else 0),
      Push(t.missing, r, finding == Absent),
      Push(t.corrupted, r, finding == Damaged),
      if finding in {Absent, Damaged} && job.Ok? && job.value.Some? then t.repairs + [job.value.value] else t.repairs,
      Push(t.unresolved, r, finding == Silent || Blocked(finding, job)),
      t.complete && finding != Silent && !Blocked(finding, job))
  }

  lemma CountsMore(p: Piles, n: nat, stuck: set<ReplicaId>, t: RecoveryResult, r: ReplicaId, finding: Finding,
                   job: Result<Option<JobId>, VaultError>)
    requires Counts(p, n, stuck, t) && finding != Crash
    requires finding in {Absent, Damaged} && job.Ok? ==> job.value.Some?
    requires r !in p.matching && r !in p.absent && r !in p.damaged && r !in p.silent
    ensures Counts(Piles(Add(p.matching, r, finding == Match), Add(p.absent, r, finding == Absent),
                         Add(p.damaged, r, finding == Damaged),
                         Add(p.silent, r, finding == Silent)),
                   n + 1, Add(stuck, r, Blocked(finding, job)), Tally(t, r, finding, job))
  {
    var p' := Piles(Add(p.matching, r, finding == Match), Add(p.absent, r, finding == Absent),
                    Add(p.damaged, r, finding == Damaged),
                    Add(p.silent, r, finding == Silent));
    var stuck' := Add(stuck, r, Blocked(finding, job));
    StuckMore(p.absent, p.damaged, p.silent, stuck, r, finding, Blocked(finding, job));
    AddCount(p.matching, r, finding == Match);
    AddCount(p.silent, r, finding == Silent);
    AddCount(stuck, r, Blocked(finding, job));
    ListMore(t.missing, p.absent, r, finding == Absent);
    ListMore(t.corrupted, p.damaged, r, finding == Damaged);
    ListMore(t.unresolved, p.silent + stuck, r, finding == Silent || Blocked(finding, job));
  }

  lemma StuckMore(absent: set<ReplicaId>, damaged: set<ReplicaId>, silent: set<ReplicaId>, stuck: set<ReplicaId>,
                  r: ReplicaId, finding: Finding, blocked: bool)
    requires stuck <= absent + damaged && r !in absent && r !in damaged && r !in silent
    requires blocked ==> finding in {Absent, Damaged}
    ensures r !in silent + stuck && r !in stuck
    ensures Add(silent, r, finding == Silent) + Add(stuck, r, blocked) == Add(silent + stuck, r, finding == Silent
                                                                              || blocked)
    ensures Add(stuck, r, blocked) <= Add(absent, r, finding == Absent) + Add(damaged, r, finding == Damaged)
  {
  }

  /** The tally of the rows in `done`. */
  ghost predicate Tallied(hash: Hash, db: Tables, disks: Disks, reach: ReplicaId -> Reach, done: set<ReplicaId>,
                          stuck: set<ReplicaId>, t: RecoveryResult) {
    Counts(PilesOf(hash, db, disks, reach, done), |done|, stuck, t)
  }

  lemma TallyMore(hash: Hash, db: Tables, disks: Disks, reach: ReplicaId -> Reach, done: set<ReplicaId>,
                  stuck: set<ReplicaId>, t: RecoveryResult,
                  r: ReplicaId, job: Result<Option<JobId>, VaultError>)
    requires Tallied(hash, db, disks, reach, done, stuck, t)
    requires r in db.replicas && db.replicas[r].version in db.versions && r !in done
    requires FindingAt(hash, db, disks, reach(r), r) != Crash
    requires FindingAt(hash, db, disks, reach(r), r) in {Absent, Damaged} && job.Ok? ==> job.value.Some?
    ensures var finding := FindingAt(hash, db, disks, reach(r), r);
            Tallied(hash, db, disks, reach, done + {r}, Add(stuck, r, Blocked(finding, job)), Tally(t, r, finding, job))
  {
    FoundMore(hash, db, disks, reach, done, r, Match);
    FoundMore(hash, db, disks, reach, done, r, Absent);
    FoundMore(hash, db, disks, reach, done, r, Damaged);
    FoundMore(hash, db, disks, reach, done, r, Silent);
    CountsMore(PilesOf(hash, db, disks, reach, done), |done|, stuck, t, r, FindingAt(hash, db, disks, reach(r), r),
               job);
  }

  // ----- The operations

  /** `_mark_verified_replica`: a FAILED row is passed over, and a COPYING one cannot be reconciled. */
  method MarkVerified(m: MM.MetadataManager, id: ReplicaId) returns (r: Result<(), VaultError>)
    requires m.Valid() && id in m.db.replicas && m.db.replicas[id].version in m.db.versions
    modifies m`db
    ensures m.Valid()
    ensures r.Err? <==> old(m.db.replicas)[id].status == Copying
    ensures m.db == if old(m.db.replicas)[id].status in {Copying, Failed} then old(m.db) else AfterHealthy(old(m.db),
                                                                                                           id)
  {
    m.Opened();
    var row := m.db.replicas[id];
    var version := m.db.versions[row.version];
    assert VersionOk(m.db.objects, m.db.versions, row.version);
    assert ReplicaOk(m.db, id);
    if row.status == Healthy {
      assert m.db.replicas == m.db.replicas[id := row];
      r := m.RecordReplicaVerification(id, version.checksum, version.size);
      return;
    }
    if row.status == Failed {
      return Ok(());
    }
    if row.status in {Pending, Corrupted, Stale, Unavailable} {
      var _ := m.SetReplicaState(id, Repairing);
    } else if row.status != Repairing {
      return Err(InvalidState);
    }
    r := m.MarkReplicaHealthy(id, version.checksum, version.size);
  }

  /** A missing or damaged replica loses its HEALTHY state, and its repair is scheduled if there can be one. */
  method Demote(m: MM.MetadataManager, rf: int, id: ReplicaId, to: ReplicaState)
    returns (job: Result<Option<JobId>, VaultError>)
    requires m.Valid() && rf >= 1 && to in {Corrupted, Unavailable}
    requires id in m.db.replicas && m.db.replicas[id].version in m.db.versions && m.db.replicas[id].node in m.db.nodes
             && m.db.nodes[m.db.replicas[id].node].status == NodeRecovering
    modifies m`db
    ensures m.Valid()
    ensures m.db == old(m.db).(replicas := m.db.replicas, repairs := m.db.repairs)
    ensures m.db.replicas == if old(m.db.replicas)[id].status == Healthy then WithStatus(old(m.db.replicas), id, to)
                             else old(m.db.replicas)
    ensures Repair.JobsKept(old(m.db.repairs), m.db.repairs)
    ensures ScheduledFor(old(m.db), m.db, id, job)
  {
    if m.db.replicas[id].status == Healthy {
      var _ := m.SetReplicaState(id, to);
    }
    Repair.DemotedPool(old(m.db), m.db, id, to);
    var v := m.db.replicas[id].version;
    assert !Repair.OwnNodeFits(m.db, v, Some(id)) && !Repair.SelfSource(m.db, v, id);
    job := Repair.ScheduleElsewhere(m, v, rf, id);
  }

  /** The repair of row id could not be scheduled exactly when there can be none; otherwise a job is at work on it. */
  ghost predicate ScheduledFor(before: Tables, now: Tables, id: ReplicaId, job: Result<Option<JobId>, VaultError>) {
    && id in before.replicas && before.replicas[id].version in before.versions
    && (job.Err? <==> Repair.Unrepairable(before, id))
    && (job.Ok? ==> job.value.Some? && Repair.WorksOn(now.repairs, job.value.value, before.replicas[id].version))
  }

  /** One turn of the loop: verify a replica, update its row and the tally. */
  method ReconcileRow(m: MM.MetadataManager, c: Cluster, rf: int, id: ReplicaId, reach: Reach, t: RecoveryResult)
    returns (r: Result<RecoveryResult, VaultError>, ghost job: Result<Option<JobId>, VaultError>)
    requires m.Valid() && rf >= 1
    requires id in m.db.replicas && m.db.replicas[id].version in m.db.versions && m.db.replicas[id].status != Failed
    requires m.db.replicas[id].node in m.db.nodes && m.db.nodes[m.db.replicas[id].node].status == NodeRecovering
    modifies m`db
    ensures m.Valid()
    ensures var row := old(m.db.replicas)[id];
            var finding := FindingAt(c.hash, old(m.db), c.disks, reach, id);
            && (r.Err? <==> finding == Crash || (finding == Match && row.status == Copying))
            && (r.Err? ==> m.db == old(m.db))
            && (r.Ok? ==>
                  && r.value == Tally(t, id, finding, job)
                  && Repair.JobsKept(old(m.db.repairs), m.db.repairs)
                  && (finding in {Absent, Damaged} ==> ScheduledFor(old(m.db), m.db, id, job))
                  && var reconciled := Reconciled(row, old(m.db.versions)[row.version], finding);
                     m.db == old(m.db).(replicas := old(m.db.replicas)[id := reconciled], repairs := m.db.repairs))
  {
    job := Ok(None);
    var row := m.db.replicas[id];
    var version := m.db.versions[row.version];
    var measured := c.Verify(row.node, row.version, reach, true);
    assert m.db.replicas == m.db.replicas[id := row];
    var result := t;
    match measured {
      case Died =>
        return Err(Aborted), job;
      case NoAnswer =>
        result := result.(unresolved := result.unresolved + [id], complete := false);
      case Missing =>
        result := result.(checked := result.checked + 1, missing := result.missing + [id]);
        var scheduled := Demote(m, rf, id, Unavailable);
        job := scheduled;
        result := Scheduled(result, id, scheduled);
      case Invalid =>
        result := result.(checked := result.checked + 1, corrupted := result.corrupted + [id]);
        var scheduled := Demote(m, rf, id, Corrupted);
        job := scheduled;
        result := Scheduled(result, id, scheduled);
      case Measured(_, _, _) =>
        result := result.(checked := result.checked + 1);
        if Agrees(measured, version) {
          var marked := MarkVerified(m, id);
          if marked.Err? {
            return Err(marked.error), job;
          }
          result := result.(healthy := result.healthy + 1);
        } else {
          result := result.(corrupted := result.corrupted + [id]);
          var scheduled := Demote(m, rf, id, Corrupted);
          job := scheduled;
          result := Scheduled(result, id, scheduled);
        }
    }
    r := Ok(result);
  }

  /** Note the repair job, or that there is none to be had. */
  function Scheduled(t: RecoveryResult, id: ReplicaId, job: Result<Option<JobId>, VaultError>): RecoveryResult {
    match job
    case Ok(None) => t
    case Ok(Some(j)) => t.(repairs := t.repairs + [j])
    case Err(_) => t.(unresolved := t.unresolved + [id], complete := false)
  }

  /** The call ends normally: nothing crashes and no COPYING row turns out to match. */
  ghost predicate Reconcilable(hash: Hash, db: Tables, disks: Disks, reach: ReplicaId -> Reach, r: ReplicaId) {
    r in db.replicas && db.replicas[r].version in db.versions ==>
      var finding := FindingAt(hash, db, disks, reach(r), r);
      finding != Crash && !(finding == Match && db.replicas[r].status == Copying)
  }

  ghost predicate AllReconcilable(hash: Hash, db: Tables, disks: Disks, reach: ReplicaId -> Reach,
                                  rows: set<ReplicaId>) {
    forall r :: r in rows ==> Reconcilable(hash, db, disks, reach, r)
  }

  /** The row is missing or damaged. */
  ghost predicate Broken(hash: Hash, db: Tables, disks: Disks, reach: ReplicaId -> Reach, r: ReplicaId) {
    && r in db.replicas && db.replicas[r].version in db.versions
    && FindingAt(hash, db, disks, reach(r), r) in {Absent, Damaged}
  }

  /** One of the listed jobs is at work on version v. */
  ghost predicate HasJob(repairs: map<JobId, Job>, list: seq<JobId>, v: VersionId) {
    exists j :: j in list && Repair.WorksOn(repairs, j, v)
  }

  /**
    A row is stuck exactly when it is missing or damaged and, by the tables at the start, no repair of it can be
    scheduled; every other missing or damaged row has a job on the list that is at work on its version.
   */
  ghost predicate RepairAt(hash: Hash, before: Tables, now: Tables, disks: Disks, reach: ReplicaId -> Reach,
                           done: set<ReplicaId>, stuck: set<ReplicaId>, t: RecoveryResult, r: ReplicaId)
  {
    && (r in stuck <==> r in done && Broken(hash, before, disks, reach, r) && Repair.Unrepairable(before, r))
    && (r in done && Broken(hash, before, disks, reach, r) && r !in stuck ==>
          HasJob(now.repairs, t.repairs, before.replicas[r].version))
  }

  ghost predicate AllRepaired(hash: Hash, before: Tables, now: Tables, disks: Disks, reach: ReplicaId -> Reach,
                              done: set<ReplicaId>, stuck: set<ReplicaId>, t: RecoveryResult)
  {
    forall r :: RepairAt(hash, before, now, disks, reach, done, stuck, t, r)
  }

  lemma AllRepairedMore(hash: Hash, before: Tables, mid: Tables, now: Tables, disks: Disks, reach: ReplicaId -> Reach,
                        done: set<ReplicaId>, stuck: set<ReplicaId>, t: RecoveryResult, r: ReplicaId,
                        job: Result<Option<JobId>, VaultError>)
    requires AllRepaired(hash, before, mid, disks, reach, done, stuck, t) && r !in done
    requires r in before.replicas && before.replicas[r].version in before.versions
    requires Repair.JobsKept(mid.repairs, now.repairs)
    requires Broken(hash, before, disks, reach, r) ==> ScheduledFor(before, now, r, job)
    ensures var finding := FindingAt(hash, before, disks, reach(r), r);
            AllRepaired(hash, before, now, disks, reach, done + {r}, Add(stuck, r, Blocked(finding, job)),
                        Tally(t, r, finding, job))
  {
    var finding := FindingAt(hash, before, disks, reach(r), r);
    var done', stuck', t' := done + {r}, Add(stuck, r, Blocked(finding, job)), Tally(t, r, finding, job);
    forall s ensures RepairAt(hash, before, now, disks, reach, done', stuck', t', s) {
      assert RepairAt(hash, before, mid, disks, reach, done, stuck, t, s);
      if s == r {
        if Broken(hash, before, disks, reach, r) && job.Ok? {
          assert job.value.value in t'.repairs;
        }
      } else if s in done && Broken(hash, before, disks, reach, s) && s !in stuck {
        var j :| j in t.repairs && Repair.WorksOn(mid.repairs, j, before.replicas[s].version);
        assert j in t'.repairs && Repair.WorksOn(now.repairs, j, before.replicas[s].version);
      }
    }
  }

  /** What could be scheduled for a row does not change while other rows of its node are reconciled. */
  lemma UnrepairableSame(hash: Hash, before: Tables, now: Tables, disks: Disks, reach: ReplicaId -> Reach,
                         done: set<ReplicaId>, n: NodeId, id: ReplicaId)
    requires Consistent(before) && now == before.(replicas := now.replicas, repairs := now.repairs)
    requires Progressed(hash, before, now, disks, reach, done) && done <= Known(before, n)
    requires id in Known(before, n) && id !in done && id in now.replicas && now.replicas[id] == before.replicas[id]
    ensures Repair.Unrepairable(now, id) <==> Repair.Unrepairable(before, id)
  {
    var v := before.replicas[id].version;
    forall r ensures r in now.replicas <==> r in before.replicas
      ensures r in before.replicas ==> now.replicas[r].version == before.replicas[r].version
                                       && now.replicas[r].node == before.replicas[r].node
      ensures r in before.replicas && before.replicas[r].version == v ==> now.replicas[r] == before.replicas[r]
    {
      assert RowAt(hash, before, now, disks, reach, done, r) && RowOk(before.replicas, r, id);
    }
    assert HealthyRows(now.replicas, v) == HealthyRows(before.replicas, v);
    forall k ensures Eligible(now, v, now.versions[v].size, {}, k) <==>
        Eligible(before, v, now.versions[v].size, {}, k) {
      forall s ensures IsRow(now.replicas, s, v, k) <==> IsRow(before.replicas, s, v, k) {
      }
    }
    assert EligibleNodes(now, v, now.versions[v].size, {}) == EligibleNodes(before, v, now.versions[v].size, {});
  }

  // The tally does not depend on r; it stands under the quantifier so that the state of the loop stays folded.

  /** The loop so far, as seen from row r. */
  ghost predicate Turned(hash: Hash, before: Tables, now: Tables, disks: Disks, reach: ReplicaId -> Reach,
                         done: set<ReplicaId>, stuck: set<ReplicaId>,
                         t: RecoveryResult, r: ReplicaId)
  {
    && RowAt(hash, before, now, disks, reach, done, r)
    && (r in done ==> Reconcilable(hash, before, disks, reach, r))
    && RepairAt(hash, before, now, disks, reach, done, stuck, t, r)
    && Tallied(hash, before, disks, reach, done, stuck, t)
  }

  ghost predicate SoFar(hash: Hash, before: Tables, now: Tables, disks: Disks, reach: ReplicaId -> Reach,
                        done: set<ReplicaId>, stuck: set<ReplicaId>,
                        t: RecoveryResult)
  {
    forall r :: Turned(hash, before, now, disks, reach, done, stuck, t, r)
  }

  lemma SoFarMeans(hash: Hash, before: Tables, now: Tables, disks: Disks, reach: ReplicaId -> Reach,
                   done: set<ReplicaId>, stuck: set<ReplicaId>,
                   t: RecoveryResult)
    ensures SoFar(hash, before, now, disks, reach, done, stuck, t) <==>
            && Progressed(hash, before, now, disks, reach, done) && AllReconcilable(hash, before, disks, reach, done)
            && AllRepaired(hash, before, now, disks, reach, done, stuck, t)
            && Tallied(hash, before, disks, reach, done, stuck, t)
  {
    if SoFar(hash, before, now, disks, reach, done, stuck, t) {
      assert Turned(hash, before, now, disks, reach, done, stuck, t, 0);
      forall r ensures RowAt(hash, before, now, disks, reach, done, r)
        ensures RepairAt(hash, before, now, disks, reach, done, stuck, t, r)
      {
        assert Turned(hash, before, now, disks, reach, done, stuck, t, r);
      }
      forall r | r in done ensures Reconcilable(hash, before, disks, reach, r) {
        assert Turned(hash, before, now, disks, reach, done, stuck, t, r);
      }
    }
  }

  lemma SoFarMore(hash: Hash, before: Tables, mid: Tables, now: Tables, disks: Disks, reach: ReplicaId -> Reach,
                  done: set<ReplicaId>,
                  stuck: set<ReplicaId>, t: RecoveryResult, r: ReplicaId, job: Result<Option<JobId>, VaultError>)
    requires SoFar(hash, before, mid, disks, reach, done, stuck, t) && Reconcilable(hash, before, disks, reach, r)
    requires r in before.replicas && r !in done && before.replicas[r].version in before.versions
    requires now.replicas == mid.replicas[r := Reconciled(before.replicas[r],
                                                          before.versions[before.replicas[r].version],
                                                          FindingAt(hash, before, disks, reach(r), r))]
    requires Repair.JobsKept(mid.repairs, now.repairs)
    requires Broken(hash, before, disks, reach, r) ==> ScheduledFor(before, now, r, job)
    ensures var finding := FindingAt(hash, before, disks, reach(r), r);
            SoFar(hash, before, now, disks, reach, done + {r}, Add(stuck, r, Blocked(finding, job)),
                  Tally(t, r, finding, job))
  {
    var finding := FindingAt(hash, before, disks, reach(r), r);
    SoFarMeans(hash, before, mid, disks, reach, done, stuck, t);
    ProgressMore(hash, before, mid, now, disks, reach, done, r);
    TallyMore(hash, before, disks, reach, done, stuck, t, r, job);
    AllRepairedMore(hash, before, mid, now, disks, reach, done, stuck, t, r, job);
    SoFarMeans(hash, before, now, disks, reach, done + {r}, Add(stuck, r, Blocked(finding, job)),
               Tally(t, r, finding, job));
  }

  /** The loop's turn, measured against the tables `before` it all. */
  method ReconcileNext(m: MM.MetadataManager, c: Cluster, rf: int, id: ReplicaId, reach: ReplicaId -> Reach,
                       t: RecoveryResult,
                       ghost before: Tables, ghost n: NodeId, ghost done: set<ReplicaId>, ghost stuck: set<ReplicaId>)
    returns (r: Result<RecoveryResult, VaultError>, ghost stuck': set<ReplicaId>)
    requires m.Valid() && rf >= 1 && m.db == before.(replicas := m.db.replicas, repairs := m.db.repairs)
    requires n in before.nodes && before.nodes[n].status == NodeRecovering && id in Known(before, n) && id !in done
    requires Consistent(before) && done <= Known(before, n)
    requires SoFar(c.hash, before, m.db, c.disks, reach, done, stuck, t)
    modifies m`db
    ensures m.Valid() && m.db == before.(replicas := m.db.replicas, repairs := m.db.repairs)
    ensures r.Err? ==> m.db == old(m.db)
    ensures r.Ok? <==> Reconcilable(c.hash, before, c.disks, reach, id)
    ensures r.Ok? ==> SoFar(c.hash, before, m.db, c.disks, reach, done + {id}, stuck', r.value)
  {
    assert Turned(c.hash, before, m.db, c.disks, reach, done, stuck, t, id);
    SoFarMeans(c.hash, before, m.db, c.disks, reach, done, stuck, t);
    UnrepairableSame(c.hash, before, m.db, c.disks, reach, done, n, id);
    ghost var job;
    r, job := ReconcileRow(m, c, rf, id, reach(id), t);
    stuck' := stuck;
    if r.Ok? {
      SoFarMore(c.hash, before, old(m.db), m.db, c.disks, reach, done, stuck, t, id, job);
      stuck' := Add(stuck, id, Blocked(FindingAt(c.hash, before, c.disks, reach(id), id), job));
    }
  }

  lemma NothingYet(hash: Hash, db: Tables, disks: Disks, reach: ReplicaId -> Reach)
    ensures Progressed(hash, db, db, disks, reach, {})
    ensures Tallied(hash, db, disks, reach, {}, {}, RecoveryResult(0, 0, [], [], [], [], true))
    ensures AllRepaired(hash, db, db, disks, reach, {}, {}, RecoveryResult(0, 0, [], [], [], [], true))
  {
    var none: set<ReplicaId> := {};
    forall s ensures RowAt(hash, db, db, disks, reach, none, s) {
    }
    forall s ensures Listed([], none, s) {
    }
    var t := RecoveryResult(0, 0, [], [], [], [], true);
    forall s ensures RepairAt(hash, db, db, disks, reach, none, none, t, s) {
    }
    assert PilesOf(hash, db, disks, reach, {}) == Piles({}, {}, {}, {});
    assert none + none == none;
  }

  method ReconcileRows(m: MM.MetadataManager, c: Cluster, rf: int, n: NodeId, known: set<ReplicaId>,
                       reach: ReplicaId -> Reach)
    returns (r: Result<RecoveryResult, VaultError>, ghost done: set<ReplicaId>, ghost stuck: set<ReplicaId>,
             ghost t: RecoveryResult)
    requires m.Valid() && rf >= 1
    requires n in m.db.nodes && m.db.nodes[n].status == NodeRecovering && known == Known(m.db, n)
    modifies m`db
    ensures m.Valid() && m.db == old(m.db).(replicas := m.db.replicas, repairs := m.db.repairs)
    ensures done <= known && SoFar(c.hash, old(m.db), m.db, c.disks, reach, done, stuck, t) && (r.Ok? ==> r.value == t)
    ensures if r.Ok? then done == known else exists k :: k in known && !Reconcilable(c.hash, old(m.db), c.disks, reach,
                                                                                     k)
  {
    m.Opened();
    done, stuck := {}, {};
    NothingYet(c.hash, m.db, c.disks, reach);
    SoFarMeans(c.hash, m.db, m.db, c.disks, reach, done, stuck, RecoveryResult(0, 0, [], [], [], [], true));
    var rest := known;
    var tally := RecoveryResult(0, 0, [], [], [], [], true);
    while rest != {}
      invariant m.Valid() && m.db == old(m.db).(replicas := m.db.replicas, repairs := m.db.repairs)
      invariant rest <= known && done == known - rest
      invariant SoFar(c.hash, old(m.db), m.db, c.disks, reach, done, stuck, tally)
      decreases rest
    {
      var id :| id in rest;
      ghost var stuck';
      r, stuck' := ReconcileNext(m, c, rf, id, reach, tally, old(m.db), n, done, stuck);
      if r.Err? {
        assert !Reconcilable(c.hash, old(m.db), c.disks, reach, id);
        t := tally;
        return;
      }
      tally, stuck := r.value, stuck';
      rest := rest - {id};
      assert done + {id} == known - rest;
      done := done + {id};
    }
    assert done == known;
    r, t := Ok(tally), tally;
  }

  /**
    Verify every known replica of a RECOVERING node; `reach(r)` says how the call for row r goes. On
    return each known row is reconciled with its finding and tallied; on an error the rows in `done`
    are, and no others.
   */
  method ReconcileNode(m: MM.MetadataManager, c: Cluster, rf: int, n: NodeId, reach: ReplicaId -> Reach)
    returns (r: Result<RecoveryResult, VaultError>, ghost done: set<ReplicaId>, ghost stuck: set<ReplicaId>)
    requires m.Valid() && rf >= 1
    modifies m`db
    ensures m.Valid()
    ensures m.db == old(m.db).(replicas := m.db.replicas, repairs := m.db.repairs)
    ensures done <= Known(old(m.db), n) && Progressed(c.hash, old(m.db), m.db, c.disks, reach, done)
    ensures n !in old(m.db.nodes) ==> r == Err(ObjectNotFound) && m.db == old(m.db)
    ensures n in old(m.db.nodes) && old(m.db.nodes)[n].status != NodeRecovering ==>
              r == Err(InvalidState) && m.db == old(m.db)
    ensures r.Ok? <==> n in old(m.db.nodes) && old(m.db.nodes)[n].status == NodeRecovering
                       && AllReconcilable(c.hash, old(m.db), c.disks, reach, Known(old(m.db), n))
    ensures r.Ok? ==> done == Known(old(m.db), n) && Tallied(c.hash, old(m.db), c.disks, reach, done, stuck, r.value)
                      && AllRepaired(c.hash, old(m.db), m.db, c.disks, reach, done, stuck, r.value)
    ensures Safe(c.hash, old(m.db), c.disks) ==> Safe(c.hash, m.db, c.disks)
  {
    done, stuck := {}, {};
    NothingYet(c.hash, m.db, c.disks, reach);
    if n !in m.db.nodes {
      return Err(ObjectNotFound), done, stuck;
    }
    if m.db.nodes[n].status != NodeRecovering {
      return Err(InvalidState), done, stuck;
    }
    ghost var t;
    r, done, stuck, t := ReconcileRows(m, c, rf, n, Known(m.db, n), reach);
    SoFarMeans(c.hash, old(m.db), m.db, c.disks, reach, done, stuck, t);
    ProgressedSafe(c.hash, old(m.db), m.db, c.disks, reach, done);
  }

  /**
    After a reconciliation that ends normally, a known row is HEALTHY exactly when its bytes were reached
    and are right, or its node did not answer for it and it was HEALTHY before. A row that was HEALTHY is UNAVAILABLE
    exactly when its bytes are gone, and CORRUPTED exactly when they are wrong; any other row on missing or wrong bytes
    is as it was.
   */
  lemma HealthyAfterwards(hash: Hash, before: Tables, now: Tables, disks: Disks, reach: ReplicaId -> Reach, n: NodeId,
                          r: ReplicaId)
    requires Progressed(hash, before, now, disks, reach, Known(before, n))
             && AllReconcilable(hash, before, disks, reach, Known(before, n))
    requires r in before.replicas && before.replicas[r].node == n && before.replicas[r].status != Failed
    requires before.replicas[r].version in before.versions
             && before.versions[before.replicas[r].version].state == Committed
    ensures r in now.replicas
    ensures var row := before.replicas[r];
            now.replicas[r].status == Healthy <==>
              (reach(r) == Reached && Intact(hash, disks, row.node, row.version, before.versions[row.version]))
              || (reach(r) == Unreachable && row.status == Healthy)
    ensures var row := before.replicas[r];
            reach(r) == Reached && !Intact(hash, disks, row.node, row.version, before.versions[row.version]) ==>
              now.replicas[r] == if row.status != Healthy then row
                                 else if (row.node, row.version) !in disks then row.(status := Unavailable)
                                 else row.(status := Corrupted)
    ensures reach(r) == Unreachable ==> now.replicas[r] == before.replicas[r]
  {
    assert RowAt(hash, before, now, disks, reach, Known(before, n), r);
    assert Reconcilable(hash, before, disks, reach, r);
    ReconciledHealthy(hash, before, disks, reach(r), r);
  }

  /**
    A complete reconciliation vouches for the whole node, whatever happened to its bytes while it was
    away: every HEALTHY row of a COMMITTED version on it is backed by the right bytes.
   */
  lemma CompleteIsBacked(hash: Hash, before: Tables, now: Tables, disks: Disks, reach: ReplicaId -> Reach, n: NodeId,
                         stuck: set<ReplicaId>,
                         t: RecoveryResult, r: ReplicaId)
    requires Progressed(hash, before, now, disks, reach, Known(before, n)) && now.versions == before.versions
    requires Tallied(hash, before, disks, reach, Known(before, n), stuck, t) && t.complete
    requires AllReconcilable(hash, before, disks, reach, Known(before, n))
    requires r in now.replicas && OnNode(now, n, r)
    ensures Backed(hash, now, disks, r)
  {
    if now.replicas[r].status == Healthy {
      assert RowAt(hash, before, now, disks, reach, Known(before, n), r);
      assert r in Known(before, n);
      ReconciledHealthy(hash, before, disks, reach(r), r);
      assert Listed(t.unresolved, PilesOf(hash, before, disks, reach, Known(before, n)).silent + stuck, r);
      assert Reconcilable(hash, before, disks, reach, r);
    }
  }

  /** A row of a COMMITTED version on node n. */
  predicate OnNode(db: Tables, n: NodeId, r: ReplicaId) {
    && r in db.replicas && db.replicas[r].node == n && db.replicas[r].version in db.versions
    && db.versions[db.replicas[r].version].state == Committed
  }

  /** Every HEALTHY row of a COMMITTED version on node n is on right bytes. */
  ghost predicate Vouched(hash: Hash, db: Tables, disks: Disks, n: NodeId) {
    forall r :: r in db.replicas && OnNode(db, n, r) ==> Backed(hash, db, disks, r)
  }

  /** The row stays unresolved: its node does not answer for it, or no repair of it can be scheduled. */
  ghost predicate Unsolved(hash: Hash, before: Tables, disks: Disks, reach: ReplicaId -> Reach, r: ReplicaId) {
    || reach(r) == Unreachable
    || (Broken(hash, before, disks, reach, r) && Repair.Unrepairable(before, r))
  }

  ghost predicate AllSolved(hash: Hash, before: Tables, disks: Disks, reach: ReplicaId -> Reach, rows: set<ReplicaId>) {
    forall r :: r in rows ==> !Unsolved(hash, before, disks, reach, r)
  }

  lemma SilentMeans(hash: Hash, db: Tables, disks: Disks, reach: ReplicaId -> Reach, rows: set<ReplicaId>, r: ReplicaId)
    requires r in rows ==> r in db.replicas && db.replicas[r].version in db.versions
    ensures r in Found(hash, db, disks, reach, rows, Silent) <==> r in rows && reach(r) == Unreachable
  {
  }

  lemma UnresolvedExactly(hash: Hash, before: Tables, now: Tables, disks: Disks, reach: ReplicaId -> Reach,
                          known: set<ReplicaId>, stuck: set<ReplicaId>, t: RecoveryResult, r: ReplicaId)
    requires r in known ==> r in before.replicas && before.replicas[r].version in before.versions
    requires Listed(t.unresolved, Found(hash, before, disks, reach, known, Silent) + stuck, r)
    requires RepairAt(hash, before, now, disks, reach, known, stuck, t, r)
    ensures r in t.unresolved <==> r in known && Unsolved(hash, before, disks, reach, r)
  {
    SilentMeans(hash, before, disks, reach, known, r);
  }

  /**
    A reconciliation that ends normally is complete exactly when every known row's node answered for it and, by the
    tables at the start, every missing or damaged row has a source and a node for its repair.
   */
  lemma CompleteExactly(hash: Hash, before: Tables, now: Tables, disks: Disks, reach: ReplicaId -> Reach, n: NodeId,
                        stuck: set<ReplicaId>, t: RecoveryResult)
    requires Tallied(hash, before, disks, reach, Known(before, n), stuck, t)
    requires AllRepaired(hash, before, now, disks, reach, Known(before, n), stuck, t)
    ensures t.complete <==> AllSolved(hash, before, disks, reach, Known(before, n))
  {
    var known := Known(before, n);
    forall r ensures r in t.unresolved <==> r in known && Unsolved(hash, before, disks, reach, r) {
      assert RepairAt(hash, before, now, disks, reach, known, stuck, t, r);
      assert Listed(t.unresolved, PilesOf(hash, before, disks, reach, known).silent + stuck, r);
      UnresolvedExactly(hash, before, now, disks, reach, known, stuck, t, r);
    }
    if t.unresolved != [] {
      assert t.unresolved[0] in t.unresolved;
    }
  }

  /**
    The node becomes HEALTHY exactly when its reconciliation ends with nothing unresolved, that is, when every known
    row is solved; the rows in `done` are reconciled, whatever happens.
   */
  method ReconcileAndMarkHealthy(m: MM.MetadataManager, c: Cluster, rf: int, n: NodeId, reach: ReplicaId -> Reach)
    returns (r: Result<RecoveryResult, VaultError>, ghost done: set<ReplicaId>, ghost stuck: set<ReplicaId>)
    requires m.Valid() && rf >= 1
    modifies m`db
    ensures m.Valid()
    ensures m.db == old(m.db).(nodes := m.db.nodes, replicas := m.db.replicas, repairs := m.db.repairs)
    ensures done <= Known(old(m.db), n) && Progressed(c.hash, old(m.db), m.db, c.disks, reach, done)
    ensures n !in old(m.db.nodes) ==> r == Err(ObjectNotFound) && m.db == old(m.db)
    ensures n in old(m.db.nodes) && old(m.db.nodes)[n].status != NodeRecovering ==>
              r == Err(InvalidState) && m.db == old(m.db)
    ensures r.Ok? <==> n in old(m.db.nodes) && old(m.db.nodes)[n].status == NodeRecovering
                       && AllReconcilable(c.hash, old(m.db), c.disks, reach, Known(old(m.db), n))
    ensures m.db.nodes == if r.Ok? && AllSolved(c.hash, old(m.db), c.disks, reach, Known(old(m.db), n))
                          then old(m.db.nodes)[n := old(m.db.nodes)[n].(status := NodeHealthy)] else old(m.db.nodes)
    ensures r.Ok? ==> done == Known(old(m.db), n)
                      && (r.value.complete <==> AllSolved(c.hash, old(m.db), c.disks, reach, done))
                      && Tallied(c.hash, old(m.db), c.disks, reach, done, stuck, r.value)
                      && AllRepaired(c.hash, old(m.db), m.db, c.disks, reach, done, stuck, r.value)
    ensures r.Ok? && m.db.nodes[n].status == NodeHealthy ==> Vouched(c.hash, m.db, c.disks, n)
    ensures Safe(c.hash, old(m.db), c.disks) ==> Safe(c.hash, m.db, c.disks)
  {
    r, done, stuck := ReconcileNode(m, c, rf, n, reach);
    if r.Err? {
      return;
    }
    CompleteExactly(c.hash, old(m.db), m.db, c.disks, reach, n, stuck, r.value);
    if r.value.complete {
      ghost var mid := m.db;
      CompleteIsVouched(c.hash, old(m.db), m.db, c.disks, reach, n, stuck, r.value);
      if m.db.nodes[n].status == NodeRecovering {
        var _ := m.TransitionNodeState(n, NodeHealthy);
      }
      MarkedFacts(c.hash, old(m.db), mid, m.db, c.disks, reach, n, done, stuck, r.value);
    }
  }

  lemma CompleteIsVouched(hash: Hash, before: Tables, now: Tables, disks: Disks, reach: ReplicaId -> Reach, n: NodeId,
                          stuck: set<ReplicaId>, t: RecoveryResult)
    requires Progressed(hash, before, now, disks, reach, Known(before, n)) && now.versions == before.versions
    requires Tallied(hash, before, disks, reach, Known(before, n), stuck, t) && t.complete
    requires AllReconcilable(hash, before, disks, reach, Known(before, n))
    ensures Vouched(hash, now, disks, n)
  {
    forall r | r in now.replicas && OnNode(now, n, r) ensures Backed(hash, now, disks, r) {
      CompleteIsBacked(hash, before, now, disks, reach, n, stuck, t, r);
    }
  }

  /** Marking the node changes nothing about its rows and their repairs. */
  lemma MarkedFacts(hash: Hash, before: Tables, mid: Tables, now: Tables, disks: Disks, reach: ReplicaId -> Reach,
                    n: NodeId, done: set<ReplicaId>, stuck: set<ReplicaId>, t: RecoveryResult)
    requires now == mid.(nodes := now.nodes) && Progressed(hash, before, mid, disks, reach, done)
    requires AllRepaired(hash, before, mid, disks, reach, done, stuck, t)
    requires Vouched(hash, mid, disks, n)
    ensures Progressed(hash, before, now, disks, reach, done)
    ensures AllRepaired(hash, before, now, disks, reach, done, stuck, t)
    ensures Vouched(hash, now, disks, n)
    ensures Safe(hash, mid, disks) ==> Safe(hash, now, disks)
  {
    SameRowsSafe(hash, mid, now, disks);
    forall k ensures RepairAt(hash, before, now, disks, reach, done, stuck, t, k) {
      assert RepairAt(hash, before, mid, disks, reach, done, stuck, t, k);
    }
    forall k ensures RowAt(hash, before, now, disks, reach, done, k) {
      assert RowAt(hash, before, mid, disks, reach, done, k);
    }
    forall k | k in now.replicas && OnNode(now, n, k) ensures Backed(hash, now, disks, k) {
      assert OnNode(mid, n, k);
      assert Backed(hash, mid, disks, k);
    }
  }
}
