/** Heartbeats and the failure detector. */
module Health {
  import opened Base
  import opened Tables
  import opened Metadata
  import opened Cluster
  import opened Placement
  import MM = MetadataManager
  import Repair
  import Recovery

  /** What an accepted heartbeat does to a node's state. */
  function Awake(status: NodeState): NodeState {
    match status
    case NodeJoining => NodeHealthy
    case NodeSuspect => NodeHealthy
    case NodeUnavailable => NodeRecovering
    case _ => status
  }

  /** `ingest`: a heartbeat counts only if it is strictly newer than the last one, else nothing changes. */
  method Ingest(m: MM.MetadataManager, n: NodeId, capacity: int, used: int, at: int) returns (r: Result<bool,
                                                                                              VaultError>)
    requires m.Valid()
    modifies m`db
    ensures m.Valid()
    ensures r == MM.HeartbeatVerdict(old(m.db), n, Some(capacity), Some(used), at)
    ensures r != Ok(true) ==> m.db == old(m.db)
    ensures r == Ok(true) ==>
              && n in old(m.db.nodes) && 0 <= used <= capacity
              && (old(m.db.nodes)[n].heartbeat.Some? ==> old(m.db.nodes)[n].heartbeat.value < at)
              && var node := old(m.db.nodes)[n];
                 var awake := Node(node.address, Awake(node.status), capacity, used, Some(at));
                 && m.db == old(m.db).(nodes := old(m.db.nodes)[n := awake])
                 && m.db.nodes[n].status == (if node.status in {NodeJoining, NodeSuspect} then NodeHealthy
                                             else if node.status == NodeUnavailable then NodeRecovering
                                             else node.status)
  {
    r := m.ProcessNodeHeartbeat(n, Some(capacity), Some(used), at);
    if r == Ok(true) {
      var status := m.db.nodes[n].status;
      if status == NodeJoining || status == NodeSuspect {
        var _ := m.TransitionNodeState(n, NodeHealthy);
      } else if status == NodeUnavailable {
        var _ := m.TransitionNodeState(n, NodeRecovering);
      }
    }
  }

  /** What a heartbeat is answered with. */
  datatype HeartbeatResult = HeartbeatResult(accepted: bool, node: Node)

  /** The tables once a heartbeat has been accepted. */
  function Heard(db: Tables, n: NodeId, capacity: int, used: int, at: int): Tables
    requires n in db.nodes && 0 <= used <= capacity
  {
    db.(nodes := db.nodes[n := Node(db.nodes[n].address, Awake(db.nodes[n].status), capacity, used, Some(at))])
  }

  /** A heartbeat that is accepted brings the node to RECOVERING, or leaves it there. */
  predicate Returns(db: Tables, n: NodeId, capacity: int, used: int, at: int) {
    && MM.HeartbeatVerdict(db, n, Some(capacity), Some(used), at) == Ok(true)
    && db.nodes[n].status in {NodeUnavailable, NodeRecovering}
  }

  /**
    `ingest_and_recover`: a node that is RECOVERING after its heartbeat is reconciled at once. The call ends normally
    exactly when every known row can be reconciled. Then a known row is HEALTHY exactly when its bytes were reached and
    are right, or it was HEALTHY and its node did not answer for it, and the node is HEALTHY exactly when every known
    row is solved. Whatever happens, the report of an accepted heartbeat is kept.
   */
  method IngestAndRecover(m: MM.MetadataManager, c: Cluster, rf: int, n: NodeId, capacity: int, used: int, at: int,
                          reach: ReplicaId -> Reach)
    returns (r: Result<HeartbeatResult, VaultError>, ghost done: set<ReplicaId>)
    requires m.Valid() && rf >= 1
    modifies m`db
    ensures m.Valid()
    ensures m.db == old(m.db).(nodes := m.db.nodes, replicas := m.db.replicas, repairs := m.db.repairs)
    ensures var verdict := MM.HeartbeatVerdict(old(m.db), n, Some(capacity), Some(used), at);
            && (verdict != Ok(true) ==> m.db == old(m.db))
            && (verdict.Err? ==> r == Err(verdict.error))
            && (verdict.Ok? ==> n in m.db.nodes && (r.Ok? ==> r.value == HeartbeatResult(verdict.value, m.db.nodes[n])))
            && (verdict == Ok(false) ==> r.Ok?)
            && (verdict == Ok(true) && !Returns(old(m.db), n, capacity, used, at) ==>
                  r.Ok? && m.db == Heard(old(m.db), n, capacity, used, at))
    ensures Returns(old(m.db), n, capacity, used, at) ==>
              var heard := Heard(old(m.db), n, capacity, used, at);
              var known := Recovery.Known(old(m.db), n);
              && (r.Ok? <==> Recovery.AllReconcilable(c.hash, heard, c.disks, reach, known))
              && m.db.nodes == (if r.Ok? && Recovery.AllSolved(c.hash, heard, c.disks, reach, known)
                                then heard.nodes[n := heard.nodes[n].(status := NodeHealthy)] else heard.nodes)
              && done <= known && Recovery.Progressed(c.hash, heard, m.db, c.disks, reach, done)
              && (r.Ok? ==>
                    && done == known
                    && forall k :: k in old(m.db.replicas) && Recovery.OnNode(old(m.db), n, k)
                                   && old(m.db.replicas)[k].status != Failed ==>
                         && HealthyAgain(c.hash, old(m.db), m.db, c.disks, reach, k)
                         && WorkedOn(c.hash, heard, m.db, c.disks, reach, k))
    // so a node that comes back is HEALTHY only if what it holds has been vouched for
    ensures Returns(old(m.db), n, capacity, used, at) && n in m.db.nodes && m.db.nodes[n].status == NodeHealthy ==>
              Recovery.Vouched(c.hash, m.db, c.disks, n)
    ensures Safe(c.hash, old(m.db), c.disks) ==> Safe(c.hash, m.db, c.disks)
  {
    done := {};
    var accepted := Ingest(m, n, capacity, used, at);
    if accepted.Err? {
      return Err(accepted.error), done;
    }
    SameRowsSafe(c.hash, old(m.db), m.db, c.disks);
    if !accepted.value || m.db.nodes[n].status != NodeRecovering {
      return Ok(HeartbeatResult(accepted.value, m.db.nodes[n])), done;
    }
    ghost var heard := m.db;
    var result;
    ghost var stuck;
    result, done, stuck := Recovery.ReconcileAndMarkHealthy(m, c, rf, n, reach);
    if result.Err? {
      return Err(result.error), done;
    }
    forall k | k in Recovery.Known(old(m.db), n)
      ensures HealthyAgain(c.hash, old(m.db), m.db, c.disks, reach, k)
      ensures WorkedOn(c.hash, heard, m.db, c.disks, reach, k)
    {
      Recovery.HealthyAfterwards(c.hash, heard, m.db, c.disks, reach, n, k);
      assert Recovery.RepairAt(c.hash, heard, m.db, c.disks, reach, done, stuck, result.value, k);
    }
    r := Ok(HeartbeatResult(true, m.db.nodes[n]));
  }

  /** Row k is HEALTHY exactly when its bytes are right, or it was HEALTHY and could not be reached. */
  ghost predicate HealthyAgain(hash: Hash, before: Tables, now: Tables, disks: Disks, reach: ReplicaId -> Reach,
                               k: ReplicaId) {
    && k in before.replicas && before.replicas[k].version in before.versions && k in now.replicas
    && var row := before.replicas[k];
       (now.replicas[k].status == Healthy <==>
          || (reach(k) == Reached && Intact(hash, disks, row.node, row.version, before.versions[row.version]))
          || (reach(k) == Unreachable && row.status == Healthy))
  }

  /** If row k is missing or damaged and its repair can be scheduled, a job is at work on its version. */
  ghost predicate WorkedOn(hash: Hash, heard: Tables, now: Tables, disks: Disks, reach: ReplicaId -> Reach,
                           k: ReplicaId) {
    Recovery.Broken(hash, heard, disks, reach, k) && !Repair.Unrepairable(heard, k) ==>
      exists j :: Repair.WorksOn(now.repairs, j, heard.replicas[k].version)
  }

  // ----- The failure detector

  /** `_evaluate` as far as the node's own state goes. */
  function Judge(node: Node, now: int, suspectAfter: int, unavailableAfter: int): NodeState {
    if node.heartbeat.None? || now < node.heartbeat.value then node.status
    else
      var elapsed := now - node.heartbeat.value;
      if node.status in {NodeHealthy, NodeRecovering} && elapsed >= suspectAfter then NodeSuspect
      else if node.status == NodeSuspect && elapsed >= unavailableAfter then NodeUnavailable
      else node.status
  }

  /** The scan makes the node UNAVAILABLE. */
  predicate GoesDown(node: Node, now: int, suspectAfter: int, unavailableAfter: int) {
    node.status == NodeSuspect && Judge(node, now, suspectAfter, unavailableAfter) == NodeUnavailable
  }

  /** A row that loses its HEALTHY state when its node goes down. */
  predicate Exposed(db: Tables, r: ReplicaId) {
    && r in db.replicas && db.replicas[r].status == Healthy
    && db.replicas[r].version in db.versions && db.versions[db.replicas[r].version].state == Committed
  }

  ghost predicate RowDown(before: Tables, now: Tables, done: set<ReplicaId>, r: ReplicaId) {
    && (r in now.replicas <==> r in before.replicas)
    && (r in before.replicas ==> now.replicas[r] == if r in done then before.replicas[r].(status := Unavailable)
                                                    else before.replicas[r])
  }

  /** The rows in `done` have become UNAVAILABLE, no other row has changed. */
  ghost predicate RowsDown(before: Tables, now: Tables, done: set<ReplicaId>) {
    forall r :: RowDown(before, now, done, r)
  }

  lemma RowsDownMore(before: Tables, mid: Tables, now: Tables, done: set<ReplicaId>, r: ReplicaId)
    requires RowsDown(before, mid, done) && r in mid.replicas && r !in done
    requires now.replicas == WithStatus(mid.replicas, r, Unavailable)
    ensures RowsDown(before, now, done + {r})
  {
    var done' := done + {r};
    forall s ensures RowDown(before, now, done', s) {
      assert RowDown(before, mid, done, s);
    }
  }

  lemma RowsDownSafe(hash: Hash, before: Tables, now: Tables, disks: Disks, done: set<ReplicaId>)
    requires RowsDown(before, now, done) && now.versions == before.versions
    ensures Safe(hash, before, disks) ==> Safe(hash, now, disks)
  {
    if Safe(hash, before, disks) {
      forall r ensures Backed(hash, now, disks, r) {
        assert RowDown(before, now, done, r) && Backed(hash, before, disks, r);
      }
    }
  }

  ghost predicate ServedRow(before: Tables, now: Tables, factor: int, done: set<ReplicaId>, s: ReplicaId) {
    s in done ==> s in before.replicas && Repair.Served(now, factor, before.replicas[s].version)
  }

  /** The versions of the rows that went down are served. */
  ghost predicate AllServed(before: Tables, now: Tables, factor: int, done: set<ReplicaId>) {
    forall s :: ServedRow(before, now, factor, done, s)
  }

  /** No node becomes HEALTHY, and none of the HEALTHY ones gains room. */
  ghost predicate NodesShrink(before: map<NodeId, Node>, after: map<NodeId, Node>) {
    forall n :: n in after && after[n].status == NodeHealthy ==> n in before && before[n] == after[n]
  }

  /** A version stays served while other versions lose rows, nodes go, and jobs are added. */
  lemma ServedKept(before: Tables, after: Tables, factor: int, done: set<ReplicaId>, v: VersionId)
    requires Repair.Served(before, factor, v) && RowsDown(before, after, done) && after.versions == before.versions
    requires Repair.JobsKept(before.repairs, after.repairs) && NodesShrink(before.nodes, after.nodes)
    requires forall s :: s in done && s in before.replicas ==> before.replicas[s].version != v
    ensures Repair.Served(after, factor, v)
  {
    var size := before.versions[v].size;
    forall s ensures s in HealthyRows(after.replicas, v) <==> s in HealthyRows(before.replicas, v) {
      assert RowDown(before, after, done, s);
    }
    assert HealthyRows(after.replicas, v) == HealthyRows(before.replicas, v);
    forall n | n in EligibleNodes(after, v, size, {}) ensures n in EligibleNodes(before, v, size, {}) {
      assert Eligible(after, v, size, {}, n);
      forall s | s in before.replicas ensures !IsRow(before.replicas, s, v, n) {
        assert RowDown(before, after, done, s);
        assert !IsRow(after.replicas, s, v, n);
      }
    }
    if j :| Repair.WorksOn(before.repairs, j, v) {
      assert Repair.WorksOn(after.repairs, j, v);
    }
  }

  /** More rows go down: their versions are served, and all others stay so. */
  lemma AllServedOn(before: Tables, mid: Tables, now: Tables, factor: int, done: set<ReplicaId>, more: set<ReplicaId>)
    requires RowsDown(before, mid, done) && AllServed(before, mid, factor, done)
    requires RowsDown(mid, now, more) && AllServed(mid, now, factor, more) && more <= mid.replicas.Keys
    requires now.versions == mid.versions
    requires Repair.JobsKept(mid.repairs, now.repairs) && NodesShrink(mid.nodes, now.nodes)
    ensures AllServed(before, now, factor, done + more)
  {
    var all := done + more;
    forall s ensures ServedRow(before, now, factor, all, s) {
      assert ServedRow(before, mid, factor, done, s) && RowDown(before, mid, done, s);
      if s in more {
        assert ServedRow(mid, now, factor, more, s);
      } else if s in done {
        var v := before.replicas[s].version;
        if u :| u in more && u in mid.replicas && mid.replicas[u].version == v {
          assert ServedRow(mid, now, factor, more, u);
        } else {
          ServedKept(mid, now, factor, more, v);
        }
      }
    }
  }

  lemma NoneServed(before: Tables, now: Tables, factor: int)
    ensures AllServed(before, now, factor, {})
  {
    var none: set<ReplicaId> := {};
    forall s ensures ServedRow(before, now, factor, none, s) {
    }
  }

  /**
    `_schedule_repairs_for_node`: every exposed row becomes UNAVAILABLE, and its version is served; a repair that
    cannot be scheduled is skipped.
   */
  method ScheduleRepairsForNode(m: MM.MetadataManager, factor: int, rows: set<ReplicaId>)
    returns (r: Result<seq<JobId>, VaultError>, ghost done: set<ReplicaId>)
    requires m.Valid() && forall s :: s in rows ==> Exposed(m.db, s)
    modifies m`db
    ensures m.Valid() && m.db == old(m.db).(replicas := m.db.replicas, repairs := m.db.repairs)
    ensures RowsDown(old(m.db), m.db, done) && done <= rows && (r.Ok? ==> done == rows)
    ensures Repair.JobsKept(old(m.db.repairs), m.db.repairs) && (r.Ok? ==> AllServed(old(m.db), m.db, factor, done))
    ensures r.Ok? ==> forall i :: JobAt(old(m.db), m.db, done, r.value, i)
    ensures r.Err? ==> r.error == ValueError && factor < 1
  {
    var jobs: seq<JobId> := [];
    var rest := rows;
    done := {};
    NoneDown(m.db);
    NoneServed(m.db, m.db, factor);
    while rest != {}
      invariant m.Valid() && m.db == old(m.db).(replicas := m.db.replicas, repairs := m.db.repairs)
      invariant rest <= rows && done == rows - rest
      invariant RowsDown(old(m.db), m.db, done) && AllServed(old(m.db), m.db, factor, done)
      invariant Repair.JobsKept(old(m.db.repairs), m.db.repairs)
      invariant forall i :: JobAt(old(m.db), m.db, done, jobs, i)
      invariant forall s :: s in rest ==> s in m.db.replicas && m.db.replicas[s] == old(m.db.replicas)[s]
      decreases rest
    {
      var id :| id in rest;
      ghost var mid := m.db;
      var v := m.db.replicas[id].version;
      assert Exposed(old(m.db), id);
      var _ := m.SetReplicaState(id, Unavailable);
      RowsDownMore(old(m.db), mid, m.db, done, id);
      ghost var marked := m.db;
      var job := Repair.ScheduleForVersion(m, v, factor, None);
      SameDown(old(m.db), marked, m.db, done + {id});
      rest := rest - {id};
      assert done + {id} == rows - rest;
      if job.Err? && job.error == ValueError {
        return Err(ValueError), done + {id};
      }
      OneServed(old(m.db), mid, marked, m.db, factor, done, id);
      JobsListed(old(m.db), mid, m.db, done, jobs, id, if job.Ok? then job.value else None);
      done := done + {id};
      if job.Ok? && job.value.Some? {
        jobs := jobs + [job.value.value];
      }
    }
    r := Ok(jobs);
  }

  /** Job i of the list is at work on the version of a row that went down. */
  ghost predicate JobAt(before: Tables, now: Tables, done: set<ReplicaId>, jobs: seq<JobId>, i: nat) {
    i < |jobs| ==> exists s :: s in done && s in before.replicas
                               && Repair.WorksOn(now.repairs, jobs[i], before.replicas[s].version)
  }

  lemma JobsListed(before: Tables, mid: Tables, now: Tables, done: set<ReplicaId>, jobs: seq<JobId>, id: ReplicaId,
                   job: Option<JobId>)
    requires forall i :: JobAt(before, mid, done, jobs, i)
    requires Repair.JobsKept(mid.repairs, now.repairs) && id in before.replicas
    requires job.Some? ==> Repair.WorksOn(now.repairs, job.value, before.replicas[id].version)
    ensures var jobs' := if job.Some? then jobs + [job.value] else jobs;
            forall i :: JobAt(before, now, done + {id}, jobs', i)
  {
    var jobs', done' := if job.Some? then jobs + [job.value] else jobs, done + {id};
    forall i: nat ensures JobAt(before, now, done', jobs', i) {
      if i < |jobs| {
        assert JobAt(before, mid, done, jobs, i);
        var s :| s in done && s in before.replicas && Repair.WorksOn(mid.repairs, jobs[i], before.replicas[s].version);
        assert Repair.WorksOn(now.repairs, jobs'[i], before.replicas[s].version);
      }
    }
  }

  /** One row goes down, and its version is served. */
  lemma OneServed(before: Tables, mid: Tables, marked: Tables, now: Tables, factor: int, done: set<ReplicaId>,
                  id: ReplicaId)
    requires RowsDown(before, mid, done) && AllServed(before, mid, factor, done) && id in mid.replicas
    requires marked == mid.(replicas := WithStatus(mid.replicas, id, Unavailable))
             && now == marked.(repairs := now.repairs)
    requires Repair.JobsKept(mid.repairs, now.repairs) && Repair.Served(now, factor, mid.replicas[id].version)
    ensures AllServed(before, now, factor, done + {id})
  {
    NoneDown(mid);
    RowsDownMore(mid, mid, now, {}, id);
    assert {} + {id} == {id};
    var one := {id};
    forall s ensures ServedRow(mid, now, factor, one, s) {
    }
    AllServedOn(before, mid, now, factor, done, {id});
  }

  lemma SameDown(before: Tables, mid: Tables, now: Tables, done: set<ReplicaId>)
    requires RowsDown(before, mid, done) && now.replicas == mid.replicas
    ensures RowsDown(before, now, done)
  {
    forall s ensures RowDown(before, now, done, s) {
      assert RowDown(before, mid, done, s);
    }
  }

  function ExposedOn(db: Tables, n: NodeId): set<ReplicaId> {
    set r | r in db.replicas && db.replicas[r].node == n && Exposed(db, r)
  }

  lemma NoneDown(db: Tables)
    ensures RowsDown(db, db, {})
  {
    var none: set<ReplicaId> := {};
    forall s ensures RowDown(db, db, none, s) {
    }
  }

  lemma RowsDownOn(before: Tables, mid: Tables, now: Tables, done: set<ReplicaId>, more: set<ReplicaId>)
    requires RowsDown(before, mid, done) && RowsDown(mid, now, more)
    ensures RowsDown(before, now, done + more)
  {
    var all := done + more;
    forall s ensures RowDown(before, now, all, s) {
      assert RowDown(before, mid, done, s) && RowDown(mid, now, more, s);
    }
  }

  /** Rows that fall with the nodes of `seen`. */
  function Fallen(db: Tables, seen: set<NodeId>, now: int, suspectAfter: int, unavailableAfter: int): set<ReplicaId> {
    set r | r in db.replicas && Exposed(db, r) && db.replicas[r].node in seen && db.replicas[r].node in db.nodes
            && GoesDown(db.nodes[db.replicas[r].node], now, suspectAfter, unavailableAfter)
  }

  lemma FallenAlone(db: Tables, n: NodeId, now: int, suspectAfter: int, unavailableAfter: int)
    requires n in db.nodes
    ensures Fallen(db, {n}, now, suspectAfter, unavailableAfter) ==
            if GoesDown(db.nodes[n], now, suspectAfter, unavailableAfter) then ExposedOn(db, n) else {}
  {
  }

  /** A SUSPECT node becomes UNAVAILABLE. */
  method TakeDown(m: MM.MetadataManager, factor: int, n: NodeId) returns (r: Result<Option<NodeState>, VaultError>,
                                                                          ghost done: set<ReplicaId>)
    requires m.Valid() && n in m.db.nodes && m.db.nodes[n].status == NodeSuspect
    modifies m`db
    ensures m.Valid()
    ensures m.db == old(m.db).(nodes := old(m.db.nodes)[n := old(m.db.nodes)[n].(status := NodeUnavailable)],
                               replicas := m.db.replicas, repairs := m.db.repairs)
    ensures RowsDown(old(m.db), m.db, done) && done <= ExposedOn(old(m.db), n)
    ensures r.Ok? ==> done == ExposedOn(old(m.db), n) && r.value == Some(NodeUnavailable)
    ensures Repair.JobsKept(old(m.db.repairs), m.db.repairs) && (r.Ok? ==> AllServed(old(m.db), m.db, factor, done))
    ensures r.Err? ==> r.error == ValueError && factor < 1
  {
    var _ := m.TransitionNodeState(n, NodeUnavailable);
    ghost var marked := m.db;
    var rows := ExposedOn(m.db, n);
    assert rows == ExposedOn(old(m.db), n) by {
      forall s ensures Exposed(marked, s) <==> Exposed(old(m.db), s) {
      }
    }
    var jobs;
    jobs, done := ScheduleRepairsForNode(m, factor, rows);
    forall s ensures RowDown(old(m.db), m.db, done, s) {
      assert RowDown(marked, m.db, done, s);
    }
    if jobs.Err? {
      return Err(jobs.error), done;
    }
    forall s ensures ServedRow(old(m.db), m.db, factor, done, s) {
      assert ServedRow(marked, m.db, factor, done, s);
    }
    r := Ok(Some(NodeUnavailable));
  }

  /** `_evaluate`: move one node along, and take its rows down with it when it becomes UNAVAILABLE. */
  method Evaluate(m: MM.MetadataManager, factor: int, n: NodeId, now: int, suspectAfter: int, unavailableAfter: int)
    returns (r: Result<Option<NodeState>, VaultError>, ghost done: set<ReplicaId>)
    requires m.Valid() && n in m.db.nodes && 0 < suspectAfter < unavailableAfter
    modifies m`db
    ensures m.Valid()
    ensures var judged := Judge(old(m.db.nodes)[n], now, suspectAfter, unavailableAfter);
            m.db == old(m.db).(nodes := old(m.db.nodes)[n := old(m.db.nodes)[n].(status := judged)],
                               replicas := m.db.replicas, repairs := m.db.repairs)
    ensures RowsDown(old(m.db), m.db, done) && done <= Fallen(old(m.db), {n}, now, suspectAfter, unavailableAfter)
    ensures r.Ok? ==> done == Fallen(old(m.db), {n}, now, suspectAfter, unavailableAfter)
    ensures Repair.JobsKept(old(m.db.repairs), m.db.repairs) && (r.Ok? ==> AllServed(old(m.db), m.db, factor, done))
    ensures r.Ok? ==> r.value == if m.db.nodes[n].status == old(m.db.nodes)[n].status then None
                                 else Some(m.db.nodes[n].status)
    ensures r.Err? ==> r.error == ValueError && factor < 1
  {
    NoneDown(m.db);
    FallenAlone(m.db, n, now, suspectAfter, unavailableAfter);
    done := {};
    NoneServed(m.db, m.db, factor);
    var node := m.db.nodes[n];
    assert m.db.nodes == m.db.nodes[n := node.(status := node.status)];
    r := Ok(None);
    if node.status in {NodeDraining, NodeRemoved, NodeJoining} || node.heartbeat.None? {
      return;
    }
    var elapsed := now - node.heartbeat.value;
    if elapsed < 0 {
      return;
    }
    if node.status == NodeHealthy && elapsed >= suspectAfter {
      var _ := m.TransitionNodeState(n, NodeSuspect);
      r := Ok(Some(NodeSuspect));
    } else if node.status == NodeSuspect && elapsed >= unavailableAfter {
      r, done := TakeDown(m, factor, n);
    } else if node.status == NodeRecovering && elapsed >= suspectAfter {
      var _ := m.TransitionNodeState(n, NodeSuspect);
      r := Ok(Some(NodeSuspect));
    }
    if m.db.replicas == old(m.db.replicas) {
      SameDown(old(m.db), old(m.db), m.db, {});
    }
    if done == {} {
      NoneServed(old(m.db), m.db, factor);
    }
  }

  ghost predicate NodeJudged(before: Tables, after: Tables, seen: set<NodeId>, now: int, suspectAfter: int,
                             unavailableAfter: int, n: NodeId) {
    && (n in after.nodes <==> n in before.nodes)
    && (n in before.nodes ==>
          after.nodes[n] == if n in seen then before.nodes[n].(status := Judge(before.nodes[n], now, suspectAfter,
                                                                               unavailableAfter))
                            else before.nodes[n])
  }

  /** The nodes of `seen` have been evaluated, each by its own row alone, and the rows that fall with them are down. */
  ghost predicate Judged(before: Tables, after: Tables, seen: set<NodeId>, now: int, suspectAfter: int,
                         unavailableAfter: int) {
    forall n :: NodeJudged(before, after, seen, now, suspectAfter, unavailableAfter, n)
  }

  lemma JudgedMore(before: Tables, mid: Tables, after: Tables, seen: set<NodeId>, now: int, suspectAfter: int,
                   unavailableAfter: int, n: NodeId)
    requires Judged(before, mid, seen, now, suspectAfter, unavailableAfter) && n in before.nodes && n !in seen
    requires after.nodes == mid.nodes[n := before.nodes[n].(status := Judge(before.nodes[n], now, suspectAfter,
                                                                            unavailableAfter))]
    ensures Judged(before, after, seen + {n}, now, suspectAfter, unavailableAfter)
  {
    var seen' := seen + {n};
    forall k ensures NodeJudged(before, after, seen', now, suspectAfter, unavailableAfter, k) {
      assert NodeJudged(before, mid, seen, now, suspectAfter, unavailableAfter, k);
    }
  }

  lemma FallenMore(before: Tables, mid: Tables, seen: set<NodeId>, now: int, suspectAfter: int, unavailableAfter: int,
                   n: NodeId)
    requires mid.versions == before.versions && n !in seen && n in before.nodes && n in mid.nodes
             && mid.nodes[n] == before.nodes[n]
    requires RowsDown(before, mid, Fallen(before, seen, now, suspectAfter, unavailableAfter))
    ensures Fallen(before, seen + {n}, now, suspectAfter, unavailableAfter) ==
            Fallen(before, seen, now, suspectAfter, unavailableAfter) + Fallen(mid, {n}, now, suspectAfter,
                                                                               unavailableAfter)
  {
    var done := Fallen(before, seen, now, suspectAfter, unavailableAfter);
    forall r ensures r in Fallen(mid, {n}, now, suspectAfter, unavailableAfter) <==>
        r in Fallen(before, {n}, now, suspectAfter, unavailableAfter) {
      assert RowDown(before, mid, done, r);
    }
  }

  /** Node n is on the list exactly when it moves, once and with its new state. */
  ghost predicate ListsMove(list: seq<(NodeId, NodeState)>, db: Tables, seen: set<NodeId>, now: int, suspectAfter: int,
                            unavailableAfter: int, n: NodeId) {
    var moves := n in seen && n in db.nodes
                 && Judge(db.nodes[n], now, suspectAfter, unavailableAfter) != db.nodes[n].status;
    && (forall state :: (n, state) in list <==>
          moves && state == Judge(db.nodes[n], now, suspectAfter, unavailableAfter))
    && (forall i, j :: 0 <= i < j < |list| ==> !(list[i].0 == n && list[j].0 == n))
  }

  /** The list has exactly the nodes that move, each once. */
  ghost predicate ListsMoves(list: seq<(NodeId, NodeState)>, db: Tables, seen: set<NodeId>, now: int,
                             suspectAfter: int, unavailableAfter: int) {
    forall n :: ListsMove(list, db, seen, now, suspectAfter, unavailableAfter, n)
  }

  lemma NoMoves(db: Tables, now: int, suspectAfter: int, unavailableAfter: int)
    ensures ListsMoves([], db, {}, now, suspectAfter, unavailableAfter)
  {
    var none: set<NodeId> := {};
    forall n ensures ListsMove([], db, none, now, suspectAfter, unavailableAfter, n) {
    }
  }

  lemma MovesMore(list: seq<(NodeId, NodeState)>, db: Tables, seen: set<NodeId>, now: int, suspectAfter: int,
                  unavailableAfter: int, n: NodeId)
    requires ListsMoves(list, db, seen, now, suspectAfter, unavailableAfter) && n in db.nodes && n !in seen
    ensures var judged := Judge(db.nodes[n], now, suspectAfter, unavailableAfter);
            ListsMoves(if judged == db.nodes[n].status then list else list + [(n, judged)], db, seen + {n}, now,
                       suspectAfter, unavailableAfter)
  {
    var judged := Judge(db.nodes[n], now, suspectAfter, unavailableAfter);
    var list', seen' := if judged == db.nodes[n].status then list else list + [(n, judged)], seen + {n};
    assert ListsMove(list, db, seen, now, suspectAfter, unavailableAfter, n);
    forall i | 0 <= i < |list| ensures list[i].0 != n {
      assert (list[i].0, list[i].1) in list;
    }
    forall k ensures ListsMove(list', db, seen', now, suspectAfter, unavailableAfter, k) {
      assert ListsMove(list, db, seen, now, suspectAfter, unavailableAfter, k);
    }
  }

  /**
    `scan`: every node is judged by its own row as it was before the scan, so none goes from HEALTHY to
    UNAVAILABLE in one.
   */
  method Scan(m: MM.MetadataManager, factor: int, now: int, suspectAfter: int, unavailableAfter: int)
    returns (r: Result<seq<(NodeId, NodeState)>, VaultError>, ghost seen: set<NodeId>, ghost done: set<ReplicaId>)
    requires m.Valid() && 0 < suspectAfter < unavailableAfter
    modifies m`db
    ensures m.Valid() && m.db == old(m.db).(nodes := m.db.nodes, replicas := m.db.replicas, repairs := m.db.repairs)
    ensures seen <= old(m.db.nodes).Keys && Judged(old(m.db), m.db, seen, now, suspectAfter, unavailableAfter)
    ensures RowsDown(old(m.db), m.db, done) && done <= Fallen(old(m.db), seen, now, suspectAfter, unavailableAfter)
    ensures r.Ok? ==> seen == old(m.db.nodes).Keys
                      && done == Fallen(old(m.db), seen, now, suspectAfter, unavailableAfter)
                      && AllServed(old(m.db), m.db, factor, done)
                      && ListsMoves(r.value, old(m.db), seen, now, suspectAfter, unavailableAfter)
    ensures r.Err? ==> r.error == ValueError && factor < 1
  {
    NoneDown(m.db);
    seen, done := {}, {};
    forall n ensures NodeJudged(m.db, m.db, seen, now, suspectAfter, unavailableAfter, n) {
    }
    assert Fallen(m.db, {}, now, suspectAfter, unavailableAfter) == {};
    NoneServed(m.db, m.db, factor);
    var transitions: seq<(NodeId, NodeState)> := [];
    NoMoves(m.db, now, suspectAfter, unavailableAfter);
    var rest := m.db.nodes.Keys;
    while rest != {}
      invariant m.Valid() && m.db == old(m.db).(nodes := m.db.nodes, replicas := m.db.replicas, repairs := m.db.repairs)
      invariant rest <= old(m.db.nodes).Keys && seen == old(m.db.nodes).Keys - rest
      invariant Judged(old(m.db), m.db, seen, now, suspectAfter, unavailableAfter)
      invariant done == Fallen(old(m.db), seen, now, suspectAfter, unavailableAfter) && RowsDown(old(m.db), m.db, done)
      invariant AllServed(old(m.db), m.db, factor, done)
      invariant ListsMoves(transitions, old(m.db), seen, now, suspectAfter, unavailableAfter)
      decreases rest
    {
      var n :| n in rest;
      ghost var mid := m.db;
      assert NodeJudged(old(m.db), mid, seen, now, suspectAfter, unavailableAfter, n);
      FallenMore(old(m.db), mid, seen, now, suspectAfter, unavailableAfter, n);
      var step;
      ghost var more;
      step, more := Evaluate(m, factor, n, now, suspectAfter, unavailableAfter);
      JudgedMore(old(m.db), mid, m.db, seen, now, suspectAfter, unavailableAfter, n);
      RowsDownOn(old(m.db), mid, m.db, done, more);
      rest := rest - {n};
      assert seen + {n} == old(m.db.nodes).Keys - rest;
      MovesMore(transitions, old(m.db), seen, now, suspectAfter, unavailableAfter, n);
      seen := seen + {n};
      if step.Err? {
        return Err(step.error), seen, done + more;
      }
      AllServedOn(old(m.db), mid, m.db, factor, done, more);
      done := done + more;
      if step.value.Some? {
        transitions := transitions + [(n, step.value.value)];
      }
    }
    r := Ok(transitions);
  }

  /**
    What a scan does to a node, exactly: HEALTHY or RECOVERING, it becomes SUSPECT when its last heartbeat is at least
    `suspectAfter` old; SUSPECT before the scan, it becomes UNAVAILABLE when it is at least `unavailableAfter` old, and
    then exactly its HEALTHY rows of COMMITTED versions become UNAVAILABLE; otherwise it stays as it is, with its rows.
   */
  lemma DownMeans(before: Tables, after: Tables, now: int, suspectAfter: int, unavailableAfter: int, n: NodeId)
    requires Judged(before, after, before.nodes.Keys, now, suspectAfter, unavailableAfter)
             && after.versions == before.versions
    requires RowsDown(before, after, Fallen(before, before.nodes.Keys, now, suspectAfter, unavailableAfter))
    requires n in before.nodes
    ensures n in after.nodes
    ensures var was, end := before.nodes[n].status, after.nodes[n].status;
            && (was != NodeSuspect ==>
                  (end == NodeSuspect <==>
                     was in {NodeHealthy, NodeRecovering} && Silent(before.nodes[n], now, suspectAfter)))
            && (was != NodeUnavailable ==>
                  (end == NodeUnavailable <==> was == NodeSuspect && Silent(before.nodes[n], now, unavailableAfter)))
            && (end != NodeSuspect && end != NodeUnavailable ==> end == was)
            && after.nodes[n] == before.nodes[n].(status := end)
    ensures forall r :: r in before.replicas && before.replicas[r].node == n ==>
              var row := before.replicas[r];
              && r in after.replicas
              && after.replicas[r] == if && before.nodes[n].status == NodeSuspect
                                         && after.nodes[n].status == NodeUnavailable && row.status == Healthy
                                         && row.version in before.versions
                                         && before.versions[row.version].state == Committed
                                      then row.(status := Unavailable) else row
  {
    var fallen := Fallen(before, before.nodes.Keys, now, suspectAfter, unavailableAfter);
    assert NodeJudged(before, after, before.nodes.Keys, now, suspectAfter, unavailableAfter, n);
    forall r | r in before.replicas && before.replicas[r].node == n
      ensures r in after.replicas
              && (after.replicas[r] == if r in fallen then before.replicas[r].(status := Unavailable)
                                                           else before.replicas[r])
    {
      assert RowDown(before, after, fallen, r);
    }
  }

  // ----- Recovery without reconciliation

  /**
    One evaluation and one heartbeat of a RECOVERING node. It is HEALTHY afterwards, with every row as it was and
    nothing verified, exactly when it had been silent long enough to be suspected and the heartbeat is accepted.
   */
  method SkipReconciliation(m: MM.MetadataManager, factor: int, n: NodeId, now: int, suspectAfter: int,
                            unavailableAfter: int,
                            capacity: int, used: int, at: int)
    requires m.Valid() && 0 < suspectAfter < unavailableAfter
    requires n in m.db.nodes && m.db.nodes[n].status == NodeRecovering
    modifies m`db
    ensures m.Valid() && n in m.db.nodes
    ensures m.db.nodes[n].status == NodeHealthy <==>
              && Silent(old(m.db.nodes)[n], now, suspectAfter)
              && MM.HeartbeatVerdict(old(m.db), n, Some(capacity), Some(used), at) == Ok(true)
    ensures RowsDown(old(m.db), m.db, {})
  {
    var judged, done := Evaluate(m, factor, n, now, suspectAfter, unavailableAfter);
    ghost var mid := m.db;
    assert done == {};
    var accepted := Ingest(m, n, capacity, used, at);
    SameDown(old(m.db), mid, m.db, {});
  }

  /** What a node goes through between reconciliations. */
  datatype Event = Beat(n: NodeId, capacity: int, used: int, at: int) | DetectorScan(now: int)

  /** The node has been silent for at least the given time. */
  predicate Silent(node: Node, now: int, since: int) {
    node.heartbeat.Some? && now >= node.heartbeat.value && now - node.heartbeat.value >= since
  }

  /** A heartbeat of node n that its row accepts. */
  predicate Accepts(node: Node, n: NodeId, e: Event) {
    && e.Beat? && e.n == n && 0 <= e.used <= e.capacity && node.status != NodeRemoved
    && (node.heartbeat.Some? ==> node.heartbeat.value < e.at)
  }

  /** A scan that finds the node silent for too long. */
  predicate Suspects(node: Node, e: Event, suspectAfter: int) {
    e.DetectorScan? && Silent(node, e.now, suspectAfter)
  }

  /** The row of node n after an event. */
  function After(node: Node, n: NodeId, e: Event, suspectAfter: int, unavailableAfter: int): Node {
    match e
    case Beat(_, capacity, used, at) =>
      if Accepts(node, n, e) then Node(node.address, Awake(node.status), capacity, used, Some(at)) else node
    case DetectorScan(now) => node.(status := Judge(node, now, suspectAfter, unavailableAfter))
  }

  ghost predicate IsPath(path: seq<Node>, n: NodeId, events: seq<Event>, suspectAfter: int, unavailableAfter: int) {
    && |path| == |events| + 1
    && forall i :: 0 <= i < |events| ==> path[i + 1] == After(path[i], n, events[i], suspectAfter, unavailableAfter)
  }

  /**
    Any run of heartbeats and scans: the row of node n takes exactly the path of its events, and no row is
    verified.
   */
  method Watch(m: MM.MetadataManager, factor: int, n: NodeId, events: seq<Event>, suspectAfter: int,
               unavailableAfter: int)
    returns (ghost path: seq<Node>)
    requires m.Valid() && n in m.db.nodes && factor >= 1 && 0 < suspectAfter < unavailableAfter
    modifies m`db
    ensures m.Valid() && n in m.db.nodes
    ensures IsPath(path, n, events, suspectAfter, unavailableAfter) && path[0] == old(m.db.nodes)[n]
            && path[|events|] == m.db.nodes[n]
    ensures exists done :: RowsDown(old(m.db), m.db, done)
  {
    path := [m.db.nodes[n]];
    ghost var done: set<ReplicaId> := {};
    NoneDown(m.db);
    for k := 0 to |events|
      invariant m.Valid() && n in m.db.nodes
      invariant IsPath(path, n, events[..k], suspectAfter, unavailableAfter) && path[0] == old(m.db.nodes)[n]
                && path[k] == m.db.nodes[n]
      invariant RowsDown(old(m.db), m.db, done)
    {
      ghost var before := m.db;
      match events[k] {
        case Beat(b, capacity, used, at) =>
          var _ := Ingest(m, b, capacity, used, at);
          SameDown(old(m.db), before, m.db, done);
        case DetectorScan(now) =>
          var _, seen, more := Scan(m, factor, now, suspectAfter, unavailableAfter);
          assert NodeJudged(before, m.db, seen, now, suspectAfter, unavailableAfter, n);
          RowsDownOn(old(m.db), before, m.db, done, more);
          done := done + more;
      }
      PathGrows(path, n, events, k, suspectAfter, unavailableAfter, m.db.nodes[n]);
      path := path + [m.db.nodes[n]];
    }
    assert events[..|events|] == events;
  }

  lemma PathGrows(path: seq<Node>, n: NodeId, events: seq<Event>, k: nat, suspectAfter: int, unavailableAfter: int,
                  next: Node)
    requires k < |events| && IsPath(path, n, events[..k], suspectAfter, unavailableAfter)
    requires next == After(path[k], n, events[k], suspectAfter, unavailableAfter)
    ensures IsPath(path + [next], n, events[..k + 1], suspectAfter, unavailableAfter)
  {
  }

  /** While nothing suspects it, a RECOVERING node stays RECOVERING. */
  lemma {:induction false} Unsuspected(path: seq<Node>, n: NodeId, events: seq<Event>, suspectAfter: int,
                                       unavailableAfter: int, j: nat)
    requires IsPath(path, n, events, suspectAfter, unavailableAfter) && path[0].status == NodeRecovering
             && j <= |events|
    requires forall i :: 0 <= i < j ==> !Suspects(path[i], events[i], suspectAfter)
    ensures path[j].status == NodeRecovering
  {
    if j > 0 {
      Unsuspected(path, n, events, suspectAfter, unavailableAfter, j - 1);
      assert !Suspects(path[j - 1], events[j - 1], suspectAfter);
    }
  }

  /**
    The promise that a recovered node stays RECOVERING until it is reconciled is kept exactly when no scan
    suspects it.
   */
  lemma StaysRecovering(path: seq<Node>, n: NodeId, events: seq<Event>, suspectAfter: int, unavailableAfter: int)
    requires IsPath(path, n, events, suspectAfter, unavailableAfter) && path[0].status == NodeRecovering
    ensures (forall j :: 0 <= j < |path| ==> path[j].status == NodeRecovering) <==>
            (forall i :: 0 <= i < |events| ==> !Suspects(path[i], events[i], suspectAfter))
  {
    if forall i :: 0 <= i < |events| ==> !Suspects(path[i], events[i], suspectAfter) {
      forall j | 0 <= j < |path| ensures path[j].status == NodeRecovering {
        Unsuspected(path, n, events, suspectAfter, unavailableAfter, j);
      }
    }
    if forall j :: 0 <= j < |path| ==> path[j].status == NodeRecovering {
      forall i | 0 <= i < |events| ensures !Suspects(path[i], events[i], suspectAfter) {
        assert path[i].status == NodeRecovering && path[i + 1].status == NodeRecovering;
      }
    }
  }

  /** Until it is HEALTHY, a node that was RECOVERING is RECOVERING, SUSPECT or UNAVAILABLE. */
  lemma {:induction false} OnItsWay(path: seq<Node>, n: NodeId, events: seq<Event>, suspectAfter: int,
                                    unavailableAfter: int, j: nat)
    requires IsPath(path, n, events, suspectAfter, unavailableAfter) && path[0].status == NodeRecovering
             && j <= |events|
    requires forall k :: 0 <= k < j ==> !(path[k].status == NodeSuspect && Accepts(path[k], n, events[k]))
    ensures path[j].status in {NodeRecovering, NodeSuspect, NodeUnavailable}
  {
    if j > 0 {
      OnItsWay(path, n, events, suspectAfter, unavailableAfter, j - 1);
      assert !(path[j - 1].status == NodeSuspect && Accepts(path[j - 1], n, events[j - 1]));
    }
  }

  /**
    Over any run of heartbeats and scans, a RECOVERING node becomes HEALTHY without being reconciled exactly when
    a heartbeat is accepted while it is SUSPECT; and it is SUSPECT only after a scan has found it silent too long.
   */
  lemma HealthyUnreconciled(path: seq<Node>, n: NodeId, events: seq<Event>, suspectAfter: int, unavailableAfter: int)
    requires IsPath(path, n, events, suspectAfter, unavailableAfter) && path[0].status == NodeRecovering
    ensures (exists j :: 0 <= j < |path| && path[j].status == NodeHealthy) <==>
            (exists k :: 0 <= k < |events| && path[k].status == NodeSuspect && Accepts(path[k], n, events[k]))
    ensures forall k :: 0 <= k < |path| && path[k].status == NodeSuspect ==>
              exists i :: 0 <= i < k && Suspects(path[i], events[i], suspectAfter)
  {
    if k :| 0 <= k < |events| && path[k].status == NodeSuspect && Accepts(path[k], n, events[k]) {
      assert path[k + 1].status == NodeHealthy;
    } else {
      forall j | 0 <= j < |path| ensures path[j].status != NodeHealthy {
        OnItsWay(path, n, events, suspectAfter, unavailableAfter, j);
      }
    }
    forall k | 0 <= k < |path| && path[k].status == NodeSuspect
      ensures exists i :: 0 <= i < k && Suspects(path[i], events[i], suspectAfter)
    {
      if forall i :: 0 <= i < k ==> !Suspects(path[i], events[i], suspectAfter) {
        Unsuspected(path, n, events, suspectAfter, unavailableAfter, k);
        assert false;
      }
    }
  }
}
