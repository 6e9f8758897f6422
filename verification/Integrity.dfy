/** Periodic verification of replicas that metadata calls HEALTHY. */
module Integrity {
  import opened Base
  import opened Tables
  import opened Metadata
  import opened Cluster
  import opened Placement
  import opened Jobs
  import MM = MetadataManager
  import Repair

  datatype IntegrityResult = IntegrityResult(checked: bool, corrupted: bool, repair: Option<JobId>)

  /** A replica that verification looks at: HEALTHY, of a COMMITTED version, on a HEALTHY node. */
  predicate Checkable(db: Tables, r: ReplicaId) {
    && r in db.replicas && db.replicas[r].status == Healthy
    && db.replicas[r].version in db.versions && db.versions[db.replicas[r].version].state == Committed
    && db.replicas[r].node in db.nodes && db.nodes[db.replicas[r].node].status == NodeHealthy
  }

  /** The bytes behind row r are there but are not the version's. */
  predicate Bad(hash: Hash, db: Tables, disks: Disks, r: ReplicaId)
    requires r in db.replicas && db.replicas[r].version in db.versions
  {
    var row := db.replicas[r];
    (row.node, row.version) in disks && !Intact(hash, disks, row.node, row.version, db.versions[row.version])
  }

  predicate IsBad(hash: Hash, db: Tables, disks: Disks, r: ReplicaId) {
    Checkable(db, r) && Bad(hash, db, disks, r)
  }

  /** The row's own node, or some other one, has room for a repair of it. */
  predicate HasRoom(db: Tables, r: ReplicaId)
    requires r in db.replicas && db.replicas[r].version in db.versions
  {
    var v := db.replicas[r].version;
    Repair.OwnNodeFits(db, v, Some(r)) || EligibleNodes(db, v, db.versions[v].size, {}) != {}
  }

  /** No other source for the row's version, or no room for it. */
  predicate Stranded(db: Tables, r: ReplicaId)
    requires r in db.replicas && db.replicas[r].version in db.versions
  {
    HealthyRows(db.replicas, db.replicas[r].version) - {r} == {} || !HasRoom(db, r)
  }

  /** The call for row r brings back a measurement. */
  predicate Measurable(db: Tables, disks: Disks, reach: Reach, r: ReplicaId) {
    reach == Reached && r in db.replicas && (db.replicas[r].node, db.replicas[r].version) in disks
  }

  /**
    Verify one replica. Its row becomes CORRUPTED exactly when the node answered with a measurement
    that disagrees with metadata: an unreachable node or a missing object changes nothing.
   */
  method VerifyReplica(m: MM.MetadataManager, c: Cluster, rf: int, id: ReplicaId,
                       reach: Reach) returns (r: Result<IntegrityResult, VaultError>)
    requires m.Valid() && rf >= 1
    modifies m`db
    ensures m.Valid() && m.db == old(m.db).(replicas := m.db.replicas, repairs := m.db.repairs)
    ensures Safe(c.hash, old(m.db), c.disks) ==> Safe(c.hash, m.db, c.disks)
    ensures id !in old(m.db.replicas) ==> r == Err(ObjectNotFound) && m.db == old(m.db)
    ensures id in old(m.db.replicas) && !Checkable(old(m.db), id) ==>
              r == Ok(IntegrityResult(false, false, None)) && m.db == old(m.db)
    ensures Checkable(old(m.db), id) && !Measurable(old(m.db), c.disks, reach, id) ==>
              r == Err(if reach == Dies then Aborted else ClientError) && m.db == old(m.db)
    ensures Checkable(old(m.db), id) && Measurable(old(m.db), c.disks, reach, id) ==>
              var bad := Bad(c.hash, old(m.db), c.disks, id);
              && m.db.replicas == (if bad then WithStatus(old(m.db.replicas), id, Corrupted) else old(m.db.replicas))
              && (!bad ==> r == Ok(IntegrityResult(true, false, None)) && m.db == old(m.db))
              && (r.Ok? ==> r.value.checked && r.value.corrupted == bad)
              && (r.Err? ==> bad && r.error in {NodeUnavailableError, InsufficientReplicas})
              // a corrupted row gets a repair job, exactly unless there can be none
              && (bad ==> (r.Err? <==> Stranded(old(m.db), id)))
              && (bad && r.Ok? ==>
                    && r.value.repair.Some?
                    && Repair.WorksOn(m.db.repairs, r.value.repair.value, old(m.db.replicas)[id].version))
    ensures Repair.JobsKept(old(m.db.repairs), m.db.repairs)
  {
    m.Opened();
    if id !in m.db.replicas {
      return Err(ObjectNotFound);
    }
    var row := m.db.replicas[id];
    assert ReplicaOk(m.db, id);
    var version := m.db.versions[row.version];
    assert VersionOk(m.db.objects, m.db.versions, row.version);
    if version.state != Committed {
      return Ok(IntegrityResult(false, false, None));
    }
    if m.db.nodes[row.node].status != NodeHealthy || row.status != Healthy {
      return Ok(IntegrityResult(false, false, None));
    }
    var measured := c.Verify(row.node, row.version, reach, false);
    if !measured.Measured? {
      return Err(if measured == Died then Aborted else ClientError);
    }
    var expectedChecksum := if row.checksum.Some? then row.checksum.value else version.checksum;
    var expectedSize := if row.size.Some? then row.size.value else version.size;
    if !(Agrees(measured, version) && measured.checksum == expectedChecksum && measured.size == expectedSize) {
      var _ := m.SetReplicaState(id, Corrupted);
      Repair.DemotedPool(old(m.db), m.db, id, Corrupted);
      var job := Repair.ScheduleForVersion(m, row.version, rf, Some(id));
      m.Opened();
      NotItsOwnSource(m.db, id);
      if Safe(c.hash, old(m.db), c.disks) {
        SafeRows(c.hash, old(m.db), m.db, c.disks);
      }
      if job.Err? {
        return Err(job.error);
      }
      return Ok(IntegrityResult(true, true, job.value));
    }
    var recorded := m.RecordReplicaVerification(id, measured.checksum, measured.size);
    r := Ok(IntegrityResult(true, false, None));
  }

  /** A row that is no longer HEALTHY is not the source of its own repair. */
  lemma NotItsOwnSource(db: Tables, id: ReplicaId)
    requires Consistent(db) && id in db.replicas && db.replicas[id].status != Healthy
    ensures !Repair.SelfSource(db, db.replicas[id].version, id)
  {
    forall s | s in db.replicas
      && IsRow(db.replicas, s, db.replicas[id].version, db.replicas[id].node) ensures db.replicas[s].status != Healthy {
      assert RowOk(db.replicas, s, id);
    }
  }

  // ----- Scans

  /** Rows in `done` have been checked: those whose bytes are bad are CORRUPTED now; no other row changed. */
  ghost predicate RowChecked(hash: Hash, before: Tables, now: Tables, disks: Disks, done: set<ReplicaId>,
                             r: ReplicaId) {
    && (r in now.replicas <==> r in before.replicas)
    && (r in done ==> Checkable(before, r) && (before.replicas[r].node, before.replicas[r].version) in disks)
    && (r in before.replicas ==>
          now.replicas[r] == if r in done && IsBad(hash, before, disks, r)
                             then before.replicas[r].(status := Corrupted) else before.replicas[r])
  }

  ghost predicate Checked(hash: Hash, before: Tables, now: Tables, disks: Disks, done: set<ReplicaId>) {
    forall r :: RowChecked(hash, before, now, disks, done, r)
  }

  lemma CheckedNone(hash: Hash, db: Tables, disks: Disks)
    ensures Checked(hash, db, db, disks, {})
  {
    var none: set<ReplicaId> := {};
    forall r ensures RowChecked(hash, db, db, disks, none, r) {
    }
  }

  /** Two batches of checks, one after the other. */
  lemma CheckedOn(hash: Hash, before: Tables, mid: Tables, now: Tables, disks: Disks, done: set<ReplicaId>,
                  more: set<ReplicaId>)
    requires mid == before.(replicas := mid.replicas, repairs := mid.repairs) && done !! more
    requires Checked(hash, before, mid, disks, done) && Checked(hash, mid, now, disks, more)
    ensures Checked(hash, before, now, disks, done + more)
  {
    var all := done + more;
    forall r ensures RowChecked(hash, before, now, disks, all, r) {
      assert RowChecked(hash, before, mid, disks, done, r) && RowChecked(hash, mid, now, disks, more, r);
    }
  }

  lemma CheckedOne(hash: Hash, before: Tables, now: Tables, disks: Disks, id: ReplicaId)
    requires Checkable(before, id) && (before.replicas[id].node, before.replicas[id].version) in disks
    requires now.replicas == if Bad(hash, before, disks, id) then WithStatus(before.replicas, id,
                                                                             Corrupted) else before.replicas
    ensures Checked(hash, before, now, disks, {id})
  {
    var one := {id};
    forall r ensures RowChecked(hash, before, now, disks, one, r) {
    }
  }

  /** A checked row that is HEALTHY afterwards is backed by the right bytes, whatever happened to the disks before. */
  lemma CheckedIsBacked(hash: Hash, before: Tables, now: Tables, disks: Disks, done: set<ReplicaId>, r: ReplicaId)
    requires Checked(hash, before, now, disks, done) && now.versions == before.versions && r in done
    ensures Backed(hash, now, disks, r)
    ensures r in now.replicas && (now.replicas[r].status == Healthy <==> !IsBad(hash, before, disks, r))
  {
    assert RowChecked(hash, before, now, disks, done, r);
  }

  /** Checking never makes a row HEALTHY. */
  lemma CheckedSafe(hash: Hash, before: Tables, now: Tables, disks: Disks, done: set<ReplicaId>)
    requires Checked(hash, before, now, disks, done) && now.versions == before.versions
    ensures Safe(hash, before, disks) ==> Safe(hash, now, disks)
  {
    if Safe(hash, before, disks) {
      forall r ensures Backed(hash, now, disks, r) {
        assert RowChecked(hash, before, now, disks, done, r) && Backed(hash, before, disks, r);
      }
    }
  }

  /** Of the rows that were asked about, those that were there to be checked. */
  ghost function ToCheck(db: Tables, rows: set<ReplicaId>): set<ReplicaId> {
    set r | r in rows && Checkable(db, r)
  }

  /** The bad ones among them. */
  ghost function BadRows(hash: Hash, db: Tables, disks: Disks, rows: set<ReplicaId>): set<ReplicaId> {
    set r | r in rows && IsBad(hash, db, disks, r)
  }

  function CheckedCount(results: seq<IntegrityResult>): nat {
    if results == [] then 0
    else CheckedCount(results[..|results| - 1]) + if results[|results| - 1].checked then 1 else 0
  }

  function CorruptedCount(results: seq<IntegrityResult>): nat {
    if results == [] then 0
    else CorruptedCount(results[..|results| - 1]) + if results[|results| - 1].corrupted then 1 else 0
  }

  lemma {:induction false} CountsAdd(a: seq<IntegrityResult>, b: seq<IntegrityResult>)
    ensures CheckedCount(a + b) == CheckedCount(a) + CheckedCount(b)
    ensures CorruptedCount(a + b) == CorruptedCount(a) + CorruptedCount(b)
  {
    if b == [] {
      assert a + b == a;
    } else {
      CountsAdd(a, b[..|b| - 1]);
      assert (a + b)[..|a + b| - 1] == a + b[..|b| - 1];
    }
  }

  /** Results of the checks of some rows: how many were checked, and how many were found bad. */
  ghost predicate Counted(hash: Hash, db: Tables, disks: Disks, done: set<ReplicaId>, results: seq<IntegrityResult>) {
    CheckedCount(results) == |done| && CorruptedCount(results) == |BadRows(hash, db, disks, done)|
  }

  /** Rows that have not been checked yet look as they did. */
  lemma Unmoved(hash: Hash, before: Tables, mid: Tables, disks: Disks, done: set<ReplicaId>, r: ReplicaId)
    requires mid == before.(replicas := mid.replicas, repairs := mid.repairs) && r !in done
    requires Checked(hash, before, mid, disks, done)
    ensures Checkable(mid, r) <==> Checkable(before, r)
    ensures IsBad(hash, mid, disks, r) <==> IsBad(hash, before, disks, r)
    ensures r in mid.replicas <==> r in before.replicas
  {
    assert RowChecked(hash, before, mid, disks, done, r);
  }

  lemma BadRowsOn(hash: Hash, before: Tables, mid: Tables, disks: Disks, done: set<ReplicaId>, more: set<ReplicaId>)
    requires done !! more
    requires forall r :: r in more ==> (IsBad(hash, mid, disks, r) <==> IsBad(hash, before, disks, r))
    ensures |BadRows(hash, before, disks, done + more)| == |BadRows(hash, before, disks, done)| + |BadRows(hash, mid,
                                                                                                           disks, more)|
  {
    var a, b, all := BadRows(hash, before, disks, done), BadRows(hash, mid, disks, more), BadRows(hash, before, disks,
                                                                                                  done + more);
    assert all == a + b;
    assert a !! b;
  }

  /** Two batches of results, put together. */
  lemma CountedOn(hash: Hash, before: Tables, mid: Tables, disks: Disks, done: set<ReplicaId>, more: set<ReplicaId>,
                  a: seq<IntegrityResult>, b: seq<IntegrityResult>)
    requires mid == before.(replicas := mid.replicas, repairs := mid.repairs) && done !! more
    requires Checked(hash, before, mid, disks, done)
    requires Counted(hash, before, disks, done, a) && Counted(hash, mid, disks, more, b)
    ensures Counted(hash, before, disks, done + more, a + b)
  {
    forall r | r in more ensures IsBad(hash, mid, disks, r) <==> IsBad(hash, before, disks, r) {
      Unmoved(hash, before, mid, disks, done, r);
    }
    BadRowsOn(hash, before, mid, disks, done, more);
    CountsAdd(a, b);
    assert |done + more| == |done| + |more|;
  }

  // The counts do not depend on r; they stand under the quantifier so that the state of the scan stays folded.

  /** A scan so far, as seen from row r. */
  ghost predicate ScanRow(hash: Hash, before: Tables, now: Tables, disks: Disks, done: set<ReplicaId>,
                          results: seq<IntegrityResult>, r: ReplicaId) {
    RowChecked(hash, before, now, disks, done, r) && Counted(hash, before, disks, done, results)
  }

  ghost predicate Scanned(hash: Hash, before: Tables, now: Tables, disks: Disks, done: set<ReplicaId>,
                          results: seq<IntegrityResult>) {
    forall r :: ScanRow(hash, before, now, disks, done, results, r)
  }

  lemma ScannedMeans(hash: Hash, before: Tables, now: Tables, disks: Disks, done: set<ReplicaId>,
                     results: seq<IntegrityResult>)
    ensures Scanned(hash, before, now, disks, done, results) <==>
            Checked(hash, before, now, disks, done) && Counted(hash, before, disks, done, results)
  {
    if Scanned(hash, before, now, disks, done, results) {
      assert ScanRow(hash, before, now, disks, done, results, 0);
      forall r ensures RowChecked(hash, before, now, disks, done, r) {
        assert ScanRow(hash, before, now, disks, done, results, r);
      }
    }
  }

  lemma ScannedNone(hash: Hash, db: Tables, disks: Disks)
    ensures Scanned(hash, db, db, disks, {}, [])
  {
    CheckedNone(hash, db, disks);
    assert BadRows(hash, db, disks, {}) == {};
    ScannedMeans(hash, db, db, disks, {}, []);
  }

  lemma ScannedOn(hash: Hash, before: Tables, mid: Tables, now: Tables, disks: Disks, done: set<ReplicaId>,
                  more: set<ReplicaId>,
                  a: seq<IntegrityResult>, b: seq<IntegrityResult>)
    requires mid == before.(replicas := mid.replicas, repairs := mid.repairs) && done !! more
    requires Scanned(hash, before, mid, disks, done, a) && Scanned(hash, mid, now, disks, more, b)
    ensures Scanned(hash, before, now, disks, done + more, a + b)
  {
    ScannedMeans(hash, before, mid, disks, done, a);
    ScannedMeans(hash, mid, now, disks, more, b);
    CheckedOn(hash, before, mid, now, disks, done, more);
    CountedOn(hash, before, mid, disks, done, more, a, b);
    ScannedMeans(hash, before, now, disks, done + more, a + b);
  }

  lemma ScannedSafe(hash: Hash, before: Tables, now: Tables, disks: Disks, done: set<ReplicaId>,
                    results: seq<IntegrityResult>)
    requires Scanned(hash, before, now, disks, done, results) && now.versions == before.versions
    ensures Safe(hash, before, disks) ==> Safe(hash, now, disks)
  {
    ScannedMeans(hash, before, now, disks, done, results);
    CheckedSafe(hash, before, now, disks, done);
  }

  lemma ToCheckOn(hash: Hash, before: Tables, mid: Tables, disks: Disks, done: set<ReplicaId>,
                  results: seq<IntegrityResult>, rows: set<ReplicaId>)
    requires mid == before.(replicas := mid.replicas, repairs := mid.repairs) && done !! rows
    requires Scanned(hash, before, mid, disks, done, results)
    ensures ToCheck(mid, rows) == ToCheck(before, rows)
  {
    ScannedMeans(hash, before, mid, disks, done, results);
    forall r | r in rows ensures Checkable(mid, r) <==> Checkable(before, r) {
      Unmoved(hash, before, mid, disks, done, r);
    }
  }

  // ----- When a scan gets through

  /**
    Row id does not stop a check of the given rows: its call brings back a measurement, and if that is bad, there is
    room for its repair and a HEALTHY row of its version that the check does not find bad.
   */
  ghost predicate CleanAt(hash: Hash, db: Tables, disks: Disks, reach: ReplicaId -> Reach, rows: set<ReplicaId>,
                          id: ReplicaId)
  {
    id in rows ==>
      && Measurable(db, disks, reach(id), id)
      && (IsBad(hash, db, disks, id) ==>
            HasRoom(db, id) && !(HealthyRows(db.replicas, db.replicas[id].version) <= BadRows(hash, db, disks, rows)))
  }

  ghost predicate Clean(hash: Hash, db: Tables, disks: Disks, reach: ReplicaId -> Reach, rows: set<ReplicaId>) {
    forall id :: CleanAt(hash, db, disks, reach, rows, id)
  }

  lemma CleanLess(hash: Hash, db: Tables, disks: Disks, reach: ReplicaId -> Reach, rows: set<ReplicaId>,
                  fewer: set<ReplicaId>)
    requires Clean(hash, db, disks, reach, rows) && fewer <= rows
    ensures Clean(hash, db, disks, reach, fewer)
  {
    assert BadRows(hash, db, disks, fewer) <= BadRows(hash, db, disks, rows);
    forall id ensures CleanAt(hash, db, disks, reach, fewer, id) {
      assert CleanAt(hash, db, disks, reach, rows, id);
    }
  }

  /** What a check of some rows leaves to the next one. */
  lemma AfterCheck(hash: Hash, before: Tables, mid: Tables, disks: Disks, done: set<ReplicaId>, v: VersionId)
    requires mid == before.(replicas := mid.replicas, repairs := mid.repairs)
    requires Checked(hash, before, mid, disks, done)
    ensures HealthyRows(mid.replicas, v) == HealthyRows(before.replicas, v) - BadRows(hash, before, disks, done)
  {
    forall r ensures r in HealthyRows(mid.replicas, v) <==>
        r in HealthyRows(before.replicas, v) - BadRows(hash, before, disks, done) {
      assert RowChecked(hash, before, mid, disks, done, r);
    }
  }

  /** Room does not depend on the states of rows. */
  lemma SameRoom(hash: Hash, before: Tables, mid: Tables, disks: Disks, done: set<ReplicaId>, id: ReplicaId)
    requires mid == before.(replicas := mid.replicas, repairs := mid.repairs)
    requires Checked(hash, before, mid, disks, done)
    requires id in before.replicas && id in mid.replicas && before.replicas[id].version in before.versions
             && mid.replicas[id].version in mid.versions
    ensures HasRoom(mid, id) <==> HasRoom(before, id)
  {
    var v := before.replicas[id].version;
    assert RowChecked(hash, before, mid, disks, done, id);
    forall n ensures Eligible(mid, v, before.versions[v].size, {}, n) <==>
        Eligible(before, v, before.versions[v].size, {}, n) {
      forall s ensures IsRow(mid.replicas, s, v, n) <==> IsRow(before.replicas, s, v, n) {
        assert RowChecked(hash, before, mid, disks, done, s);
      }
    }
    assert EligibleNodes(mid, v, before.versions[v].size, {}) == EligibleNodes(before, v, before.versions[v].size, {});
  }

  /** Row by row: for a row of the second batch, it does not matter whether the first one was checked with it. */
  lemma CleanRow(hash: Hash, before: Tables, mid: Tables, disks: Disks, reach: ReplicaId -> Reach,
                 done: set<ReplicaId>, more: set<ReplicaId>, id: ReplicaId)
    requires mid == before.(replicas := mid.replicas, repairs := mid.repairs) && done !! more
    requires Checked(hash, before, mid, disks, done) && id in more && Checkable(before, id)
    ensures CleanAt(hash, mid, disks, reach, more, id) <==> CleanAt(hash, before, disks, reach, done + more, id)
  {
    Unmoved(hash, before, mid, disks, done, id);
    assert RowChecked(hash, before, mid, disks, done, id);
    SameRoom(hash, before, mid, disks, done, id);
    var v := before.replicas[id].version;
    AfterCheck(hash, before, mid, disks, done, v);
    forall r | r in more ensures IsBad(hash, mid, disks, r) <==> IsBad(hash, before, disks, r) {
      Unmoved(hash, before, mid, disks, done, r);
    }
    var a, b := BadRows(hash, before, disks, done), BadRows(hash, mid, disks, more);
    assert BadRows(hash, before, disks, done + more) == a + b;
    var healthy := HealthyRows(before.replicas, v);
    assert healthy - a <= b <==> healthy <= a + b;
  }

  /** A row of the first batch stays clean if the second one is. */
  lemma CleanStill(hash: Hash, before: Tables, disks: Disks, reach: ReplicaId -> Reach, done: set<ReplicaId>,
                   more: set<ReplicaId>, id: ReplicaId)
    requires CleanAt(hash, before, disks, reach, done, id) && id in done
    requires forall r :: r in more ==> CleanAt(hash, before, disks, reach, done + more, r)
    ensures CleanAt(hash, before, disks, reach, done + more, id)
  {
    if IsBad(hash, before, disks, id) {
      var v := before.replicas[id].version;
      var healthy, a, all := HealthyRows(before.replicas, v), BadRows(hash, before, disks, done),
          BadRows(hash, before, disks, done + more);
      if r :| r in more && IsBad(hash, before, disks, r) && before.replicas[r].version == v {
        assert CleanAt(hash, before, disks, reach, done + more, r);
      } else {
        var h :| h in healthy && h !in a;
        assert h !in all;
      }
    }
  }

  /** Two batches are clean together exactly when each is in its turn. */
  lemma CleanOn(hash: Hash, before: Tables, mid: Tables, disks: Disks, reach: ReplicaId -> Reach,
                done: set<ReplicaId>, results: seq<IntegrityResult>, more: set<ReplicaId>)
    requires mid == before.(replicas := mid.replicas, repairs := mid.repairs) && done !! more
    requires Scanned(hash, before, mid, disks, done, results) && Clean(hash, before, disks, reach, done)
    requires forall r :: r in more ==> Checkable(before, r)
    ensures Clean(hash, mid, disks, reach, more) <==> Clean(hash, before, disks, reach, done + more)
  {
    ScannedMeans(hash, before, mid, disks, done, results);
    var all := done + more;
    forall id | id in more
      ensures CleanAt(hash, mid, disks, reach, more, id) <==> CleanAt(hash, before, disks, reach, all, id)
    {
      CleanRow(hash, before, mid, disks, reach, done, more, id);
    }
    if Clean(hash, mid, disks, reach, more) {
      forall id ensures CleanAt(hash, before, disks, reach, all, id) {
        assert CleanAt(hash, mid, disks, reach, more, id) && CleanAt(hash, before, disks, reach, done, id);
        if id in done {
          forall r | r in more ensures CleanAt(hash, before, disks, reach, all, r) {
            assert CleanAt(hash, mid, disks, reach, more, r);
          }
          CleanStill(hash, before, disks, reach, done, more, id);
        }
      }
    }
    if Clean(hash, before, disks, reach, all) {
      forall id ensures CleanAt(hash, mid, disks, reach, more, id) {
        assert CleanAt(hash, before, disks, reach, all, id);
      }
    }
  }

  /** The check of one row ends normally. */
  predicate Passes(hash: Hash, db: Tables, disks: Disks, reach: Reach, id: ReplicaId) {
    Checkable(db, id) ==>
      Measurable(db, disks, reach, id) && (Bad(hash, db, disks, id) ==> !Stranded(db, id))
  }

  lemma CleanAlone(hash: Hash, db: Tables, disks: Disks, reach: ReplicaId -> Reach, id: ReplicaId)
    ensures Clean(hash, db, disks, reach, ToCheck(db, {id})) <==> Passes(hash, db, disks, reach(id), id)
  {
    var one := ToCheck(db, {id});
    assert CleanAt(hash, db, disks, reach, one, id) ==> Clean(hash, db, disks, reach, one) by {
      forall r | r != id ensures CleanAt(hash, db, disks, reach, one, r) {
      }
    }
    if Checkable(db, id) {
      assert one == {id};
      var healthy := HealthyRows(db.replicas, db.replicas[id].version);
      assert BadRows(hash, db, disks, one) == if Bad(hash, db, disks, id) then {id} else {};
      assert healthy - {id} == {} <==> healthy <= {id};
    }
  }

  lemma NothingIsClean(hash: Hash, db: Tables, disks: Disks, reach: ReplicaId -> Reach)
    ensures Clean(hash, db, disks, reach, {})
  {
    var none: set<ReplicaId> := {};
    forall id ensures CleanAt(hash, db, disks, reach, none, id) {
    }
  }

  /** Why a scan stops at row id: its call never returns, or it is unreachable, missing or bad. */
  ghost predicate Trouble(hash: Hash, db: Tables, disks: Disks, reach: Reach, id: ReplicaId, died: bool) {
    && Checkable(db, id)
    && (if died then reach == Dies
        else
          || reach == Unreachable
          || (reach == Reached
              && ((db.replicas[id].node, db.replicas[id].version) !in disks || Bad(hash, db, disks, id))))
  }

  ghost predicate Blamed(hash: Hash, db: Tables, disks: Disks, reach: ReplicaId -> Reach, rows: set<ReplicaId>,
                         died: bool)
  {
    exists id :: id in rows && Trouble(hash, db, disks, reach(id), id, died)
  }

  /** The calls for the rows brought back a measurement. */
  ghost predicate AllMeasured(db: Tables, disks: Disks, reach: ReplicaId -> Reach, rows: set<ReplicaId>) {
    forall id :: MeasuredAt(db, disks, reach, rows, id)
  }

  ghost predicate MeasuredAt(db: Tables, disks: Disks, reach: ReplicaId -> Reach, rows: set<ReplicaId>, id: ReplicaId) {
    id in rows ==> Measurable(db, disks, reach(id), id)
  }

  /** More rows are measured. */
  lemma MeasuredMore(hash: Hash, before: Tables, mid: Tables, disks: Disks, done: set<ReplicaId>,
                     results: seq<IntegrityResult>, reach: ReplicaId -> Reach, more: set<ReplicaId>)
    requires Scanned(hash, before, mid, disks, done, results)
    requires AllMeasured(before, disks, reach, done) && AllMeasured(mid, disks, reach, more)
    ensures AllMeasured(before, disks, reach, done + more)
  {
    var all := done + more;
    forall id ensures MeasuredAt(before, disks, reach, all, id) {
      assert MeasuredAt(before, disks, reach, done, id) && MeasuredAt(mid, disks, reach, more, id);
      assert ScanRow(hash, before, mid, disks, done, results, id);
    }
  }

  lemma TroubleSame(hash: Hash, before: Tables, mid: Tables, disks: Disks, done: set<ReplicaId>,
                    results: seq<IntegrityResult>, reach: Reach, id: ReplicaId, died: bool)
    requires mid == before.(replicas := mid.replicas, repairs := mid.repairs) && id !in done
    requires Scanned(hash, before, mid, disks, done, results)
    ensures Trouble(hash, mid, disks, reach, id, died) <==> Trouble(hash, before, disks, reach, id, died)
  {
    assert ScanRow(hash, before, mid, disks, done, results, id);
  }

  lemma BlamedSame(hash: Hash, before: Tables, mid: Tables, disks: Disks, done: set<ReplicaId>,
                   results: seq<IntegrityResult>, reach: ReplicaId -> Reach, rows: set<ReplicaId>, died: bool)
    requires mid == before.(replicas := mid.replicas, repairs := mid.repairs) && done !! rows
    requires Scanned(hash, before, mid, disks, done, results) && Blamed(hash, mid, disks, reach, rows, died)
    ensures Blamed(hash, before, disks, reach, rows, died)
  {
    var id :| id in rows && Trouble(hash, mid, disks, reach(id), id, died);
    TroubleSame(hash, before, mid, disks, done, results, reach(id), id, died);
  }

  /** One row of a scan. */
  method CheckNext(m: MM.MetadataManager, c: Cluster, rf: int, id: ReplicaId, reach: Reach)
    returns (r: Result<IntegrityResult, VaultError>, ghost done: set<ReplicaId>, ghost results: seq<IntegrityResult>)
    requires m.Valid() && rf >= 1 && id in m.db.replicas
    modifies m`db
    ensures m.Valid() && m.db == old(m.db).(replicas := m.db.replicas, repairs := m.db.repairs)
    ensures done <= ToCheck(old(m.db), {id}) && Scanned(c.hash, old(m.db), m.db, c.disks, done, results)
    ensures r.Ok? ==> done == ToCheck(old(m.db), {id}) && results == [r.value]
    ensures r.Err? ==> Trouble(c.hash, old(m.db), c.disks, reach, id, r.error == Aborted)
    ensures done == {} || (done == {id} && Measurable(old(m.db), c.disks, reach, id))
    ensures r.Ok? <==> Passes(c.hash, old(m.db), c.disks, reach, id)
  {
    done := {};
    r := VerifyReplica(m, c, rf, id, reach);
    ghost var bad := IsBad(c.hash, old(m.db), c.disks, id);
    results := if r.Ok? then [r.value] else [];
    if Checkable(old(m.db), id) && Measurable(old(m.db), c.disks, reach, id) {
      done := {id};
      results := if r.Ok? then results else [IntegrityResult(true, true, None)];
      CheckedOne(c.hash, old(m.db), m.db, c.disks, id);
      assert BadRows(c.hash, old(m.db), c.disks, done) == if bad then {id} else {};
    } else {
      CheckedNone(c.hash, m.db, c.disks);
      assert BadRows(c.hash, old(m.db), c.disks, done) == {};
    }
    assert results != [] ==> results[..|results| - 1] == [];
    assert CheckedCount([]) == 0 && CorruptedCount([]) == 0;
    assert Checked(c.hash, old(m.db), m.db, c.disks, done);
    assert |BadRows(c.hash, old(m.db), c.disks, done)| == CorruptedCount(results);
    assert |done| == CheckedCount(results);
    ScannedMeans(c.hash, old(m.db), m.db, c.disks, done, results);
  }

  /** The next row passes exactly when it is clean together with those before it, as it is if all are. */
  lemma NextIsClean(hash: Hash, before: Tables, mid: Tables, disks: Disks, reach: ReplicaId -> Reach,
                    rows: set<ReplicaId>, rest: set<ReplicaId>, done: set<ReplicaId>, results: seq<IntegrityResult>,
                    id: ReplicaId)
    requires mid == before.(replicas := mid.replicas, repairs := mid.repairs)
    requires rest <= rows && id in rest && done == ToCheck(before, rows - rest)
    requires Scanned(hash, before, mid, disks, done, results) && Clean(hash, before, disks, reach, done)
    ensures Passes(hash, mid, disks, reach(id), id) <==>
            Clean(hash, before, disks, reach, ToCheck(before, rows - (rest - {id})))
    ensures Clean(hash, before, disks, reach, ToCheck(before, rows)) ==> Passes(hash, mid, disks, reach(id), id)
  {
    ScannedMeans(hash, before, mid, disks, done, results);
    Unmoved(hash, before, mid, disks, done, id);
    var one := ToCheck(mid, {id});
    CleanAlone(hash, mid, disks, reach, id);
    CleanOn(hash, before, mid, disks, reach, done, results, one);
    assert done + one == ToCheck(before, rows - (rest - {id}));
    if Clean(hash, before, disks, reach, ToCheck(before, rows)) {
      CleanLess(hash, before, disks, reach, ToCheck(before, rows), done + one);
    }
  }

  /** `verify_replica` on each of some rows; on an error, the rows in `done` have been checked. */
  method CheckRows(m: MM.MetadataManager, c: Cluster, rf: int, rows: set<ReplicaId>, reach: ReplicaId -> Reach)
    returns (r: Result<seq<IntegrityResult>, VaultError>, ghost done: set<ReplicaId>,
             ghost results: seq<IntegrityResult>)
    requires m.Valid() && rf >= 1 && rows <= m.db.replicas.Keys
    modifies m`db
    ensures m.Valid() && m.db == old(m.db).(replicas := m.db.replicas, repairs := m.db.repairs)
    ensures done <= ToCheck(old(m.db), rows) && Scanned(c.hash, old(m.db), m.db, c.disks, done, results)
    ensures r.Ok? ==> done == ToCheck(old(m.db), rows) && r.value == results
    ensures r.Err? ==> Blamed(c.hash, old(m.db), c.disks, reach, ToCheck(old(m.db), rows), r.error == Aborted)
    ensures AllMeasured(old(m.db), c.disks, reach, done)
    ensures r.Ok? <==> Clean(c.hash, old(m.db), c.disks, reach, ToCheck(old(m.db), rows))
  {
    ScannedNone(c.hash, m.db, c.disks);
    NothingIsClean(c.hash, m.db, c.disks, reach);
    done, results := {}, [];
    var list: seq<IntegrityResult> := [];
    var rest := rows;
    while rest != {}
      invariant m.Valid() && m.db == old(m.db).(replicas := m.db.replicas, repairs := m.db.repairs)
      invariant rest <= rows && done == ToCheck(old(m.db), rows - rest)
      invariant Scanned(c.hash, old(m.db), m.db, c.disks, done, list) && results == list
      invariant AllMeasured(old(m.db), c.disks, reach, done) && Clean(c.hash, old(m.db), c.disks, reach, done)
      decreases rest
    {
      var id :| id in rest;
      ghost var mid := m.db;
      NextIsClean(c.hash, old(m.db), mid, c.disks, reach, rows, rest, done, list, id);
      ToCheckOn(c.hash, old(m.db), mid, c.disks, done, results, {id});
      assert ScanRow(c.hash, old(m.db), m.db, c.disks, done, results, id);
      var next;
      ghost var more, result;
      next, more, result := CheckNext(m, c, rf, id, reach(id));
      MeasuredMore(c.hash, old(m.db), mid, c.disks, done, list, reach, more);
      ScannedOn(c.hash, old(m.db), mid, m.db, c.disks, done, more, results, result);
      results := results + result;
      rest := rest - {id};
      assert more <= ToCheck(old(m.db), rows - rest);
      if next.Err? {
        TroubleSame(c.hash, old(m.db), mid, c.disks, done, list, reach(id), id, next.error == Aborted);
        assert id in ToCheck(old(m.db), rows);
        return Err(next.error), done + more, results;
      }
      list := list + [next.value];
      assert done + more == ToCheck(old(m.db), rows - rest);
      done := done + more;
    }
    assert rows - rest == rows;
    r := Ok(list);
  }

  // ----- Jobs

  /** The job is about a node or a version that does not exist. */
  predicate Unknown(db: Tables, node: Option<NodeId>, version: Option<VersionId>) {
    if node.Some? then node.value !in db.nodes else version.Some? && version.value !in db.versions
  }

  /** The rows an integrity job is about. */
  function Scope(db: Tables, node: Option<NodeId>, version: Option<VersionId>): set<ReplicaId> {
    set r | r in db.replicas && Checkable(db, r) &&
            if node.Some? then db.replicas[r].node == node.value
            else version.Some? ==> db.replicas[r].version == version.value
  }

  /** `scan_node`: the rows of a HEALTHY node. */
  method ScanNode(m: MM.MetadataManager, c: Cluster, rf: int, n: NodeId, reach: ReplicaId -> Reach)
    returns (r: Result<seq<IntegrityResult>, VaultError>, ghost done: set<ReplicaId>,
             ghost results: seq<IntegrityResult>)
    requires m.Valid() && rf >= 1
    modifies m`db
    ensures m.Valid() && m.db == old(m.db).(replicas := m.db.replicas, repairs := m.db.repairs)
    ensures done <= Scope(old(m.db), Some(n), None) && Scanned(c.hash, old(m.db), m.db, c.disks, done, results)
    ensures r.Ok? ==> done == Scope(old(m.db), Some(n), None) && r.value == results
    ensures r.Err? ==>
              || (n !in old(m.db.nodes) && r.error != Aborted)
              || Blamed(c.hash, old(m.db), c.disks, reach, Scope(old(m.db), Some(n), None), r.error == Aborted)
    ensures AllMeasured(old(m.db), c.disks, reach, done)
    ensures r.Ok? <==>
              n in old(m.db.nodes) && Clean(c.hash, old(m.db), c.disks, reach, Scope(old(m.db), Some(n), None))
  {
    ScannedNone(c.hash, m.db, c.disks);
    if n !in m.db.nodes {
      return Err(ObjectNotFound), {}, [];
    }
    if m.db.nodes[n].status != NodeHealthy {
      NothingIsClean(c.hash, m.db, c.disks, reach);
      assert Scope(m.db, Some(n), None) == {};
      return Ok([]), {}, [];
    }
    var rows := set id | id in m.db.replicas && m.db.replicas[id].node == n && m.db.replicas[id].status == Healthy
                         && m.db.replicas[id].version in m.db.versions
                            && m.db.versions[m.db.replicas[id].version].state == Committed;
    assert ToCheck(m.db, rows) == Scope(m.db, Some(n), None);
    r, done, results := CheckRows(m, c, rf, rows, reach);
  }

  /** `scan_version`: the HEALTHY rows of a COMMITTED version; those on nodes that are not HEALTHY are passed over. */
  method ScanVersion(m: MM.MetadataManager, c: Cluster, rf: int, v: VersionId, reach: ReplicaId -> Reach)
    returns (r: Result<seq<IntegrityResult>, VaultError>, ghost done: set<ReplicaId>,
             ghost results: seq<IntegrityResult>)
    requires m.Valid() && rf >= 1
    modifies m`db
    ensures m.Valid() && m.db == old(m.db).(replicas := m.db.replicas, repairs := m.db.repairs)
    ensures done <= Scope(old(m.db), None, Some(v)) && Scanned(c.hash, old(m.db), m.db, c.disks, done, results)
    ensures r.Ok? ==> done == Scope(old(m.db), None, Some(v)) && r.value == results
    ensures r.Err? ==>
              || (v !in old(m.db.versions) && r.error != Aborted)
              || Blamed(c.hash, old(m.db), c.disks, reach, Scope(old(m.db), None, Some(v)), r.error == Aborted)
    ensures AllMeasured(old(m.db), c.disks, reach, done)
    ensures r.Ok? <==>
              v in old(m.db.versions) && Clean(c.hash, old(m.db), c.disks, reach, Scope(old(m.db), None, Some(v)))
  {
    ScannedNone(c.hash, m.db, c.disks);
    if v !in m.db.versions {
      return Err(ObjectNotFound), {}, [];
    }
    if m.db.versions[v].state != Committed {
      NothingIsClean(c.hash, m.db, c.disks, reach);
      assert Scope(m.db, None, Some(v)) == {};
      return Ok([]), {}, [];
    }
    var rows := set id | id in m.db.replicas && m.db.replicas[id].version == v && m.db.replicas[id].status == Healthy;
    assert ToCheck(m.db, rows) == Scope(m.db, None, Some(v));
    r, done, results := CheckRows(m, c, rf, rows, reach);
  }

  /** The rows on some nodes. */
  ghost function ScopeOn(db: Tables, nodes: set<NodeId>): set<ReplicaId> {
    set r | r in db.replicas && Checkable(db, r) && db.replicas[r].node in nodes
  }

  lemma ScopeOnMore(db: Tables, nodes: set<NodeId>, n: NodeId)
    requires n !in nodes
    ensures ScopeOn(db, nodes) !! Scope(db, Some(n), None)
    ensures ScopeOn(db, nodes + {n}) == ScopeOn(db, nodes) + Scope(db, Some(n), None)
  {
  }

  lemma ScopeUnmoved(hash: Hash, before: Tables, mid: Tables, disks: Disks, done: set<ReplicaId>,
                     results: seq<IntegrityResult>, n: NodeId)
    requires mid == before.(replicas := mid.replicas, repairs := mid.repairs)
    requires Scanned(hash, before, mid, disks, done, results)
    requires done !! Scope(before, Some(n), None) && forall r :: r in done ==>
               r in before.replicas && before.replicas[r].node != n
    ensures Scope(mid, Some(n), None) == Scope(before, Some(n), None)
  {
    forall r ensures r in Scope(mid, Some(n), None) <==> r in Scope(before, Some(n), None) {
      assert ScanRow(hash, before, mid, disks, done, results, r);
    }
  }

  /** The next node's rows are clean in their turn exactly when they are with those before, as they are if all are. */
  lemma NodeIsClean(hash: Hash, before: Tables, mid: Tables, disks: Disks, reach: ReplicaId -> Reach,
                    seen: set<NodeId>, done: set<ReplicaId>, results: seq<IntegrityResult>, n: NodeId)
    requires mid == before.(replicas := mid.replicas, repairs := mid.repairs) && n !in seen
    requires done == ScopeOn(before, seen) && Scope(mid, Some(n), None) == Scope(before, Some(n), None)
    requires Scanned(hash, before, mid, disks, done, results) && Clean(hash, before, disks, reach, done)
    ensures Clean(hash, mid, disks, reach, Scope(mid, Some(n), None)) <==>
            Clean(hash, before, disks, reach, ScopeOn(before, seen + {n}))
    ensures Clean(hash, before, disks, reach, Scope(before, None, None)) ==>
              Clean(hash, mid, disks, reach, Scope(mid, Some(n), None))
  {
    ScopeOnMore(before, seen, n);
    CleanOn(hash, before, mid, disks, reach, done, results, Scope(before, Some(n), None));
    if Clean(hash, before, disks, reach, Scope(before, None, None)) {
      CleanLess(hash, before, disks, reach, Scope(before, None, None), ScopeOn(before, seen + {n}));
    }
  }

  /** Every HEALTHY node in turn. */
  method ScanAll(m: MM.MetadataManager, c: Cluster, rf: int, reach: ReplicaId -> Reach)
    returns (r: Result<seq<IntegrityResult>, VaultError>, ghost done: set<ReplicaId>,
             ghost results: seq<IntegrityResult>)
    requires m.Valid() && rf >= 1
    modifies m`db
    ensures m.Valid() && m.db == old(m.db).(replicas := m.db.replicas, repairs := m.db.repairs)
    ensures done <= Scope(old(m.db), None, None) && Scanned(c.hash, old(m.db), m.db, c.disks, done, results)
    ensures r.Ok? ==> done == Scope(old(m.db), None, None) && r.value == results
    ensures r.Err? ==> Blamed(c.hash, old(m.db), c.disks, reach, Scope(old(m.db), None, None), r.error == Aborted)
    ensures AllMeasured(old(m.db), c.disks, reach, done)
    ensures r.Ok? <==> Clean(c.hash, old(m.db), c.disks, reach, Scope(old(m.db), None, None))
  {
    ScannedNone(c.hash, m.db, c.disks);
    var list: seq<IntegrityResult> := [];
    var rest := set n | n in m.db.nodes && m.db.nodes[n].status == NodeHealthy;
    ghost var seen: set<NodeId> := {};
    done, results := {}, [];
    assert ScopeOn(m.db, seen) == {};
    NothingIsClean(c.hash, m.db, c.disks, reach);
    while rest != {}
      invariant m.Valid() && m.db == old(m.db).(replicas := m.db.replicas, repairs := m.db.repairs)
      invariant seen !! rest && rest <= m.db.nodes.Keys
      invariant forall n :: n in m.db.nodes && m.db.nodes[n].status == NodeHealthy ==> n in seen || n in rest
      invariant done == ScopeOn(old(m.db), seen)
      invariant Scanned(c.hash, old(m.db), m.db, c.disks, done, list) && results == list
      invariant AllMeasured(old(m.db), c.disks, reach, done) && Clean(c.hash, old(m.db), c.disks, reach, done)
      decreases rest
    {
      var n :| n in rest;
      ghost var mid := m.db;
      ScopeOnMore(old(m.db), seen, n);
      ScopeUnmoved(c.hash, old(m.db), mid, c.disks, done, results, n);
      NodeIsClean(c.hash, old(m.db), mid, c.disks, reach, seen, done, list, n);
      var part;
      ghost var more, result;
      part, more, result := ScanNode(m, c, rf, n, reach);
      MeasuredMore(c.hash, old(m.db), mid, c.disks, done, list, reach, more);
      ScannedOn(c.hash, old(m.db), mid, m.db, c.disks, done, more, results, result);
      if part.Err? {
        BlamedSame(c.hash, old(m.db), mid, c.disks, done, list, reach, Scope(mid, Some(n), None),
                   part.error == Aborted);
        assert Scope(mid, Some(n), None) <= Scope(old(m.db), None, None);
        return Err(part.error), done + more, results + result;
      }
      list, results := list + part.value, results + result;
      done, seen, rest := done + more, seen + {n}, rest - {n};
    }
    assert done == Scope(old(m.db), None, None);
    r := Ok(list);
  }

  method CreateJob(m: MM.MetadataManager, node: Option<NodeId>, version: Option<VersionId>) returns (r: Result<JobId,
                                                                                                     VaultError>)
    requires m.Valid()
    modifies m`db
    ensures m.Valid()
    ensures r.Err? <==> (node.Some? && node.value !in old(m.db.nodes)) || (version.Some?
                                                                           && version.value !in old(m.db.versions))
    ensures r.Err? ==> r.error == ObjectNotFound && m.db == old(m.db)
    ensures r.Ok? ==>
              && r.value !in old(m.db.checks)
              && m.db == old(m.db).(checks := old(m.db.checks)[r.value := Check(node, version, Progress(JobPending, 0),
                                                                                0, 0)])
  {
    if (node.Some? && node.value !in m.db.nodes) || (version.Some? && version.value !in m.db.versions) {
      return Err(ObjectNotFound);
    }
    var id := FreshId(m.db.checks.Keys);
    m.PutCheck(id, Check(node, version, Progress(JobPending, 0), 0, 0));
    r := Ok(id);
  }

  /**
    One run of an integrity job; `reach(r)` says how the call for row r goes. The rows in `done` have
    been checked, and on success they are all the rows the job is about: how many there were and how
    many were bad is on the job.
   */
  method RunJob(m: MM.MetadataManager, c: Cluster, rf: int, maxAttempts: nat, id: JobId, reach: ReplicaId -> Reach)
    returns (r: Result<JobStatus, VaultError>, outcome: Outcome, ghost done: set<ReplicaId>)
    requires m.Valid() && rf >= 1 && maxAttempts >= 1
    modifies m`db
    ensures m.Valid()
    ensures m.db == old(m.db).(replicas := m.db.replicas, repairs := m.db.repairs, checks := m.db.checks)
    ensures Checked(c.hash, old(m.db), m.db, c.disks, done)
    ensures Safe(c.hash, old(m.db), c.disks) ==> Safe(c.hash, m.db, c.disks)
    ensures id !in old(m.db.checks) ==> r == Err(ObjectNotFound) && m.db == old(m.db)
    ensures id in old(m.db.checks) ==>
              var job := old(m.db.checks)[id];
              var scope := Scope(old(m.db), job.node, job.version);
              && RunStep(job.progress, After(job.progress, maxAttempts, outcome), maxAttempts, outcome)
              && (outcome == Untouched <==>
                    || job.progress.status == JobSucceeded
                    || (job.progress.status == JobFailed && job.progress.attempts >= maxAttempts))
              && outcome != Rejected
              && (outcome == Untouched ==> m.db == old(m.db))
              && id in m.db.checks
              // an attempt counts one; a handled error leaves the job PENDING exactly while attempts are left
              && (outcome in {Succeeded, Errored, Outcome.Crashed} ==>
                    m.db.checks[id].progress.attempts == job.progress.attempts + 1)
              && (outcome == Errored ==>
                    m.db.checks[id].progress.status ==
                    if m.db.checks[id].progress.attempts < maxAttempts then JobPending else JobFailed)
              && (outcome == Succeeded ==> m.db.checks[id].progress.status == JobSucceeded)
              && (outcome == Outcome.Crashed ==> m.db.checks[id].progress.status == JobRunning)
              // a crash takes a call of the scan that never returns, a handled error one that fails or finds bad bytes
              && (outcome == Outcome.Crashed ==> Blamed(c.hash, old(m.db), c.disks, reach, scope, true))
              && (outcome == Errored ==>
                    Unknown(old(m.db), job.node, job.version)
                      || Blamed(c.hash, old(m.db), c.disks, reach, scope, false))
              && (r.Ok? <==> outcome in {Untouched, Succeeded})
              && done <= scope && AllMeasured(old(m.db), c.disks, reach, done)
              && (outcome == Succeeded ==> done == scope)
              && (outcome == Succeeded <==>
                    && !Finished(job.progress, maxAttempts) && !Unknown(old(m.db), job.node, job.version)
                    && Clean(c.hash, old(m.db), c.disks, reach, scope))
              && var checked := if outcome == Succeeded then |scope| else job.checked;
                 var bad := |BadRows(c.hash, old(m.db), c.disks, scope)|;
                 var corrupted := if outcome == Succeeded then bad else job.corrupted;
                 var progress := After(job.progress, maxAttempts, outcome);
                 m.db.checks == old(m.db.checks)[id := Check(job.node, job.version, progress, checked, corrupted)]
  {
    done := {};
    CheckedNone(c.hash, m.db, c.disks);
    if id !in m.db.checks {
      return Err(ObjectNotFound), Untouched, done;
    }
    var job := m.db.checks[id];
    if Finished(job.progress, maxAttempts) {
      assert m.db.checks == m.db.checks[id := job];
      return Ok(job.progress.status), Untouched, done;
    }
    var attempts := job.progress.attempts + 1;
    m.PutCheck(id, job.(progress := Progress(JobRunning, attempts)));
    ghost var start := m.db;
    var scan;
    ghost var results;
    scan, done, results := Scan(m, c, rf, job.node, job.version, reach);
    RanFacts(c.hash, old(m.db), start, m.db, c.disks, done, results);
    assert Scope(start, job.node, job.version) == Scope(old(m.db), job.node, job.version);
    BlamedJobs(c.hash, old(m.db), start, c.disks, reach, Scope(start, job.node, job.version));
    MeasuredJobs(old(m.db), start, c.disks, reach, done);
    CleanJobs(c.hash, old(m.db), start, c.disks, reach, Scope(start, job.node, job.version));
    ghost var end := m.db;
    match scan {
      case Ok(list) =>
        m.PutCheck(id, job.(checked := CheckedCount(list), corrupted := CorruptedCount(list),
                            progress := Progress(JobSucceeded, attempts)));
        r, outcome := Ok(JobSucceeded), Succeeded;
      case Err(error) =>
        if error == Aborted {
          r, outcome := Err(Aborted), Outcome.Crashed;
        } else {
          var status := if attempts >= maxAttempts then JobFailed else JobPending;
          m.PutCheck(id, job.(progress := Progress(status, attempts)));
          r, outcome := Err(error), Errored;
        }
    }
    CheckedJobs(c.hash, old(m.db), end, m.db, c.disks, done);
    CheckedSafe(c.hash, old(m.db), m.db, c.disks, done);
  }

  /** Job rows do not matter to whether rows are clean. */
  lemma CleanJobs(hash: Hash, before: Tables, start: Tables, disks: Disks, reach: ReplicaId -> Reach,
                  rows: set<ReplicaId>)
    requires start == before.(checks := start.checks)
    ensures Clean(hash, start, disks, reach, rows) <==> Clean(hash, before, disks, reach, rows)
  {
    assert BadRows(hash, start, disks, rows) == BadRows(hash, before, disks, rows);
    forall id ensures CleanAt(hash, start, disks, reach, rows, id) <==> CleanAt(hash, before, disks, reach, rows, id) {
      if id in before.replicas && before.replicas[id].version in before.versions {
        var v := before.replicas[id].version;
        assert EligibleNodes(start, v, before.versions[v].size, {}) == EligibleNodes(before, v, before.versions[v].size,
                                                                                     {});
      }
    }
  }

  /** Job rows do not matter to what has been measured. */
  lemma MeasuredJobs(before: Tables, start: Tables, disks: Disks, reach: ReplicaId -> Reach, done: set<ReplicaId>)
    requires start == before.(checks := start.checks) && AllMeasured(start, disks, reach, done)
    ensures AllMeasured(before, disks, reach, done)
  {
    forall id ensures MeasuredAt(before, disks, reach, done, id) {
      assert MeasuredAt(start, disks, reach, done, id);
    }
  }

  /** Job rows do not matter to what a scan runs into. */
  lemma BlamedJobs(hash: Hash, before: Tables, start: Tables, disks: Disks, reach: ReplicaId -> Reach,
                   rows: set<ReplicaId>)
    requires start == before.(checks := start.checks)
    ensures forall died :: Blamed(hash, start, disks, reach, rows, died) ==>
              Blamed(hash, before, disks, reach, rows, died)
  {
    forall died | Blamed(hash, start, disks, reach, rows, died) ensures Blamed(hash, before, disks, reach, rows, died) {
      var id :| id in rows && Trouble(hash, start, disks, reach(id), id, died);
      assert Trouble(hash, before, disks, reach(id), id, died);
    }
  }

  /** Job rows do not matter to what has been checked. */
  lemma CheckedJobs(hash: Hash, before: Tables, end: Tables, now: Tables, disks: Disks, done: set<ReplicaId>)
    requires Checked(hash, before, end, disks, done) && now.replicas == end.replicas
    ensures Checked(hash, before, now, disks, done)
  {
    forall r ensures RowChecked(hash, before, now, disks, done, r) {
      assert RowChecked(hash, before, end, disks, done, r);
    }
  }

  lemma RanFacts(hash: Hash, before: Tables, start: Tables, end: Tables, disks: Disks, done: set<ReplicaId>,
                 results: seq<IntegrityResult>)
    requires Scanned(hash, start, end, disks, done, results) && start == before.(checks := start.checks)
    ensures Checked(hash, before, end, disks, done)
    ensures CheckedCount(results) == |done| && CorruptedCount(results) == |BadRows(hash, before, disks, done)|
  {
    ScannedMeans(hash, start, end, disks, done, results);
    forall r ensures RowChecked(hash, before, end, disks, done, r) {
      assert RowChecked(hash, start, end, disks, done, r);
    }
    assert BadRows(hash, before, disks, done) == BadRows(hash, start, disks, done);
  }

  method Scan(m: MM.MetadataManager, c: Cluster, rf: int, node: Option<NodeId>, version: Option<VersionId>,
              reach: ReplicaId -> Reach)
    returns (r: Result<seq<IntegrityResult>, VaultError>, ghost done: set<ReplicaId>,
             ghost results: seq<IntegrityResult>)
    requires m.Valid() && rf >= 1
    modifies m`db
    ensures m.Valid() && m.db == old(m.db).(replicas := m.db.replicas, repairs := m.db.repairs)
    ensures done <= Scope(old(m.db), node, version) && Scanned(c.hash, old(m.db), m.db, c.disks, done, results)
    ensures r.Ok? ==> done == Scope(old(m.db), node, version) && r.value == results
    ensures r.Err? ==>
              || (Unknown(old(m.db), node, version) && r.error != Aborted)
              || Blamed(c.hash, old(m.db), c.disks, reach, Scope(old(m.db), node, version), r.error == Aborted)
    ensures AllMeasured(old(m.db), c.disks, reach, done)
    ensures r.Ok? <==>
              && !Unknown(old(m.db), node, version)
              && Clean(c.hash, old(m.db), c.disks, reach, Scope(old(m.db), node, version))
  {
    if node.Some? {
      assert Scope(m.db, node, version) == Scope(m.db, Some(node.value), None);
      r, done, results := ScanNode(m, c, rf, node.value, reach);
    } else if version.Some? {
      r, done, results := ScanVersion(m, c, rf, version.value, reach);
    } else {
      r, done, results := ScanAll(m, c, rf, reach);
    }
  }

  /** One of the calls of a run never returns. */
  ghost predicate Dying(reach: ReplicaId -> Reach) {
    exists id :: reach(id) == Dies
  }

  ghost function DyingRuns(nets: seq<ReplicaId -> Reach>): nat {
    if nets == [] then 0 else DyingRuns(nets[..|nets| - 1]) + if Dying(nets[|nets| - 1]) then 1 else 0
  }

  /**
    Run a new job any number of times, whatever happens: its attempts stay bounded by `maxAttempts` plus the
    runs in which a call never returned.
   */
  method RunRepeatedly(m: MM.MetadataManager, c: Cluster, rf: int, maxAttempts: nat, id: JobId,
                       nets: seq<ReplicaId -> Reach>)
    returns (ghost history: seq<Progress>, ghost outcomes: seq<Outcome>)
    requires m.Valid() && rf >= 1 && maxAttempts >= 1
    requires id in m.db.checks && m.db.checks[id].progress == Progress(JobPending, 0)
    modifies m`db
    ensures m.Valid() && id in m.db.checks && |outcomes| == |nets|
    ensures IsRun(history, outcomes, maxAttempts) && history[|outcomes|] == m.db.checks[id].progress
    ensures forall k :: 0 <= k < |nets| && outcomes[k] == Outcome.Crashed ==> Dying(nets[k])
    ensures Bounded(m.db.checks[id].progress, outcomes, DyingRuns(nets), maxAttempts)
            && Rejected !in outcomes
  {
    history, outcomes := [m.db.checks[id].progress], [];
    for k := 0 to |nets|
      invariant m.Valid() && id in m.db.checks && |outcomes| == k
      invariant IsRun(history, outcomes, maxAttempts) && history[k] == m.db.checks[id].progress
      invariant forall i :: 0 <= i < k && outcomes[i] == Outcome.Crashed ==> Dying(nets[i])
      invariant Crashes(outcomes) <= DyingRuns(nets[..k]) && Rejected !in outcomes
    {
      ghost var before := m.db;
      var _, outcome, done := RunJob(m, c, rf, maxAttempts, id, nets[k]);
      if outcome == Outcome.Crashed {
        ghost var scope := Scope(before, before.checks[id].node, before.checks[id].version);
        ghost var r :| r in scope && Trouble(c.hash, before, c.disks, nets[k](r), r, true);
        assert Dying(nets[k]);
      }
      RunGoesOn(history, outcomes, maxAttempts, m.db.checks[id].progress, outcome);
      assert nets[..k + 1][..k] == nets[..k] && (outcomes + [outcome])[..k] == outcomes;
      history, outcomes := history + [m.db.checks[id].progress], outcomes + [outcome];
    }
    assert nets[..|nets|] == nets;
    AttemptsBounded(history, outcomes, maxAttempts);
    StatusMeans(history, outcomes, maxAttempts);
  }
}
