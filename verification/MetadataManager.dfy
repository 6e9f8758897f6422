/** The metadata manager: the session's rows and every operation that changes them. */
module MetadataManager {
  import opened Base
  import opened Tables
  import opened Metadata
  import opened Names

  class MetadataManager {
    var db: Tables
    /** Every commit that has succeeded. */
    ghost var commits: seq<Commit>
    /** The tables at some earlier time; no operation moves it. */
    ghost var past: Tables

    ghost predicate Valid()
      reads this
    {
      Sound(db, commits, past)
    }

    lemma Opened()
      requires Valid()
      ensures Consistent(db) && CommitsOk(commits, db) && Follows(past, db)
    {
      SoundMeans(db, commits, past);
    }

    /** Start looking back from now. */
    ghost method Snapshot()
      requires Valid()
      modifies `past
      ensures Valid() && past == db
    {
      Opened();
      FollowsItself(db);
      past := db;
      SoundMeans(db, commits, past);
    }

    constructor ()
      ensures Valid() && db == Tables(map[], map[], map[], map[], map[], map[], map[]) && commits == []
    {
      db := Tables(map[], map[], map[], map[], map[], map[], map[]);
      commits := [];
      past := Tables(map[], map[], map[], map[], map[], map[], map[]);
      new;
      EmptySound();
    }

    // ----- Objects and versions

    /** Names are compared in their canonical form. */
    method CreateObject(o: ObjectId, name: string) returns (r: Result<(), VaultError>)
      requires Valid() && o !in db.objects
      modifies `db
      ensures Valid() && OneStep(old(db), db)
      ensures r == if NormalizeName(name).None? then Err(ValueError)
                   else if NameTaken(old(db).objects, NormalizeName(name).value) then Err(AlreadyExists) else Ok(())
      ensures r.Err? ==> db == old(db)
      ensures r.Ok? ==> db == old(db).(objects := old(db).objects[o := Object(NormalizeName(name).value, None, Active)])
    {
      Opened();
      SameRows(db, db);
      var normalized := NormalizeName(name);
      if normalized.None? {
        return Err(ValueError);
      }
      if NameTaken(db.objects, normalized.value) {
        return Err(AlreadyExists);
      }
      var object' := Object(normalized.value, None, Active);
      forall p | p in db.objects ensures db.objects[p].name != object'.name {
        assert !HasName(db.objects, p, normalized.value);
      }
      ObjectChanged(db, o, object');
      ghost var before := db;
      db := db.(objects := db.objects[o := object']);
      CommitsKept(commits, before, db);
      SameRows(before, db);
      VersionsMoveOn(past, before, db);
      SoundMeans(db, commits, past);
      r := Ok(());
    }

    /** `max(version_number)` over the versions of an object, 0 when there is none. */
    method MaxNumber(o: ObjectId) returns (n: nat)
      ensures forall v :: v in db.versions && db.versions[v].owner == o ==> db.versions[v].number <= n
      ensures n > 0 ==> exists v :: v in db.versions && db.versions[v].owner == o && db.versions[v].number == n
    {
      n := 0;
      var rest := db.versions.Keys;
      while rest != {}
        invariant rest <= db.versions.Keys
        invariant forall v :: v in db.versions && v !in rest && db.versions[v].owner == o ==> db.versions[v].number <= n
        invariant n > 0 ==> exists v :: v in db.versions && db.versions[v].owner == o && db.versions[v].number == n
        decreases rest
      {
        var v :| v in rest;
        rest := rest - {v};
        if db.versions[v].owner == o && db.versions[v].number > n {
          n := db.versions[v].number;
        }
      }
    }

    method CreateVersion(v: VersionId, o: ObjectId, size: int, checksum: string, expected: Option<int>)
      returns (r: Result<nat, VaultError>)
      requires Valid() && v !in db.versions
      modifies `db
      ensures Valid() && OneStep(old(db), db)
      ensures r.Err? ==> db == old(db)
      ensures r.Err? ==>
                r.error == (if size < 0 || ValidateChecksum(checksum).Err? || (expected.Some?
                                                                               && expected.value < 0) then ValueError
                            else if o !in db.objects then ObjectNotFound
                            else if db.objects[o].state != Active then InvalidState
                            else VersionConflict)
      ensures r.Ok? <==> size >= 0 && ValidateChecksum(checksum).Ok? && (expected.Some? ==> expected.value >= 0)
                         && o in old(db).objects && old(db).objects[o].state == Active
                         && ExpectedMatches(expected, CurrentNumber(old(db), o))
      // the new number is one above every other number of the object
      ensures r.Ok? ==>
                && (var version := Version(o, r.value, size, ValidateChecksum(checksum).value, Preparing);
                    db == old(db).(versions := old(db).versions[v := version]))
                && (forall w :: w in old(db).versions && old(db).versions[w].owner == o ==>
                      old(db).versions[w].number < r.value)
                && (r.value == 1 || HasNumber(old(db).versions, o, r.value - 1))
    {
      Opened();
      SameRows(db, db);
      var normalized := ValidateChecksum(checksum);
      if size < 0 || normalized.Err? || (expected.Some? && expected.value < 0) {
        return Err(ValueError);
      }
      if o !in db.objects {
        return Err(ObjectNotFound);
      }
      if db.objects[o].state != Active {
        return Err(InvalidState);
      }
      if !ExpectedMatches(expected, CurrentNumber(db, o)) {
        return Err(VersionConflict);
      }
      var max := MaxNumber(o);
      var version := Version(o, max + 1, size, normalized.value, Preparing);
      NewVersionKeeps(db, v, version);
      ghost var before := db;
      db := db.(versions := db.versions[v := version]);
      CurrentUnmoved(before, db);
      forall w ensures SameCommitted(before.versions, db.versions, w) {
      }
      CommitsKept(commits, before, db);
      SameRows(before, db);
      VersionsMoveOn(past, before, db);
      SoundMeans(db, commits, past);
      r := Ok(max + 1);
    }

    method CommitVersion(v: VersionId, expected: Option<int>) returns (r: Result<(), VaultError>)
      requires Valid()
      modifies `db, `commits
      ensures Valid() && OneStep(old(db), db)
      ensures r.Ok? <==> CanCommit(old(db), v, expected) && (expected.Some? ==> expected.value >= 0)
      ensures r.Err? ==> db == old(db) && commits == old(commits)
      ensures r.Ok? ==>
                && db == AfterCommit(old(db), v)
                && commits == old(commits) + [Commit(old(db).versions[v].owner, expected,
                                                     CurrentNumber(old(db), old(db).versions[v].owner),
                                                     old(db).versions[v].number)]
                && CurrentNumber(db, db.versions[v].owner) > CurrentNumber(old(db), db.versions[v].owner)
    {
      Opened();
      SameRows(db, db);
      if expected.Some? && expected.value < 0 {
        return Err(ValueError);
      }
      if v !in db.versions {
        return Err(ObjectNotFound);
      }
      var version := db.versions[v];
      assert VersionOk(db.objects, db.versions, v);
      var current := CurrentNumber(db, version.owner);
      if !ExpectedMatches(expected, current) {
        return Err(VersionConflict);
      }
      if version.state != Preparing {
        return Err(InvalidState);
      }
      if version.number <= current {
        return Err(VersionConflict);
      }
      CommitKeeps(db, v, expected);
      CommitLogged(commits, db, v, expected);
      commits := commits + [Commit(version.owner, expected, current, version.number)];
      SameRows(db, AfterCommit(db, v));
      VersionsMoveOn(past, db, AfterCommit(db, v));
      db := db.(versions := db.versions[v := version.(state := Committed)],
                objects := db.objects[version.owner := db.objects[version.owner].(current := Some(v),
                                                                                  state := Active)]);
      SoundMeans(db, commits, past);
      r := Ok(());
    }

    method FailVersion(v: VersionId) returns (r: Result<(), VaultError>)
      requires Valid()
      modifies `db
      ensures Valid() && OneStep(old(db), db)
      ensures r == if v !in old(db).versions then Err(ObjectNotFound)
                   else if old(db).versions[v].state == Committed then Err(InvalidState) else Ok(())
      ensures r.Err? ==> db == old(db)
      ensures r.Ok? ==>
                var failed := old(db).versions[v].(state := VersionFailed);
                db == old(db).(versions := old(db).versions[v := failed])
    {
      Opened();
      SameRows(db, db);
      if v !in db.versions {
        return Err(ObjectNotFound);
      }
      if db.versions[v].state == Committed {
        return Err(InvalidState);
      }
      FailKeeps(db, v);
      ghost var before := db;
      db := db.(versions := db.versions[v := db.versions[v].(state := VersionFailed)]);
      CurrentUnmoved(before, db);
      forall w ensures SameCommitted(before.versions, db.versions, w) {
      }
      CommitsKept(commits, before, db);
      SameRows(before, db);
      VersionsMoveOn(past, before, db);
      SoundMeans(db, commits, past);
      r := Ok(());
    }

    method TransitionObjectState(o: ObjectId, state: ObjectState) returns (r: Result<(), VaultError>)
      requires Valid()
      modifies `db
      ensures Valid() && OneStep(old(db), db)
      ensures r == if o !in old(db).objects then Err(ObjectNotFound)
                   else if state != old(db).objects[o].state && state !in ObjectEdges(old(db).objects[o].state)
                   then Err(InvalidState)
                   else Ok(())
      ensures db == if r.Ok? then old(db).(objects := old(db).objects[o := old(db).objects[o].(state := state)])
                    else old(db)
    {
      Opened();
      SameRows(db, db);
      if o !in db.objects {
        return Err(ObjectNotFound);
      }
      var row := db.objects[o];
      if state == row.state {
        assert db.objects == db.objects[o := row.(state := state)];
        return Ok(());
      }
      if state !in ObjectEdges(row.state) {
        return Err(InvalidState);
      }
      ObjectChanged(db, o, row.(state := state));
      ghost var before := db;
      db := db.(objects := db.objects[o := row.(state := state)]);
      CommitsKept(commits, before, db);
      SameRows(before, db);
      VersionsMoveOn(past, before, db);
      SoundMeans(db, commits, past);
      r := Ok(());
    }

    // ----- Nodes

    /**
      Registering an address again returns the node that has it, unless another id is asked for. Without
      an id the new node gets a generated one.
     */
    method RegisterNode(id: Option<string>, generated: NodeId, address: string, capacity: int, status: NodeState)
      returns (r: Result<NodeId, VaultError>)
      requires Valid() && generated !in db.nodes && generated != ""
      modifies `db
      ensures Valid() && OneStep(old(db), db)
      ensures r == Registration(old(db), id, generated, address, capacity)
      ensures db == if r.Ok? && r.value !in old(db).nodes
                    then old(db).(nodes := old(db).nodes[r.value := Node(NormalizeAddress(address), status, capacity, 0,
                                                                         None)])
                    else old(db)
    {
      Opened();
      SameRows(db, db);
      if Strip(address) == "" || capacity < 0 {
        return Err(ValueError);
      }
      var normalized := NormalizeAddress(address);
      if n :| n in db.nodes && HasAddress(db.nodes, n, normalized) {
        AddressIsUnique(db, normalized, n);
        return if id.Some? && n != Strip(id.value) then Err(AlreadyExists) else Ok(n);
      }
      var n := if id.Some? then Strip(id.value) else generated;
      if n == "" {
        return Err(ValueError);
      }
      if n in db.nodes {
        return Err(AlreadyExists);
      }
      forall k | k in db.nodes ensures db.nodes[k].address != normalized {
        assert !HasAddress(db.nodes, k, normalized);
      }
      SetNode(n, Node(normalized, status, capacity, 0, None));
      r := Ok(n);
    }

    /** Rewrites one node row. */
    method SetNode(n: NodeId, node: Node)
      requires Valid() && n != "" && node.used <= node.capacity
      requires if n in db.nodes then NodeStep(db.nodes[n], node) && node.address == db.nodes[n].address
               else forall k :: k in db.nodes ==> db.nodes[k].address != node.address
      modifies `db
      ensures Valid() && OneStep(old(db), db)
      ensures db == old(db).(nodes := old(db).nodes[n := node])
    {
      Opened();
      NodeChanged(db, n, node);
      ghost var before := db;
      db := db.(nodes := db.nodes[n := node]);
      CommitsKept(commits, before, db);
      SameRows(before, db);
      NodeMovesOn(past, before, n, node);
      SoundMeans(db, commits, past);
    }

    method TransitionNodeState(n: NodeId, state: NodeState) returns (r: Result<(), VaultError>)
      requires Valid()
      modifies `db
      ensures Valid() && OneStep(old(db), db)
      ensures r == if n !in old(db).nodes then Err(ObjectNotFound)
                   else if state != old(db).nodes[n].status && state !in NodeEdges(old(db).nodes[n].status)
                   then Err(InvalidState)
                   else Ok(())
      ensures db == if r.Ok? then old(db).(nodes := old(db).nodes[n := old(db).nodes[n].(status := state)]) else old(db)
    {
      Opened();
      SameRows(db, db);
      if n !in db.nodes {
        return Err(ObjectNotFound);
      }
      var node := db.nodes[n];
      if state == node.status {
        assert db.nodes == db.nodes[n := node.(status := state)];
        return Ok(());
      }
      if state !in NodeEdges(node.status) {
        return Err(InvalidState);
      }
      assert NodeOk(db.nodes, n);
      SetNode(n, node.(status := state));
      r := Ok(());
    }

    /** A heartbeat counts only if it is strictly newer than the stored one; `r.value` says whether it did. */
    method ProcessNodeHeartbeat(n: NodeId, capacity: Option<int>, used: Option<int>, at: int) returns (r: Result<bool,
                                                                                                       VaultError>)
      requires Valid()
      modifies `db
      ensures Valid() && OneStep(old(db), db)
      ensures r == HeartbeatVerdict(old(db), n, capacity, used, at)
      ensures db == if r == Ok(true) then old(db).(nodes := old(db).nodes[n := AfterHeartbeat(old(db).nodes[n],
                                                                                              capacity, used, at)])
                    else old(db)
    {
      Opened();
      SameRows(db, db);
      if (capacity.Some? && capacity.value < 0) || (used.Some? && used.value < 0) {
        return Err(ValueError);
      }
      if n !in db.nodes {
        return Err(ObjectNotFound);
      }
      var node := db.nodes[n];
      if node.status == NodeRemoved {
        return Err(InvalidState);
      }
      if node.heartbeat.Some? && at <= node.heartbeat.value {
        return Ok(false);
      }
      var nextCapacity := if capacity.None? then node.capacity else capacity.value;
      var nextUsed := if used.None? then node.used else used.value;
      if nextUsed > nextCapacity {
        return Err(ValueError);
      }
      assert NodeOk(db.nodes, n);
      SetNode(n, node.(capacity := nextCapacity, used := nextUsed, heartbeat := Some(at)));
      r := Ok(true);
    }

    /**
      A heartbeat that also asks for a state: only an accepted heartbeat moves the node, and it stays accepted when
      the state is out of reach.
     */
    method UpdateNodeHeartbeat(n: NodeId, capacity: Option<int>, used: Option<int>, state: Option<NodeState>, at: int)
      returns (r: Result<(), VaultError>)
      requires Valid()
      modifies `db
      ensures Valid() && OneStep(old(db), db)
      ensures var verdict := HeartbeatVerdict(old(db), n, capacity, used, at);
              if verdict.Err? then r == Err(verdict.error) && db == old(db)
              else if !verdict.value then r.Ok? && db == old(db)
              else
                var node := AfterHeartbeat(old(db).nodes[n], capacity, used, at);
                && (r.Ok? <==> state.None? || state.value == node.status || state.value in NodeEdges(node.status))
                && db == old(db).(nodes := old(db).nodes[n := if r.Ok? && state.Some? then node.(status := state.value)
                                                              else node])
                && (r.Err? ==> r.error == InvalidState)
    {
      var accepted := ProcessNodeHeartbeat(n, capacity, used, at);
      if accepted.Err? {
        return Err(accepted.error);
      }
      if state.Some? && accepted.value && db.nodes[n].status != state.value {
        r := TransitionNodeState(n, state.value);
        SameRows(old(db), db);
      } else {
        r := Ok(());
      }
    }

    // ----- Replica rows

    /** Rewrites the replica rows. */
    method SetReplicas(replicas: map<ReplicaId, Replica>)
      requires Valid() && Consistent(db.(replicas := replicas)) && OneStep(db, db.(replicas := replicas))
      modifies `db
      ensures Valid() && db == old(db).(replicas := replicas)
    {
      Opened();
      ghost var before := db;
      db := db.(replicas := replicas);
      CommitsKept(commits, before, db);
      RowsMoveOn(past, before, db);
      SoundMeans(db, commits, past);
    }

    method CreateReplica(id: ReplicaId, v: VersionId, n: NodeId) returns (r: Result<(), VaultError>)
      requires Valid() && id !in db.replicas
      modifies `db
      ensures Valid() && OneStep(old(db), db)
      ensures r == if n == "" then Err(ValueError)
                   else if v !in old(db).versions || n !in old(db).nodes then Err(ObjectNotFound)
                   else if HasRow(old(db).replicas, v, n) then Err(InvalidState)
                   else Ok(())
      ensures db == if r.Ok? then old(db).(replicas := old(db).replicas[id := Replica(v, n, Pending, None,
                                                                                      None)]) else old(db)
    {
      Opened();
      SameRows(db, db);
      if n == "" {
        return Err(ValueError);
      }
      if v !in db.versions || n !in db.nodes {
        return Err(ObjectNotFound);
      }
      if HasRow(db.replicas, v, n) {
        return Err(InvalidState);
      }
      RowAdded(db, id, v, n);
      OneRow(db, db.(replicas := db.replicas[id := Replica(v, n, Pending, None, None)]), id);
      SetReplicas(db.replicas[id := Replica(v, n, Pending, None, None)]);
      r := Ok(());
    }

    method CreateReplicas(ids: seq<ReplicaId>, v: VersionId, nodes: seq<NodeId>) returns (r: Result<(), VaultError>)
      requires Valid() && |ids| == |nodes|
      requires forall i :: 0 <= i < |ids| ==> ids[i] !in db.replicas
      requires forall i, j :: 0 <= i < j < |ids| ==> ids[i] != ids[j]
      modifies `db
      ensures Valid() && OneStep(old(db), db)
      ensures r == if nodes == [] || "" in nodes || !Distinct(nodes) then Err(ValueError)
                   else if v !in old(db).versions || exists n :: n in nodes && n !in old(db).nodes
                   then Err(ObjectNotFound)
                   else if exists n :: n in nodes && HasRow(old(db).replicas, v, n) then Err(InvalidState)
                   else Ok(())
      ensures db == if r.Ok? then old(db).(replicas := AddRows(old(db).replicas, ids, v, nodes)) else old(db)
    {
      Opened();
      SameRows(db, db);
      if nodes == [] || "" in nodes || !Distinct(nodes) {
        return Err(ValueError);
      }
      if v !in db.versions || exists n :: n in nodes && n !in db.nodes {
        return Err(ObjectNotFound);
      }
      if exists n :: n in nodes && HasRow(db.replicas, v, n) {
        return Err(InvalidState);
      }
      forall i | 0 <= i < |ids| ensures nodes[i] in db.nodes && !HasRow(db.replicas, v, nodes[i]) {
        assert nodes[i] in nodes;
      }
      RowsAdded(db, ids, v, nodes);
      var replicas := NewRows(ids, v, nodes);
      SetReplicas(replicas);
      r := Ok(());
    }

    method NewRows(ids: seq<ReplicaId>, v: VersionId, nodes: seq<NodeId>) returns (replicas: map<ReplicaId, Replica>)
      requires |ids| == |nodes|
      ensures replicas == AddRows(db.replicas, ids, v, nodes)
    {
      replicas := db.replicas;
      for i := 0 to |ids|
        invariant replicas == AddRows(db.replicas, ids[..i], v, nodes[..i])
      {
        assert ids[..i + 1][..i] == ids[..i] && nodes[..i + 1][..i] == nodes[..i];
        replicas := replicas[ids[i] := Replica(v, nodes[i], Pending, None, None)];
      }
      assert ids[..|ids|] == ids && nodes[..|ids|] == nodes;
    }

    method SetReplicaState(id: ReplicaId, state: ReplicaState) returns (r: Result<(), VaultError>)
      requires Valid()
      modifies `db
      ensures Valid() && OneStep(old(db), db)
      ensures r == if CanSet(old(db).replicas, id, state) then Ok(())
                   else if id in old(db).replicas then Err(InvalidState) else Err(ObjectNotFound)
      ensures db == if r.Ok? then old(db).(replicas := WithStatus(old(db).replicas, id, state)) else old(db)
    {
      Opened();
      SameRows(db, db);
      if id !in db.replicas {
        return Err(ObjectNotFound);
      }
      var row := db.replicas[id];
      if row.status == state {
        assert db.replicas == WithStatus(db.replicas, id, state);
        return Ok(());
      }
      if state !in ReplicaEdges(row.status) {
        return Err(InvalidState);
      }
      if state == Healthy {
        assert false;
      }
      RowChanged(db, id, row.(status := state));
      OneRow(db, db.(replicas := WithStatus(db.replicas, id, state)), id);
      SetReplicas(WithStatus(db.replicas, id, state));
      r := Ok(());
    }

    /**
      The batch transition. It succeeds exactly when every single transition would, leaves the rows
      that making them one after the other leaves, and otherwise changes nothing.
     */
    method SetReplicaStates(ids: seq<ReplicaId>, state: ReplicaState) returns (r: Result<(), VaultError>)
      requires Valid()
      modifies `db
      ensures Valid() && OneStep(old(db), db)
      ensures r.Ok? <==> ids == [] || (state != Healthy && forall i :: 0 <= i < |ids| ==>
                                         CanSet(old(db).replicas, ids[i], state))
      ensures r.Ok? ==> db == old(db).(replicas := SetEach(old(db).replicas, ids, state))
      ensures r.Err? ==> db == old(db)
    {
      Opened();
      SameRows(db, db);
      if ids == [] {
        return Ok(());
      }
      if state == Healthy {
        return Err(InvalidState);
      }
      for i := 0 to |ids|
        invariant forall k :: 0 <= k < i ==> ids[k] in db.replicas
      {
        if ids[i] !in db.replicas {
          return Err(ObjectNotFound);
        }
      }
      for i := 0 to |ids|
        invariant forall k :: 0 <= k < i ==> CanSet(db.replicas, ids[k], state)
      {
        if db.replicas[ids[i]].status != state && state !in ReplicaEdges(db.replicas[ids[i]].status) {
          return Err(InvalidState);
        }
      }
      BatchKeeps(db, ids, state);
      var replicas := RestatedRows(ids, state);
      SetReplicas(replicas);
      r := Ok(());
    }

    method RestatedRows(ids: seq<ReplicaId>, state: ReplicaState) returns (replicas: map<ReplicaId, Replica>)
      requires forall i :: 0 <= i < |ids| ==> ids[i] in db.replicas
      ensures replicas == SetEach(db.replicas, ids, state)
    {
      replicas := db.replicas;
      for i := 0 to |ids|
        invariant replicas == SetEach(db.replicas, ids[..i], state)
      {
        SetEachStep(db.replicas, ids, state, i);
        replicas := WithStatus(replicas, ids[i], state);
      }
      assert ids[..|ids|] == ids;
    }

    /** Persist a matching verification of a replica that is HEALTHY already. */
    method RecordReplicaVerification(id: ReplicaId, checksum: string, size: int) returns (r: Result<(), VaultError>)
      requires Valid()
      modifies `db
      ensures Valid() && OneStep(old(db), db)
      ensures r.Ok? <==> Matches(old(db), id, checksum, size) && old(db).replicas[id].status == Healthy
      ensures db == old(db)
    {
      Opened();
      SameRows(db, db);
      assert ReplicaOk(db, id);
      if ValidateChecksum(checksum).Err? || size < 0 {
        return Err(ValueError);
      }
      if id !in db.replicas {
        return Err(ObjectNotFound);
      }
      var row := db.replicas[id];
      var version := db.versions[row.version];
      if row.status != Healthy {
        return Err(InvalidState);
      }
      if ValidateChecksum(checksum).value != version.checksum {
        return Err(ChecksumMismatch);
      }
      if size != version.size {
        return Err(InvalidState);
      }
      assert row == row.(checksum := Some(version.checksum), size := Some(version.size));
      assert db.replicas == db.replicas[id := row];
      db := db.(replicas := db.replicas[id := row.(checksum := Some(version.checksum), size := Some(version.size))]);
      r := Ok(());
    }

    method MarkReplicaHealthy(id: ReplicaId, checksum: string, size: int) returns (r: Result<(), VaultError>)
      requires Valid()
      modifies `db
      ensures Valid() && OneStep(old(db), db)
      ensures r.Ok? <==> CanMarkHealthy(old(db), id, checksum, size)
      ensures r.Ok? ==> db == AfterHealthy(old(db), id)
      ensures r.Err? ==> db == old(db)
    {
      Opened();
      SameRows(db, db);
      assert ReplicaOk(db, id);
      if ValidateChecksum(checksum).Err? || size < 0 {
        return Err(ValueError);
      }
      if id !in db.replicas {
        return Err(ObjectNotFound);
      }
      var row := db.replicas[id];
      var version := db.versions[row.version];
      if ValidateChecksum(checksum).value != version.checksum {
        return Err(ChecksumMismatch);
      }
      if size != version.size || row.status !in {Copying, Repairing} {
        return Err(InvalidState);
      }
      var healthy := row.(status := Healthy, checksum := Some(ValidateChecksum(checksum).value), size := Some(size));
      RowChanged(db, id, healthy);
      OneRow(db, db.(replicas := db.replicas[id := healthy]), id);
      SetReplicas(db.replicas[id := healthy]);
      r := Ok(());
    }

    method RemoveReplica(id: ReplicaId) returns (r: Result<(), VaultError>)
      requires Valid()
      modifies `db
      ensures Valid() && OneStep(old(db), db)
      ensures r == if id !in old(db).replicas then Err(ObjectNotFound)
                   else if old(db).replicas[id].status !in {Healthy, Corrupted, Stale, Unavailable}
                   then Err(InvalidState)
                   else Ok(())
      ensures db == if r.Ok? then old(db).(replicas := old(db).replicas - {id}) else old(db)
    {
      Opened();
      SameRows(db, db);
      if id !in db.replicas {
        return Err(ObjectNotFound);
      }
      if db.replicas[id].status !in {Healthy, Corrupted, Stale, Unavailable} {
        return Err(InvalidState);
      }
      RowRemoved(db, id);
      OneRow(db, db.(replicas := db.replicas - {id}), id);
      SetReplicas(db.replicas - {id});
      r := Ok(());
    }

    /** The row of a version on a node, if there is one. */
    method FindRow(v: VersionId, n: NodeId) returns (r: Option<ReplicaId>)
      ensures r.None? <==> !HasRow(db.replicas, v, n)
      ensures r.Some? ==> IsRow(db.replicas, r.value, v, n)
    {
      if id :| id in db.replicas && IsRow(db.replicas, id, v, n) {
        return Some(id);
      }
      r := None;
    }

    // ----- Job rows

    method PutRepair(j: JobId, job: Job)
      requires Valid() && JobOk(db, job)
      modifies `db
      ensures Valid() && OneStep(old(db), db)
      ensures db == old(db).(repairs := old(db).repairs[j := job])
    {
      Opened();
      ghost var before := db;
      db := db.(repairs := db.repairs[j := job]);
      forall i ensures RepairOk(db, i) {
        assert RepairOk(before, i);
      }
      forall i ensures RebalanceOk(db, i) {
        assert RebalanceOk(before, i);
      }
      JobsChanged(before, db);
      CommitsKept(commits, before, db);
      SameRows(before, db);
      RowsMoveOn(past, before, db);
      SoundMeans(db, commits, past);
    }

    method PutRebalance(j: JobId, job: Job)
      requires Valid() && JobOk(db, job) && job.source != job.target
      modifies `db
      ensures Valid() && OneStep(old(db), db)
      ensures db == old(db).(rebalances := old(db).rebalances[j := job])
    {
      Opened();
      ghost var before := db;
      db := db.(rebalances := db.rebalances[j := job]);
      forall i ensures RepairOk(db, i) {
        assert RepairOk(before, i);
      }
      forall i ensures RebalanceOk(db, i) {
        assert RebalanceOk(before, i);
      }
      JobsChanged(before, db);
      CommitsKept(commits, before, db);
      SameRows(before, db);
      RowsMoveOn(past, before, db);
      SoundMeans(db, commits, past);
    }

    method PutCheck(j: JobId, check: Check)
      requires Valid()
      modifies `db
      ensures Valid() && OneStep(old(db), db)
      ensures db == old(db).(checks := old(db).checks[j := check])
    {
      Opened();
      ghost var before := db;
      db := db.(checks := db.checks[j := check]);
      forall i ensures RepairOk(db, i) {
        assert RepairOk(before, i);
      }
      forall i ensures RebalanceOk(db, i) {
        assert RebalanceOk(before, i);
      }
      JobsChanged(before, db);
      CommitsKept(commits, before, db);
      SameRows(before, db);
      RowsMoveOn(past, before, db);
      SoundMeans(db, commits, past);
    }
  }

  // ----- Helpers

  /** The object has a version with this number. */
  ghost predicate HasNumber(versions: map<VersionId, Version>, o: ObjectId, number: int) {
    exists v :: v in versions && versions[v].owner == o && versions[v].number == number
  }

  predicate HasName(objects: map<ObjectId, Object>, o: ObjectId, name: string) {
    o in objects && objects[o].name == name
  }

  predicate NameTaken(objects: map<ObjectId, Object>, name: string) {
    exists o :: o in objects && HasName(objects, o, name)
  }

  predicate HasAddress(nodes: map<NodeId, Node>, n: NodeId, address: string) {
    n in nodes && nodes[n].address == address
  }

  /** The node at an address. */
  function NodeAt(nodes: map<NodeId, Node>, address: string): set<NodeId> {
    set n | n in nodes && HasAddress(nodes, n, address)
  }

  lemma AddressIsUnique(db: Tables, address: string, n: NodeId)
    requires Consistent(db) && n in db.nodes && HasAddress(db.nodes, n, address)
    ensures NodeAt(db.nodes, address) == {n}
  {
    forall k | k in NodeAt(db.nodes, address) ensures k == n {
      assert AddressOk(db.nodes, k, n);
    }
  }

  /** What a registration comes to. */
  ghost function Registration(db: Tables, id: Option<string>, generated: NodeId, address: string,
                              capacity: int): Result<NodeId, VaultError> {
    var there := NodeAt(db.nodes, NormalizeAddress(address));
    var wanted := if id.Some? then Strip(id.value) else generated;
    if Strip(address) == "" || capacity < 0 then Err(ValueError)
    else if there != {} then
      if id.Some? && there != {wanted} then Err(AlreadyExists) else var n :| n in there; Ok(n)
    else if wanted == "" then Err(ValueError)
    else if wanted in db.nodes then Err(AlreadyExists)
    else Ok(wanted)
  }

  lemma EmptySound()
    ensures var none := Tables(map[], map[], map[], map[], map[], map[], map[]); Sound(none, [], none)
  {
  }

  /** A job table changes; nothing that rows depend on does. */
  lemma JobsChanged(db: Tables, db': Tables)
    requires Consistent(db)
    requires db' == db.(repairs := db'.repairs, rebalances := db'.rebalances, checks := db'.checks)
    requires forall j :: RepairOk(db', j)
    requires forall j :: RebalanceOk(db', j)
    ensures Consistent(db')
  {
    forall r ensures ReplicaOk(db', r) {
      assert ReplicaOk(db, r);
    }
  }

  predicate Distinct(nodes: seq<NodeId>) {
    forall i, j :: 0 <= i < j < |nodes| ==> nodes[i] != nodes[j]
  }

  function HeartbeatVerdict(db: Tables, n: NodeId, capacity: Option<int>, used: Option<int>,
                            at: int): Result<bool, VaultError> {
    if (capacity.Some? && capacity.value < 0) || (used.Some? && used.value < 0) then Err(ValueError)
    else if n !in db.nodes then Err(ObjectNotFound)
    else if db.nodes[n].status == NodeRemoved then Err(InvalidState)
    else if db.nodes[n].heartbeat.Some? && at <= db.nodes[n].heartbeat.value then Ok(false)
    else if (if used.None? then db.nodes[n].used else used.value) > (if capacity.None?
    then db.nodes[n].capacity else capacity.value)
    then Err(ValueError)
    else Ok(true)
  }

  function AfterHeartbeat(node: Node, capacity: Option<int>, used: Option<int>, at: int): Node
    requires (capacity.Some? ==> capacity.value >= 0) && (used.Some? ==> used.value >= 0)
  {
    node.(capacity := if capacity.None? then node.capacity else capacity.value,
          used := if used.None? then node.used else used.value,
          heartbeat := Some(at))
  }

  /** Versions that are not current come and go without moving any current number. */
  lemma CurrentUnmoved(db: Tables, db': Tables)
    requires Consistent(db) && db'.objects == db.objects
    requires forall v :: v in db.versions ==> v in db'.versions && db'.versions[v].number == db.versions[v].number
    ensures forall o :: CurrentNumber(db', o) == CurrentNumber(db, o)
  {
    forall o ensures CurrentNumber(db', o) == CurrentNumber(db, o) {
      assert CurrentOk(db.objects, db.versions, o);
    }
  }

  /** A change of a single row is a step if that row takes one. */
  lemma OneRow(before: Tables, after: Tables, id: ReplicaId)
    requires RowStep(before, after, id)
    requires forall s :: s != id ==>
               (s in before.replicas <==> s in after.replicas)
                 && (s in before.replicas ==> before.replicas[s] == after.replicas[s])
    ensures OneStep(before, after)
  {
    forall s ensures RowStep(before, after, s) {
    }
  }

  /**
    A commit brings a DELETED object back: nothing in the history of a version that was prepared before the
    deletion stops it.
   */
  method CommitAfterDeletion(name: string, checksum: string) returns (m: MetadataManager, ghost deleted: Tables)
    requires NormalizeName(name).Some? && ValidateChecksum(checksum).Ok?
    ensures m.Valid() && CanCommit(deleted, 0, None) && m.db == AfterCommit(deleted, 0)
    ensures 0 in deleted.objects && deleted.objects[0].state == Deleted && 0 in m.db.objects
            && m.db.objects[0].state == Active
    ensures !ObjectEdge(deleted.objects[0].state, m.db.objects[0].state)
  {
    m := new MetadataManager();
    var _ := m.CreateObject(0, name);
    var _ := m.CreateVersion(0, 0, 0, checksum, None);
    var _ := m.TransitionObjectState(0, Deleting);
    var _ := m.TransitionObjectState(0, Deleted);
    deleted := m.db;
    var _ := m.CommitVersion(0, None);
  }
}
