/** Copy-before-delete migration of replicas, and draining of nodes. */
module Rebalance {
  import opened Base
  import opened Tables
  import opened Metadata
  import opened Cluster
  import opened Traces
  import opened Targets
  import opened GoodCopies
  import opened Jobs
  import MM = MetadataManager

  /** How the node calls of one migration run go. */
  datatype RebalanceNet = RebalanceNet(
    recheckTarget: Reach, verifySource: Reach, clearTarget: Deletion, put: Upload, verifyTarget: Reach,
    deleteSource: Deletion)

  /** One of the calls of the run never returns. */
  predicate Dying(net: RebalanceNet) {
    || net.recheckTarget == Dies || net.verifySource == Dies || net.clearTarget.DeleteDies? || net.put.UploadDies?
    || net.verifyTarget == Dies || net.deleteSource.DeleteDies?
  }

  function DyingRuns(nets: seq<RebalanceNet>): nat {
    if nets == [] then 0 else DyingRuns(nets[..|nets| - 1]) + if Dying(nets[|nets| - 1]) then 1 else 0
  }

  /** How a stretch of a run ends. */
  datatype Phase = Done | Raised(error: VaultError) | Dead

  /** Work on the target row t is going on. */
  ghost predicate OnTheWay(before: map<ReplicaId, Replica>, now: map<ReplicaId, Replica>, t: ReplicaId, v: VersionId,
                           n: NodeId) {
    t in now && Retargeted(before, now, t, v, n, COPYABLE, now[t].status)
  }

  lemma LocatedOnTheWay(before: map<ReplicaId, Replica>, mid: map<ReplicaId, Replica>, now: map<ReplicaId, Replica>,
                        t: ReplicaId, v: VersionId, n: NodeId)
    requires Located(before, mid, t, v, n) && mid[t].status in COPYABLE
    requires t in now && now == mid[t := mid[t].(status := now[t].status)]
    ensures OnTheWay(before, now, t, v, n)
  {
    LocatedRetargeted(before, mid, now, t, v, n, COPYABLE, now[t].status);
  }

  /** A point at which, compared with the start, only the target row (never HEALTHY before) and its bytes may differ. */
  ghost predicate Near(before: map<ReplicaId, Replica>, disks: Disks, p: Point, t: ReplicaId, v: VersionId, n: NodeId) {
    && (p.replicas == before || OnTheWay(before, p.replicas, t, v, n))
    && ChangedAt(disks, p.disks, n, v)
  }

  ghost predicate NoHealthyAt(replicas: map<ReplicaId, Replica>, v: VersionId, n: NodeId) {
    forall r :: r in replicas && IsRow(replicas, r, v, n) ==> replicas[r].status != Healthy
  }

  lemma NearIsEnough(hash: Hash, version: Version, before: map<ReplicaId, Replica>, disks: Disks, p: Point,
                     t: ReplicaId, v: VersionId, n: NodeId)
    requires forall r, s :: RowOk(before, r, s)
    requires NoHealthyAt(before, v, n) && Near(before, disks, p, t, v, n)
    ensures Enough(hash, version, v, p, |GoodRows(hash, version, v, before, disks)|)
  {
    if p.replicas == before {
      forall r | r in HealthyRows(before, v)
        ensures Intact(hash, disks, before[r].node, v, version) <==> Intact(hash, p.disks, before[r].node, v, version)
      {
        assert before[r].node == n ==> IsRow(before, r, v, n);
        IntactElsewhere(hash, disks, p.disks, n, v, before[r].node, v, version);
      }
      assert GoodRows(hash, version, v, before, disks) == GoodRows(hash, version, v, p.replicas, p.disks);
    } else {
      GoodUntouched(hash, version, v, before, p.replicas, disks, p.disks, t, n, COPYABLE, p.replicas[t].status);
    }
  }

  // ----- One migration

  // As with traces, one quantifier over i keeps the definition folded.

  ghost predicate RanAt(hash: Hash, version: Version, v: VersionId, points: seq<Point>, first: Point, last: Point,
                        least: nat, i: nat) {
    && TraceAt(points, {v}, first, last, i)
    && (AllGood(hash, version, v, first.replicas, first.disks) ==>
          && EnoughAt(hash, version, v, points, Min(|HealthyRows(first.replicas, v)|, least), i)
          && Enough(hash, version, v, last, Min(|HealthyRows(first.replicas, v)|, least)))
  }

  /**
    What a stretch of a run leads through: a trace about its version; if every HEALTHY row was good at its first
    point, at least `least` good copies, or all that there were, at every point of it.
   */
  ghost predicate RanThrough(hash: Hash, version: Version, v: VersionId, points: seq<Point>, first: Point, last: Point,
                             least: nat) {
    forall i :: RanAt(hash, version, v, points, first, last, least, i)
  }

  lemma RanThroughIs(hash: Hash, version: Version, v: VersionId, points: seq<Point>, first: Point, last: Point,
                     least: nat)
    ensures RanThrough(hash, version, v, points, first, last, least) <==>
            && Trace(points, {v}, first, last)
            && (AllGood(hash, version, v, first.replicas, first.disks) ==>
                  AlwaysEnough(hash, version, v, points, Min(|HealthyRows(first.replicas, v)|, least)))
    ensures RanThrough(hash, version, v, points, first, last, least)
            && AllGood(hash, version, v, first.replicas, first.disks) ==>
              Enough(hash, version, v, last, Min(|HealthyRows(first.replicas, v)|, least))
  {
    var enough := Min(|HealthyRows(first.replicas, v)|, least);
    if RanThrough(hash, version, v, points, first, last, least) {
      forall i: nat ensures TraceAt(points, {v}, first, last, i) {
        assert RanAt(hash, version, v, points, first, last, least, i);
      }
      if AllGood(hash, version, v, first.replicas, first.disks) {
        forall i: nat ensures EnoughAt(hash, version, v, points, enough, i) {
          assert RanAt(hash, version, v, points, first, last, least, i);
        }
        assert RanAt(hash, version, v, points, first, last, least, 0);
      }
    }
    if Trace(points, {v}, first, last) && (AllGood(hash, version, v, first.replicas, first.disks) ==>
                                             AlwaysEnough(hash, version, v, points, enough)) {
      TraceEnds(points, {v}, first, last);
      forall i: nat ensures RanAt(hash, version, v, points, first, last, least, i) {
        assert TraceAt(points, {v}, first, last, i);
        var j: nat := |points| - 1;
        if AllGood(hash, version, v, first.replicas, first.disks) {
          assert EnoughAt(hash, version, v, points, enough, i) && EnoughAt(hash, version, v, points, enough, j);
        }
      }
    }
  }

  lemma RanNowhere(hash: Hash, version: Version, v: VersionId, p: Point, least: nat)
    ensures RanThrough(hash, version, v, [p], p, p, least)
  {
    TraceStarts(p, {v});
    if AllGood(hash, version, v, p.replicas, p.disks) {
      EnoughOne(hash, version, v, p, Min(|HealthyRows(p.replicas, v)|, least));
    }
    RanThroughIs(hash, version, v, [p], p, p, least);
  }

  /** A stretch that loses no good copy, and then one that may. */
  lemma RanOn(hash: Hash, version: Version, v: VersionId, a: seq<Point>, b: seq<Point>, first: Point, mid: Point,
              last: Point, least: nat)
    requires RanThrough(hash, version, v, a, first, mid, |HealthyRows(first.replicas, v)|)
             && RanThrough(hash, version, v, b, mid, last, least)
    requires AllGood(hash, version, v, first.replicas, first.disks) ==>
               AllGood(hash, version, v, mid.replicas, mid.disks)
                 && |HealthyRows(mid.replicas, v)| >= |HealthyRows(first.replicas, v)|
    ensures RanThrough(hash, version, v, Joined(a, b), first, last, least)
  {
    var h, h' := |HealthyRows(first.replicas, v)|, |HealthyRows(mid.replicas, v)|;
    RanThroughIs(hash, version, v, a, first, mid, h);
    RanThroughIs(hash, version, v, b, mid, last, least);
    TraceJoin(a, b, {v}, first, mid, last);
    if AllGood(hash, version, v, first.replicas, first.disks) {
      EnoughLess(hash, version, v, a, Min(h, h), Min(h, least));
      EnoughLess(hash, version, v, b, Min(h', least), Min(h, least));
      EnoughOn(hash, version, v, a, b, Min(h, least));
    }
    RanThroughIs(hash, version, v, Joined(a, b), first, last, least);
  }

  lemma RanLess(hash: Hash, version: Version, v: VersionId, points: seq<Point>, first: Point, last: Point, least: nat)
    requires RanThrough(hash, version, v, points, first, last, |HealthyRows(first.replicas, v)|)
    ensures RanThrough(hash, version, v, points, first, last, least)
  {
    var h := |HealthyRows(first.replicas, v)|;
    RanThroughIs(hash, version, v, points, first, last, h);
    if AllGood(hash, version, v, first.replicas, first.disks) {
      EnoughLess(hash, version, v, points, Min(h, h), Min(h, least));
    }
    RanThroughIs(hash, version, v, points, first, last, least);
  }

  /** A point on the same bytes whose rows differ at most in the state of one row. */
  ghost predicate OnlyState(p: Point, before: map<ReplicaId, Replica>, disks: Disks, t: ReplicaId) {
    && p.disks == disks
    && t in before && t in p.replicas && p.replicas == before[t := before[t].(status := p.replicas[t].status)]
  }

  /** Bring a row to COPYING, by way of REPAIRING if need be; `disks` are the bytes meanwhile. */
  method EnterCopying(m: MM.MetadataManager, t: ReplicaId, ghost disks: Disks) returns (ghost points: seq<Point>)
    requires m.Valid() && t in m.db.replicas && m.db.replicas[t].status in COPYABLE
    modifies m`db
    ensures m.Valid() && m.db == old(m.db).(replicas := WithStatus(old(m.db.replicas), t, Copying))
    ensures StateTrace(points, old(m.db.replicas), m.db.replicas, disks, t)
  {
    ghost var before := m.db.replicas;
    var status := m.db.replicas[t].status;
    TraceStarts(Point(before, disks), {before[t].version});
    points := [Point(before, disks)];
    if status in {Corrupted, Stale, Unavailable} {
      points := SetTraced(m, t, Repairing, before, disks, points);
    }
    points := SetTraced(m, t, Copying, before, disks, points);
  }

  /** A trace on the same bytes along which only the state of row t changes. */
  ghost predicate StateTrace(points: seq<Point>, before: map<ReplicaId, Replica>, after: map<ReplicaId, Replica>,
                             disks: Disks, t: ReplicaId) {
    && t in before && Trace(points, {before[t].version}, Point(before, disks), Point(after, disks))
    && forall i :: 0 <= i < |points| ==> OnlyState(points[i], before, disks, t)
  }

  /** One change of state, added to such a trace. */
  method SetTraced(m: MM.MetadataManager, t: ReplicaId, to: ReplicaState, ghost before: map<ReplicaId, Replica>,
                   ghost disks: Disks,
                   ghost points: seq<Point>)
    returns (ghost points': seq<Point>)
    requires m.Valid() && StateTrace(points, before, m.db.replicas, disks, t) && CanSet(m.db.replicas, t, to)
    modifies m`db
    ensures m.Valid() && m.db == old(m.db).(replicas := WithStatus(before, t, to))
    ensures StateTrace(points', before, m.db.replicas, disks, t)
  {
    ghost var mid := m.db.replicas;
    TraceEnds(points, {before[t].version}, Point(before, disks), Point(mid, disks));
    assert OnlyState(points[|points| - 1], before, disks, t);
    StateAction(before, mid, t, to, {before[t].version}, disks);
    TraceMore(points, {before[t].version}, Point(before, disks), Point(mid, disks),
              Point(WithStatus(mid, t, to), disks));
    var _ := m.SetReplicaState(t, to);
    points' := points + [Point(m.db.replicas, disks)];
  }

  /** A change of state is one action, and together with one before it still a change of that row's state. */
  lemma StateAction(before: map<ReplicaId, Replica>, mid: map<ReplicaId, Replica>, t: ReplicaId, to: ReplicaState,
                    vs: set<VersionId>, disks: Disks)
    requires OnlyState(Point(mid, disks), before, disks, t) && CanSet(mid, t, to) && before[t].version in vs
    ensures Action(Point(mid, disks), Point(WithStatus(mid, t, to), disks), vs)
    ensures OnlyState(Point(WithStatus(mid, t, to), disks), before, disks, t)
    ensures WithStatus(mid, t, to) == WithStatus(before, t, to)
  {
    assert RowAction(mid, WithStatus(mid, t, to), vs, t);
  }

  /**
    `_target_replica`: the target row, created if needed, brought to COPYING; a HEALTHY one is returned as it is.
    `disks` are the bytes meanwhile.
   */
  method TargetRow(m: MM.MetadataManager, v: VersionId, n: NodeId, ghost disks: Disks)
    returns (r: Result<ReplicaId, VaultError>, ghost points: seq<Point>)
    requires m.Valid() && v in m.db.versions && n in m.db.nodes
    modifies m`db
    ensures m.Valid() && m.db == old(m.db).(replicas := m.db.replicas)
    ensures r.Err? || HasHealthy(old(m.db.replicas), v, n) ==> m.db == old(m.db)
    ensures r.Err? <==> HasRowIn(old(m.db.replicas), v, n, {Repairing, Failed})
    ensures r.Ok? ==> IsRow(m.db.replicas, r.value, v, n)
    ensures r.Ok? && !HasHealthy(old(m.db.replicas), v, n) ==>
              && Retargeted(old(m.db.replicas), m.db.replicas, r.value, v, n, COPYABLE, Copying)
              && forall i :: 0 <= i < |points| ==> Near(old(m.db.replicas), disks, points[i], r.value, v, n)
    ensures Trace(points, {v}, Point(old(m.db.replicas), disks), Point(m.db.replicas, disks))
  {
    ghost var start := Point(m.db.replicas, disks);
    TraceStarts(start, {v});
    points := [start];
    var id := RowFor(m, v, n);
    ghost var located := Point(m.db.replicas, disks);
    var status := m.db.replicas[id].status;
    if status == Healthy {
      assert IsRow(old(m.db.replicas), id, v, n);
      return Ok(id), points;
    }
    if status !in {Pending, Corrupted, Stale, Unavailable, Copying} {
      return Err(InvalidState), points;
    }
    ghost var more := EnterCopying(m, id, disks);
    Approached(start, located, more, Point(m.db.replicas, disks), id, v, n);
    points := Approach(start, located, more);
    LocatedRetargeted(start.replicas, located.replicas, m.db.replicas, id, v, n, COPYABLE, Copying);
    r := Ok(id);
  }

  /** The row is located, in one action or none, and its state changed: put together, a trace near the start. */
  ghost function Approach(start: Point, located: Point, more: seq<Point>): seq<Point> {
    Joined(if located == start then [start] else [start] + [located], more)
  }

  lemma Approached(start: Point, located: Point, more: seq<Point>, end: Point, t: ReplicaId, v: VersionId, n: NodeId)
    requires Located(start.replicas, located.replicas, t, v, n) && located.replicas[t].status in COPYABLE
    requires located.disks == start.disks && (located == start || RowAction(start.replicas, located.replicas, {v}, t))
    requires end.disks == start.disks && StateTrace(more, located.replicas, end.replicas, start.disks, t)
    ensures Trace(Approach(start, located, more), {v}, start, end)
    ensures forall i :: 0 <= i < |Approach(start, located, more)| ==>
              Near(start.replicas, start.disks, Approach(start, located, more)[i], t, v, n)
  {
    var first := if located == start then [start] else [start] + [located];
    TraceStarts(start, {v});
    if located != start {
      ByRow(start, located, {v}, t);
      TraceMore([start], {v}, start, start, located);
    }
    TraceJoin(first, more, {v}, start, located, end);
    LocatedOnTheWay(start.replicas, located.replicas, located.replicas, t, v, n);
    forall i | 0 <= i < |more| ensures Near(start.replicas, start.disks, more[i], t, v, n) {
      assert OnlyState(more[i], located.replicas, start.disks, t);
      LocatedOnTheWay(start.replicas, located.replicas, more[i].replicas, t, v, n);
    }
    forall i | 0 <= i < |first| ensures Near(start.replicas, start.disks, first[i], t, v, n) {
    }
  }

  ghost predicate HasHealthy(replicas: map<ReplicaId, Replica>, v: VersionId, n: NodeId) {
    exists s :: s in replicas && IsRow(replicas, s, v, n) && replicas[s].status == Healthy
  }

  /** The source is HEALTHY and turns out to be on intact bytes. */
  ghost predicate SourceGood(hash: Hash, version: Version, p: Point, v: VersionId, source: NodeId, net: RebalanceNet) {
    && HasHealthy(p.replicas, v, source)
    && net.verifySource == Reached && Intact(hash, p.disks, source, v, version)
  }

  /** The source is good and every call of the copy goes well. */
  ghost predicate CopySucceeds(hash: Hash, version: Version, p: Point, v: VersionId, source: NodeId, net: RebalanceNet)
  {
    SourceGood(hash, version, p, v, source, net) && BytesArrive(hash, version, net)
  }

  /** The target row, if there is one, can be copied to. */
  ghost predicate Copyable(replicas: map<ReplicaId, Replica>, v: VersionId, n: NodeId) {
    forall s :: s in replicas && IsRow(replicas, s, v, n) ==> replicas[s].status in COPYABLE
  }

  /** The copy gets to a call that never returns; `ready` is whether the target row can be copied to. */
  ghost predicate CopyDies(hash: Hash, version: Version, p: Point, v: VersionId, source: NodeId, ready: bool,
                           net: RebalanceNet)
  {
    || (HasHealthy(p.replicas, v, source) && net.verifySource == Dies)
    || (SourceGood(hash, version, p, v, source, net) && ready
        && TransferDies(net.clearTarget, net.put, net.verifyTarget))
  }

  predicate BytesArrive(hash: Hash, version: Version, net: RebalanceNet) {
    net.clearTarget.DeleteDone? && net.put.Uploaded? && Carries(hash, net.put.blob, version)
      && net.verifyTarget == Reached
  }

  ghost predicate CopyPossible(hash: Hash, version: Version, p: Point, v: VersionId, source: NodeId, target: NodeId,
                               net: RebalanceNet)
  {
    CopySucceeds(hash, version, p, v, source, net) && Copyable(p.replicas, v, target)
  }

  /** Copy and verify: the target row ends HEALTHY on intact bytes, or the run stops on the way. */
  method CopyToTarget(m: MM.MetadataManager, c: Cluster, v: VersionId, source: NodeId, target: NodeId,
                      net: RebalanceNet)
    returns (p: Phase, ghost t: ReplicaId, ghost points: seq<Point>)
    requires m.Valid() && c.Valid() && v in m.db.versions && target in m.db.nodes
             && NoHealthyAt(m.db.replicas, v, target)
    modifies m`db, c`disks
    ensures m.Valid() && m.db == old(m.db).(replicas := m.db.replicas)
    ensures ChangedAt(old(c.disks), c.disks, target, v)
    ensures m.db.replicas == old(m.db.replicas)
            || Retargeted(old(m.db.replicas), m.db.replicas, t, v, target, COPYABLE,
                          if p == Done then Healthy else Copying)
    ensures p == Done ==> m.db.replicas != old(m.db.replicas) && Intact(c.hash, c.disks, target, v, m.db.versions[v])
    ensures p == Done <==>
              CopyPossible(c.hash, old(m.db.versions)[v], Point(old(m.db.replicas), old(c.disks)), v, source, target,
                           net)
    ensures p == Dead <==>
              CopyDies(c.hash, old(m.db.versions)[v], Point(old(m.db.replicas), old(c.disks)), v, source,
                       Copyable(old(m.db.replicas), v, target), net)
    ensures Trace(points, {v}, Point(old(m.db.replicas), old(c.disks)), Point(m.db.replicas, c.disks))
    ensures forall i :: 0 <= i < |points| ==> Near(old(m.db.replicas), old(c.disks), points[i], t, v, target)
  {
    m.Opened();
    ghost var start := Point(m.db.replicas, c.disks);
    TraceStarts(start, {v});
    t, points := 0, [start];
    assert Near(start.replicas, start.disks, start, t, v, target);
    var version := m.db.versions[v];
    var row := m.FindRow(v, source);
    if row.None? || m.db.replicas[row.value].status != Healthy {
      forall s | s in m.db.replicas && IsRow(m.db.replicas, s, v, source) ensures m.db.replicas[s].status != Healthy {
        assert row.Some? ==> RowOk(m.db.replicas, s, row.value);
      }
      return Raised(InvalidState), t, points;
    }
    assert HasHealthy(m.db.replicas, v, source);
    var measured := c.Verify(source, v, net.verifySource, true);
    if measured == Died {
      return Dead, t, points;
    }
    if !Agrees(measured, version) {
      return Raised(ClientError), t, points;
    }
    var ready;
    ready, points := TargetRow(m, v, target, c.disks);
    if ready.Err? {
      points := [start];
      return Raised(ready.error), t, points;
    }
    t := ready.value;
    forall s | s in start.replicas && IsRow(start.replicas, s, v, target) ensures start.replicas[s].status in COPYABLE {
      assert RowOk(start.replicas, s, t);
    }
    ghost var copying, more := Point(m.db.replicas, c.disks), [];
    p, more := CopyBytes(m, c, v, target, ready.value, net, start.replicas);
    TraceJoin(points, more, {v}, start, copying, Point(m.db.replicas, c.disks));
    points := Joined(points, more);
  }

  /** The copy itself, onto a COPYING row that becomes HEALTHY only on intact bytes. */
  method CopyBytes(m: MM.MetadataManager, c: Cluster, v: VersionId, target: NodeId, t: ReplicaId, net: RebalanceNet,
                   ghost before: map<ReplicaId, Replica>)
    returns (p: Phase, ghost points: seq<Point>)
    requires m.Valid() && c.Valid() && v in m.db.versions
    requires Retargeted(before, m.db.replicas, t, v, target, COPYABLE, Copying)
    modifies m`db, c`disks
    ensures m.Valid() && m.db == old(m.db).(replicas := m.db.replicas)
    ensures ChangedAt(old(c.disks), c.disks, target, v)
    ensures Retargeted(before, m.db.replicas, t, v, target, COPYABLE, if p == Done then Healthy else Copying)
    ensures p == Done ==> Intact(c.hash, c.disks, target, v, m.db.versions[v])
    ensures p == Done <==> BytesArrive(c.hash, m.db.versions[v], net)
    ensures p == Dead <==> TransferDies(net.clearTarget, net.put, net.verifyTarget)
    ensures Trace(points, {v}, Point(old(m.db.replicas), old(c.disks)), Point(m.db.replicas, c.disks))
    ensures forall i :: 0 <= i < |points| ==> Near(before, old(c.disks), points[i], t, v, target)
  {
    m.Opened();
    var version := m.db.versions[v];
    assert VersionOk(m.db.objects, m.db.versions, v);
    ghost var start := Point(m.db.replicas, c.disks);
    assert OnTheWay(before, start.replicas, t, v, target);
    var copied;
    copied, points := Transfer(c, target, v, version, net.clearTarget, net.put, net.verifyTarget, m.db.replicas);
    forall i | 0 <= i < |points| ensures Near(before, start.disks, points[i], t, v, target) {
      assert OnlyBytes(points[i], start.replicas, start.disks, target, v);
    }
    if copied != Transferred {
      return if copied == TransferDied then Dead else Raised(ClientError), points;
    }
    ghost var mid := Point(m.db.replicas, c.disks);
    var _ := m.MarkReplicaHealthy(t, version.checksum, version.size);
    ghost var end := Point(m.db.replicas, c.disks);
    assert OnTheWay(before, end.replicas, t, v, target);
    ByRow(mid, end, {v}, t);
    TraceMore(points, {v}, start, mid, end);
    points := points + [end];
    p := Done;
  }

  /** Only the row of v on n differs: rewritten, or new where there was none. */
  ghost predicate OnlyAt(before: map<ReplicaId, Replica>, after: map<ReplicaId, Replica>, t: ReplicaId, v: VersionId,
                         n: NodeId) {
    && IsRow(after, t, v, n) && after == before[t := after[t]]
    && (if t in before then IsRow(before, t, v, n) else !HasRow(before, v, n))
  }

  /** Where work on the target row may leave it. */
  predicate Worked(before: map<ReplicaId, Replica>, after: map<ReplicaId, Replica>, t: ReplicaId) {
    after == before || (t in after && after[t].status in {Healthy, Copying, Corrupted})
  }

  /** The target is HEALTHY on intact bytes. */
  ghost predicate TargetReady(hash: Hash, version: Version, p: Point, v: VersionId, n: NodeId) {
    HasHealthy(p.replicas, v, n) && Intact(hash, p.disks, n, v, version)
  }

  /**
    What it takes for the target to be ready: a copy, or a HEALTHY target that still measures up or can be
    copied over.
   */
  ghost predicate TargetPossible(hash: Hash, version: Version, p: Point, v: VersionId, source: NodeId, target: NodeId,
                                 net: RebalanceNet)
  {
    if !HasHealthy(p.replicas, v, target) then CopyPossible(hash, version, p, v, source, target, net)
    else
      && net.recheckTarget == Reached && (target, v) in p.disks && p.disks[(target, v)].sound
      && (Intact(hash, p.disks, target, v, version) || CopySucceeds(hash, version, p, v, source, net))
  }

  /** Getting the target ready gets to a call that never returns. */
  ghost predicate TargetDies(hash: Hash, version: Version, p: Point, v: VersionId, source: NodeId, target: NodeId,
                             net: RebalanceNet)
  {
    if !HasHealthy(p.replicas, v, target) then
      CopyDies(hash, version, p, v, source, Copyable(p.replicas, v, target), net)
    else
      || net.recheckTarget == Dies
      || (net.recheckTarget == Reached && (target, v) in p.disks && p.disks[(target, v)].sound
          && !Intact(hash, p.disks, target, v, version) && CopyDies(hash, version, p, v, source, true, net))
  }

  /** The HEALTHY rows once the target is ready. */
  ghost function ReadyCount(replicas: map<ReplicaId, Replica>, v: VersionId, target: NodeId): nat {
    |HealthyRows(replicas, v)| + if HasHealthy(replicas, v, target) then 0 else 1
  }

  /** A target that was HEALTHY already is measured again; anything else is copied to. */
  method ReadyTarget(m: MM.MetadataManager, c: Cluster, v: VersionId, source: NodeId, target: NodeId, net: RebalanceNet)
    returns (p: Phase, ghost t: ReplicaId, ghost points: seq<Point>)
    requires m.Valid() && c.Valid() && v in m.db.versions && target in m.db.nodes && source != target
    modifies m`db, c`disks
    ensures m.Valid() && m.db == old(m.db).(replicas := m.db.replicas)
    ensures ChangedAt(old(c.disks), c.disks, target, v)
    ensures m.db.replicas == old(m.db.replicas) || OnlyAt(old(m.db.replicas), m.db.replicas, t, v, target)
    ensures p == Done <==>
              TargetPossible(c.hash, old(m.db.versions)[v], Point(old(m.db.replicas), old(c.disks)), v, source, target,
                             net)
    ensures p == Dead <==>
              TargetDies(c.hash, old(m.db.versions)[v], Point(old(m.db.replicas), old(c.disks)), v, source, target, net)
    ensures p == Done ==> TargetReady(c.hash, m.db.versions[v], Point(m.db.replicas, c.disks), v, target)
                          && |HealthyRows(m.db.replicas, v)| == ReadyCount(old(m.db.replicas), v, target)
    ensures Worked(old(m.db.replicas), m.db.replicas, t)
    ensures Safe(c.hash, old(m.db), old(c.disks)) ==> Safe(c.hash, m.db, c.disks)
    ensures RanThrough(c.hash, m.db.versions[v], v, points, Point(old(m.db.replicas), old(c.disks)),
                       Point(m.db.replicas, c.disks),
                       |HealthyRows(old(m.db.replicas), v)|)
    ensures p == Done && AllGood(c.hash, m.db.versions[v], v, old(m.db.replicas), old(c.disks)) ==>
              && AllGood(c.hash, m.db.versions[v], v, m.db.replicas, c.disks)
              && |HealthyRows(m.db.replicas, v)| >= |HealthyRows(old(m.db.replicas), v)|
  {
    m.Opened();
    ghost var start := Point(m.db.replicas, c.disks);
    RanNowhere(c.hash, m.db.versions[v], v, start, |HealthyRows(start.replicas, v)|);
    t, points := 0, [start];
    var row := m.FindRow(v, target);
    if row.None? || m.db.replicas[row.value].status != Healthy {
      forall s | s in m.db.replicas && IsRow(m.db.replicas, s, v, target) ensures m.db.replicas[s].status != Healthy {
        assert row.Some? ==> RowOk(m.db.replicas, s, row.value);
      }
      p, t, points := CopyToTarget(m, c, v, source, target, net);
      m.Opened();
      CopiedFacts(c.hash, old(m.db), m.db, old(c.disks), c.disks, t, v, target, p, points);
      return;
    }
    assert HasHealthy(m.db.replicas, v, target);
    t := row.value;
    p, points := Recheck(m, c, v, source, target, row.value, net);
  }

  /** A HEALTHY target is measured again, and copied over if it no longer holds the version. */
  method Recheck(m: MM.MetadataManager, c: Cluster, v: VersionId, source: NodeId, target: NodeId, t: ReplicaId,
                 net: RebalanceNet)
    returns (p: Phase, ghost points: seq<Point>)
    requires m.Valid() && c.Valid() && v in m.db.versions && target in m.db.nodes && source != target
    requires IsRow(m.db.replicas, t, v, target) && m.db.replicas[t].status == Healthy
    modifies m`db, c`disks
    ensures m.Valid() && m.db == old(m.db).(replicas := m.db.replicas)
    ensures ChangedAt(old(c.disks), c.disks, target, v)
    ensures m.db.replicas == old(m.db.replicas) || OnlyAt(old(m.db.replicas), m.db.replicas, t, v, target)
    ensures var start := Point(old(m.db.replicas), old(c.disks));
            var version := old(m.db.versions)[v];
            var answered := net.recheckTarget == Reached && (target, v) in start.disks
              && start.disks[(target, v)].sound;
            var intact := Intact(c.hash, start.disks, target, v, version);
            && (p == Done <==> answered && (intact || CopySucceeds(c.hash, version, start, v, source, net)))
            && (p == Dead <==> net.recheckTarget == Dies
                               || (answered && !intact && CopyDies(c.hash, version, start, v, source, true, net)))
    ensures p == Done ==> TargetReady(c.hash, m.db.versions[v], Point(m.db.replicas, c.disks), v, target)
                          && |HealthyRows(m.db.replicas, v)| == |HealthyRows(old(m.db.replicas), v)|
    ensures Worked(old(m.db.replicas), m.db.replicas, t)
    // anything but the same rows and bytes means that the start was not safe
    ensures Safe(c.hash, old(m.db), old(c.disks))
            || AllGood(c.hash, m.db.versions[v], v, old(m.db.replicas), old(c.disks)) ==>
              m.db == old(m.db) && c.disks == old(c.disks)
    ensures RanThrough(c.hash, m.db.versions[v], v, points, Point(old(m.db.replicas), old(c.disks)),
                       Point(m.db.replicas, c.disks), |HealthyRows(old(m.db.replicas), v)|)
  {
    ghost var start := Point(m.db.replicas, c.disks);
    RanNowhere(c.hash, m.db.versions[v], v, start, |HealthyRows(start.replicas, v)|);
    points := [start];
    var measured := c.Verify(target, v, net.recheckTarget, true);
    if measured == Died {
      return Dead, points;
    }
    if !measured.Measured? {
      return Raised(ClientError), points;
    }
    if Agrees(measured, m.db.versions[v]) {
      return Done, points;
    }
    NotGood(c.hash, m.db, c.disks, v, target, t);
    p, points := CopyOver(m, c, v, source, target, t, net);
    RanThroughIs(c.hash, m.db.versions[v], v, points, start, Point(m.db.replicas, c.disks),
                 |HealthyRows(start.replicas, v)|);
  }

  lemma NotGood(hash: Hash, db: Tables, disks: Disks, v: VersionId, n: NodeId, t: ReplicaId)
    requires v in db.versions && IsRow(db.replicas, t, v, n) && db.replicas[t].status == Healthy
    requires !Intact(hash, disks, n, v, db.versions[v])
    ensures !Safe(hash, db, disks) && !AllGood(hash, db.versions[v], v, db.replicas, disks)
  {
    assert !Backed(hash, db, disks, t);
    assert t in HealthyRows(db.replicas, v) && t !in GoodRows(hash, db.versions[v], v, db.replicas, disks);
  }

  /** A target that turned out not to hold the version loses its HEALTHY state and is copied to. */
  method CopyOver(m: MM.MetadataManager, c: Cluster, v: VersionId, source: NodeId, target: NodeId, t: ReplicaId,
                  net: RebalanceNet)
    returns (p: Phase, ghost points: seq<Point>)
    requires m.Valid() && c.Valid() && v in m.db.versions && target in m.db.nodes && source != target
    requires IsRow(m.db.replicas, t, v, target) && m.db.replicas[t].status == Healthy
    requires !Intact(c.hash, c.disks, target, v, m.db.versions[v])
    modifies m`db, c`disks
    ensures m.Valid() && m.db == old(m.db).(replicas := m.db.replicas)
    ensures ChangedAt(old(c.disks), c.disks, target, v)
    ensures OnlyAt(old(m.db.replicas), m.db.replicas, t, v, target)
    ensures p == Done <==>
              CopySucceeds(c.hash, old(m.db.versions)[v], Point(old(m.db.replicas), old(c.disks)), v, source, net)
    ensures p == Dead <==>
              CopyDies(c.hash, old(m.db.versions)[v], Point(old(m.db.replicas), old(c.disks)), v, source, true, net)
    ensures p == Done ==> TargetReady(c.hash, m.db.versions[v], Point(m.db.replicas, c.disks), v, target)
                          && |HealthyRows(m.db.replicas, v)| == |HealthyRows(old(m.db.replicas), v)|
    ensures Worked(old(m.db.replicas), m.db.replicas, t)
    ensures Trace(points, {v}, Point(old(m.db.replicas), old(c.disks)), Point(m.db.replicas, c.disks))
  {
    ghost var start := Point(m.db.replicas, c.disks);
    var _ := m.SetReplicaState(t, Corrupted);
    m.Opened();
    ghost var demoted := Point(m.db.replicas, c.disks);
    Demoted(start, demoted, v, source, target, t);
    ghost var u, more;
    p, u, more := CopyToTarget(m, c, v, source, target, net);
    ghost var end := Point(m.db.replicas, c.disks);
    TraceJoin([start, demoted], more, {v}, start, demoted, end);
    points := Joined([start, demoted], more);
    CopiedOver(start.replicas, demoted.replicas, end.replicas, v, target, t, u, p == Done);
  }

  /** Demoting the target row is one action, takes one HEALTHY row away, and none from the source. */
  lemma Demoted(start: Point, demoted: Point, v: VersionId, source: NodeId, target: NodeId, t: ReplicaId)
    requires forall r, s :: RowOk(demoted.replicas, r, s)
    requires IsRow(start.replicas, t, v, target) && start.replicas[t].status == Healthy && source != target
    requires demoted == Point(WithStatus(start.replicas, t, Corrupted), start.disks)
    ensures Trace([start, demoted], {v}, start, demoted)
    ensures |HealthyRows(demoted.replicas, v)| == |HealthyRows(start.replicas, v)| - 1
    ensures HasHealthy(demoted.replicas, v, source) <==> HasHealthy(start.replicas, v, source)
    ensures forall s :: s in demoted.replicas && IsRow(demoted.replicas, s, v, target) ==> s == t
  {
    assert HealthyRows(demoted.replicas, v) == HealthyRows(start.replicas, v) - {t};
    forall s ensures IsRow(start.replicas, s, v, source) <==> IsRow(demoted.replicas, s, v, source) {
    }
    forall s | s in demoted.replicas && IsRow(demoted.replicas, s, v, target) ensures s == t {
      assert RowOk(demoted.replicas, s, t);
    }
    TraceStarts(start, {v});
    ByRow(start, demoted, {v}, t);
    TraceMore([start], {v}, start, start, demoted);
    assert [start] + [demoted] == [start, demoted];
  }

  lemma CopiedOver(start: map<ReplicaId, Replica>, demoted: map<ReplicaId, Replica>, end: map<ReplicaId, Replica>,
                   v: VersionId, n: NodeId,
                   t: ReplicaId, u: ReplicaId, done: bool)
    requires IsRow(start, t, v, n) && demoted == WithStatus(start, t, Corrupted)
    requires forall s :: s in demoted && IsRow(demoted, s, v, n) ==> s == t
    requires |HealthyRows(demoted, v)| == |HealthyRows(start, v)| - 1
    requires end == demoted || Retargeted(demoted, end, u, v, n, COPYABLE, if done then Healthy else Copying)
    requires done ==> end != demoted
    ensures OnlyAt(start, end, t, v, n) && Worked(start, end, t)
    ensures done ==> HasHealthy(end, v, n) && |HealthyRows(end, v)| == |HealthyRows(start, v)|
  {
    assert IsRow(demoted, t, v, n);
    if end != demoted {
      assert u == t;
      RetargetedHealthy(demoted, end, u, v, n, COPYABLE, if done then Healthy else Copying);
      assert IsRow(end, u, v, n);
    }
  }

  /** What a copy means for safety and for the number of good copies. */
  lemma CopiedFacts(hash: Hash, before: Tables, after: Tables, disks: Disks, disks': Disks, t: ReplicaId, v: VersionId,
                    n: NodeId,
                    p: Phase, points: seq<Point>)
    requires Consistent(before) && Consistent(after) && v in before.versions
             && after == before.(replicas := after.replicas)
    requires NoHealthyAt(before.replicas, v, n) && ChangedAt(disks, disks', n, v)
    requires after.replicas == before.replicas
             || Retargeted(before.replicas, after.replicas, t, v, n, COPYABLE, if p == Done then Healthy else Copying)
    requires p == Done ==> after.replicas != before.replicas && Intact(hash, disks', n, v, after.versions[v])
    requires forall i :: 0 <= i < |points| ==> Near(before.replicas, disks, points[i], t, v, n)
    requires Trace(points, {v}, Point(before.replicas, disks), Point(after.replicas, disks'))
    ensures after.replicas == before.replicas || OnlyAt(before.replicas, after.replicas, t, v, n)
    ensures p == Done ==> TargetReady(hash, after.versions[v], Point(after.replicas, disks'), v, n)
    ensures p == Done ==> |HealthyRows(after.replicas, v)| == |HealthyRows(before.replicas, v)| + 1
    ensures Safe(hash, before, disks) ==> Safe(hash, after, disks')
    ensures RanThrough(hash, before.versions[v], v, points, Point(before.replicas, disks),
                       Point(after.replicas, disks'),
                       |HealthyRows(before.replicas, v)|)
    ensures Worked(before.replicas, after.replicas, t)
    ensures p == Done && AllGood(hash, before.versions[v], v, before.replicas, disks) ==>
              AllGood(hash, before.versions[v], v, after.replicas, disks')
    ensures |HealthyRows(after.replicas, v)| >= |HealthyRows(before.replicas, v)|
  {
    var to := if p == Done then Healthy else Copying;
    if after.replicas != before.replicas {
      RetargetedHealthy(before.replicas, after.replicas, t, v, n, COPYABLE, to);
      GoodUntouched(hash, before.versions[v], v, before.replicas, after.replicas, disks, disks', t, n, COPYABLE, to);
    }
    if Safe(hash, before, disks) {
      if after.replicas == before.replicas {
        forall r | r in before.replicas && before.replicas[r].version == v && before.replicas[r].node == n
          ensures before.replicas[r].status != Healthy
        {
          assert IsRow(before.replicas, r, v, n);
        }
        SafeElsewhere(hash, before, disks, disks', n, v);
      } else {
        RetargetedSafe(hash, before, after, disks, disks', t, v, n, COPYABLE, to);
      }
    }
    var version, least := before.versions[v], |GoodRows(hash, before.versions[v], v, before.replicas, disks)|;
    forall i: nat ensures EnoughAt(hash, version, v, points, least, i) {
      if i < |points| {
        NearIsEnough(hash, version, before.replicas, disks, points[i], t, v, n);
      }
    }
    RanThroughIs(hash, version, v, points, Point(before.replicas, disks), Point(after.replicas, disks'),
                 |HealthyRows(before.replicas, v)|);
  }

  /** A DELETE that took effect without a success being reported. */
  predicate Lost(how: Deletion) {
    !how.DeleteDone? && how.effect
  }

  lemma NoRowAfterRemoval(replicas: map<ReplicaId, Replica>, s: ReplicaId, v: VersionId, n: NodeId)
    requires forall a, b :: RowOk(replicas, a, b)
    requires IsRow(replicas, s, v, n)
    ensures !HasRow(replicas - {s}, v, n)
  {
    forall r | r in replicas - {s} ensures !IsRow(replicas - {s}, r, v, n) {
      assert RowOk(replicas, r, s);
    }
  }

  /** Bytes and row of a node that no longer backs a HEALTHY row are gone together. */
  lemma SourceGone(hash: Hash, before: Tables, after: Tables, disks: Disks, disks': Disks, v: VersionId, n: NodeId)
    requires Consistent(before) && after == before.(replicas := after.replicas)
    requires ChangedAt(disks, disks', n, v)
    requires Without(before.replicas, after.replicas, v, n)
    requires NoHealthyAt(after.replicas, v, n)
    requires Safe(hash, before, disks)
    ensures Safe(hash, after, disks')
  {
    SafeRows(hash, before, after, disks);
    forall r | r in after.replicas && after.replicas[r].version == v && after.replicas[r].node == n
      ensures after.replicas[r].status != Healthy
    {
      assert IsRow(after.replicas, r, v, n);
    }
    SafeElsewhere(hash, after, disks, disks', n, v);
  }

  const REMOVABLE := {Healthy, Corrupted, Stale, Unavailable}

  /** The source row, if there still is one, can be removed. */
  ghost predicate SourceRemovable(replicas: map<ReplicaId, Replica>, v: VersionId, n: NodeId) {
    forall s :: s in replicas && IsRow(replicas, s, v, n) ==> replicas[s].status in REMOVABLE
  }

  /** Remove the source, bytes first, and only while more than `rf` replicas are HEALTHY. */
  method RemoveSource(m: MM.MetadataManager, c: Cluster, rf: nat, v: VersionId, n: NodeId, how: Deletion)
    returns (p: Phase, ghost points: seq<Point>, ghost lost: bool)
    requires m.Valid() && c.Valid() && v in m.db.versions
    modifies m`db, c`disks
    ensures m.Valid() && m.db == old(m.db).(replicas := m.db.replicas)
    ensures ChangedAt(old(c.disks), c.disks, n, v) && Without(old(m.db.replicas), m.db.replicas, v, n)
    ensures |HealthyRows(old(m.db.replicas), v)| <= rf ==> p == Raised(InvalidState) && c.disks == old(c.disks)
    ensures p != Done ==> m.db == old(m.db)
    ensures p == Done ==> !HasRow(m.db.replicas, v, n) && (n, v) !in c.disks
    ensures p == Done <==>
              |HealthyRows(old(m.db.replicas), v)| > rf && how.DeleteDone? && SourceRemovable(old(m.db.replicas), v, n)
    ensures p == Dead <==> |HealthyRows(old(m.db.replicas), v)| > rf && how.DeleteDies?
    ensures lost <==> |HealthyRows(old(m.db.replicas), v)| > rf && Lost(how) && HasHealthy(old(m.db.replicas), v, n)
    ensures lost ==> p != Done && (n, v) !in c.disks
    ensures Safe(c.hash, old(m.db), old(c.disks)) ==> (Safe(c.hash, m.db, c.disks) <==> !lost)
    ensures RanThrough(c.hash, m.db.versions[v], v, points, Point(old(m.db.replicas), old(c.disks)),
                       Point(m.db.replicas, c.disks), rf)
  {
    m.Opened();
    ghost var version, start := m.db.versions[v], Point(m.db.replicas, c.disks);
    RanNowhere(c.hash, version, v, start, rf);
    RanThroughIs(c.hash, version, v, [start], start, start, rf);
    points, lost := [start], false;
    if |HealthyRows(m.db.replicas, v)| <= rf {
      return Raised(InvalidState), points, lost;
    }
    var called := c.Delete(n, v, how);
    ghost var gone := Point(m.db.replicas, c.disks);
    ByCall(start, gone, {v}, n, v);
    assert ChangedAt(start.disks, gone.disks, n, v);
    RemovalStep(c.hash, version, v, points, start, start, gone, n, rf);
    points := points + [gone];
    RanThroughIs(c.hash, version, v, points, start, gone, rf);
    if called != Answered {
      lost := Lost(how) && HasHealthy(m.db.replicas, v, n);
      if Safe(c.hash, m.db, start.disks) {
        UnansweredDelete(c.hash, m.db, start.disks, c.disks, v, n, how);
      }
      return if called == Gone then Dead else Raised(ClientError), points, lost;
    }
    p, points := RemoveRow(m, c, rf, v, n, start, points);
    RanThroughIs(c.hash, version, v, points, start, Point(m.db.replicas, c.disks), rf);
  }

  /** A DELETE without an answer breaks safety exactly when it took effect under a HEALTHY row. */
  lemma UnansweredDelete(hash: Hash, db: Tables, disks: Disks, disks': Disks, v: VersionId, n: NodeId, how: Deletion)
    requires Consistent(db) && v in db.versions && Safe(hash, db, disks) && !how.DeleteDone?
    requires disks' == if how.effect then disks - {(n, v)} else disks
    ensures Safe(hash, db, disks') <==> !(Lost(how) && HasHealthy(db.replicas, v, n))
  {
    if Lost(how) {
      if HasHealthy(db.replicas, v, n) {
        var s :| s in db.replicas && IsRow(db.replicas, s, v, n) && db.replicas[s].status == Healthy;
        assert !Backed(hash, db, disks', s);
      } else {
        assert ChangedAt(disks, disks', n, v);
        SourceGone(hash, db, db, disks, disks', v, n);
      }
    }
  }

  /** After an answered DELETE the source row goes too, if there is one and its state allows it. */
  method RemoveRow(m: MM.MetadataManager, c: Cluster, rf: nat, v: VersionId, n: NodeId, ghost start: Point,
                   ghost points: seq<Point>)
    returns (p: Phase, ghost points': seq<Point>)
    requires m.Valid() && v in m.db.versions && start.replicas == m.db.replicas && ChangedAt(start.disks, c.disks, n, v)
    requires |HealthyRows(m.db.replicas, v)| > rf && Trace(points, {v}, start, Point(m.db.replicas, c.disks))
    requires AllGood(c.hash, m.db.versions[v], v, start.replicas, start.disks) ==>
               AlwaysEnough(c.hash, m.db.versions[v], v, points, rf)
    modifies m`db
    ensures m.Valid() && m.db == old(m.db).(replicas := m.db.replicas)
    ensures Without(old(m.db.replicas), m.db.replicas, v, n) && (p != Done ==> m.db == old(m.db))
    ensures p == Done ==> !HasRow(m.db.replicas, v, n)
    ensures p != Dead && (p == Done <==> SourceRemovable(old(m.db.replicas), v, n))
    ensures Safe(c.hash, old(m.db), start.disks) ==> Safe(c.hash, m.db, c.disks)
    ensures Trace(points', {v}, start, Point(m.db.replicas, c.disks))
    ensures AllGood(c.hash, m.db.versions[v], v, start.replicas, start.disks) ==>
              AlwaysEnough(c.hash, m.db.versions[v], v, points', rf)
  {
    m.Opened();
    points' := points;
    ghost var gone := Point(m.db.replicas, c.disks);
    var row := m.FindRow(v, n);
    if row.None? {
      p := Done;
    } else {
      forall s | s in m.db.replicas && IsRow(m.db.replicas, s, v, n) ensures s == row.value {
        assert RowOk(m.db.replicas, s, row.value);
      }
      p := DropRow(m, v, n, row.value);
      if p == Done {
        ByRow(gone, Point(m.db.replicas, c.disks), {v}, row.value);
        RemovalStep(c.hash, m.db.versions[v], v, points, start, gone, Point(m.db.replicas, c.disks), n, rf);
        points' := points + [Point(m.db.replicas, c.disks)];
      }
    }
    if Safe(c.hash, old(m.db), start.disks) {
      SourceGone(c.hash, old(m.db), m.db, start.disks, c.disks, v, n);
    }
  }

  method DropRow(m: MM.MetadataManager, v: VersionId, n: NodeId, s: ReplicaId) returns (p: Phase)
    requires m.Valid() && IsRow(m.db.replicas, s, v, n)
    modifies m`db
    ensures m.Valid()
    ensures p.Done? || p.Raised?
    ensures p == Done <==> old(m.db.replicas)[s].status in REMOVABLE
    ensures m.db == if p == Done then old(m.db).(replicas := old(m.db.replicas) - {s}) else old(m.db)
    ensures p == Done ==> !HasRow(m.db.replicas, v, n)
  {
    m.Opened();
    NoRowAfterRemoval(m.db.replicas, s, v, n);
    var removed := m.RemoveReplica(s);
    p := if removed.Ok? then Done else Raised(removed.error);
  }

  /** A migration of v from one node to another touches no row but those two, and adds none on the source. */
  ghost predicate MovedRow(before: map<ReplicaId, Replica>, after: map<ReplicaId, Replica>, v: VersionId,
                           source: NodeId, target: NodeId, r: ReplicaId) {
    && (r in before && !IsRow(before, r, v, source) && !IsRow(before, r, v, target) ==>
          r in after && after[r] == before[r])
    && (r in after && !IsRow(after, r, v, target) ==> r in before && after[r] == before[r])
  }

  ghost predicate Moved(before: map<ReplicaId, Replica>, after: map<ReplicaId, Replica>, v: VersionId, source: NodeId,
                        target: NodeId) {
    forall r :: MovedRow(before, after, v, source, target, r)
  }

  lemma MovedBy(before: map<ReplicaId, Replica>, mid: map<ReplicaId, Replica>, after: map<ReplicaId, Replica>,
                t: ReplicaId,
                v: VersionId, source: NodeId, target: NodeId)
    requires mid == before || OnlyAt(before, mid, t, v, target)
    requires Without(mid, after, v, source)
    ensures Moved(before, after, v, source, target)
  {
    forall r ensures MovedRow(before, after, v, source, target, r) {
    }
  }

  /** What it takes for a migration to succeed. */
  ghost predicate MovePossible(hash: Hash, version: Version, p: Point, rf: nat, v: VersionId, source: NodeId,
                               target: NodeId, net: RebalanceNet)
  {
    && TargetPossible(hash, version, p, v, source, target, net) && ReadyCount(p.replicas, v, target) > rf
    && net.deleteSource.DeleteDone? && SourceRemovable(p.replicas, v, source)
  }

  /** What it takes for the source DELETE to be lost under a HEALTHY row: it takes effect but does not say so. */
  ghost predicate LossPossible(hash: Hash, version: Version, p: Point, rf: nat, v: VersionId, source: NodeId,
                               target: NodeId, net: RebalanceNet)
  {
    && TargetPossible(hash, version, p, v, source, target, net) && ReadyCount(p.replicas, v, target) > rf
    && Lost(net.deleteSource) && HasHealthy(p.replicas, v, source)
  }

  /** A move gets to a call that never returns. */
  ghost predicate MoveDies(hash: Hash, version: Version, p: Point, rf: nat, v: VersionId, source: NodeId,
                           target: NodeId, net: RebalanceNet)
  {
    || TargetDies(hash, version, p, v, source, target, net)
    || (TargetPossible(hash, version, p, v, source, target, net) && ReadyCount(p.replicas, v, target) > rf
        && net.deleteSource.DeleteDies?)
  }

  /** The source may go: the target is ready, and more than rf rows are HEALTHY. */
  ghost predicate SourceFree(hash: Hash, version: Version, p: Point, rf: nat, v: VersionId, source: NodeId,
                             target: NodeId, net: RebalanceNet)
  {
    TargetPossible(hash, version, p, v, source, target, net) && ReadyCount(p.replicas, v, target) > rf
  }

  /** Bytes change only on the target, and on the source once it may go. */
  ghost predicate KeptBytes(before: Disks, after: Disks, v: VersionId, source: NodeId, target: NodeId, free: bool,
                            k: (NodeId, VersionId)) {
    k != (target, v) && (k != (source, v) || !free) ==> SameAt(before, after, k)
  }

  /** The source row goes only with success; the target row is HEALTHY, COPYING or CORRUPTED, or as before. */
  ghost predicate KeptRow(before: map<ReplicaId, Replica>, after: map<ReplicaId, Replica>, v: VersionId,
                          source: NodeId, target: NodeId, done: bool, r: ReplicaId) {
    && (IsRow(before, r, v, source) && !done ==> r in after && after[r] == before[r])
    && (IsRow(after, r, v, target) ==>
          (r in before && after[r] == before[r]) || after[r].status in {Healthy, Copying, Corrupted})
  }

  /** What a move leaves alone: `free` is whether the source may go, `done` whether the move succeeds. */
  ghost predicate Kept(start: Point, end: Point, v: VersionId, source: NodeId, target: NodeId, free: bool, done: bool) {
    && (forall k :: KeptBytes(start.disks, end.disks, v, source, target, free, k))
    && (forall r :: KeptRow(start.replicas, end.replicas, v, source, target, done, r))
  }

  lemma KeptBy(start: Point, mid: Point, end: Point, v: VersionId, source: NodeId, target: NodeId, t: ReplicaId,
               free: bool, done: bool)
    requires source != target && ChangedAt(start.disks, mid.disks, target, v)
    requires mid.replicas == start.replicas || OnlyAt(start.replicas, mid.replicas, t, v, target)
    requires Worked(start.replicas, mid.replicas, t)
    requires if free then ChangedAt(mid.disks, end.disks, source, v) else end.disks == mid.disks
    requires if done then Without(mid.replicas, end.replicas, v, source) else end.replicas == mid.replicas
    ensures Kept(start, end, v, source, target, free, done)
  {
    forall k ensures KeptBytes(start.disks, end.disks, v, source, target, free, k) {
      assert k in start.disks - {(target, v)} <==> k in mid.disks - {(target, v)};
      assert free ==> (k in mid.disks - {(source, v)} <==> k in end.disks - {(source, v)});
    }
    forall r ensures KeptRow(start.replicas, end.replicas, v, source, target, done, r) {
    }
  }

  /** A move that does not succeed leaves the source its row. */
  lemma KeptSourceRow(start: Point, end: Point, v: VersionId, source: NodeId, target: NodeId, free: bool)
    requires Kept(start, end, v, source, target, free, false)
    ensures HasRow(start.replicas, v, source) ==> HasRow(end.replicas, v, source)
  {
    if r :| r in start.replicas && IsRow(start.replicas, r, v, source) {
      assert KeptRow(start.replicas, end.replicas, v, source, target, false, r);
      assert IsRow(end.replicas, r, v, source);
    }
  }

  datatype RebalanceResult = RebalanceResult(job: JobId, status: JobStatus, sourceRemoved: bool)

  /** The move itself, after the attempt has been recorded: first the target, then the source. */
  method Move(m: MM.MetadataManager, c: Cluster, rf: nat, v: VersionId, source: NodeId, target: NodeId,
              net: RebalanceNet)
    returns (p: Phase, ghost points: seq<Point>, ghost lost: bool)
    requires m.Valid() && c.Valid() && v in m.db.versions && target in m.db.nodes && source != target
    modifies m`db, c`disks
    ensures m.Valid() && m.db == old(m.db).(replicas := m.db.replicas)
    ensures Moved(old(m.db.replicas), m.db.replicas, v, source, target)
    ensures p == Done ==>
              && TargetReady(c.hash, m.db.versions[v], Point(m.db.replicas, c.disks), v, target)
              && !HasRow(m.db.replicas, v, source) && (source, v) !in c.disks
              && |HealthyRows(m.db.replicas, v)| >= rf
    ensures var possible := MovePossible(c.hash, old(m.db.versions)[v], Point(old(m.db.replicas), old(c.disks)), rf, v,
                                         source, target, net);
            p == Done <==> possible
    ensures var losing := LossPossible(c.hash, old(m.db.versions)[v], Point(old(m.db.replicas), old(c.disks)), rf, v,
                                       source, target, net);
            lost <==> losing
    ensures var dying := MoveDies(c.hash, old(m.db.versions)[v], Point(old(m.db.replicas), old(c.disks)), rf, v,
                                  source, target, net);
            p == Dead <==> dying
    ensures var free := SourceFree(c.hash, old(m.db.versions)[v], Point(old(m.db.replicas), old(c.disks)), rf, v,
                                   source, target, net);
            Kept(Point(old(m.db.replicas), old(c.disks)), Point(m.db.replicas, c.disks), v, source, target, free,
                 p == Done)
    ensures lost ==> HasHealthy(m.db.replicas, v, source) && (source, v) !in c.disks
    ensures Safe(c.hash, old(m.db), old(c.disks)) ==> (Safe(c.hash, m.db, c.disks) <==> !lost)
    ensures RanThrough(c.hash, m.db.versions[v], v, points, Point(old(m.db.replicas), old(c.disks)),
                       Point(m.db.replicas, c.disks), rf)
  {
    lost := false;
    ghost var start, t, more := Point(m.db.replicas, c.disks), 0, [];
    p, t, points := ReadyTarget(m, c, v, source, target, net);
    ghost var mid := Point(m.db.replicas, c.disks);
    MovedBy(start.replicas, mid.replicas, mid.replicas, t, v, source, target);
    if p != Done {
      RanLess(c.hash, m.db.versions[v], v, points, start, mid, rf);
      KeptBy(start, mid, mid, v, source, target, t, false, false);
      return;
    }
    p, more, lost := LeaveSource(m, c, rf, v, source, target, net.deleteSource);
    MoveFacts(c.hash, m.db.versions[v], v, points, more, start, mid, Point(m.db.replicas, c.disks), t, source, target,
              rf);
    KeptBy(start, mid, Point(m.db.replicas, c.disks), v, source, target, t, |HealthyRows(mid.replicas, v)| > rf,
           p == Done);
    points := Joined(points, more);
  }

  /** The two halves of a move, put together. */
  lemma MoveFacts(hash: Hash, version: Version, v: VersionId, a: seq<Point>, b: seq<Point>, start: Point, mid: Point,
                  end: Point, t: ReplicaId, source: NodeId, target: NodeId, rf: nat)
    requires source != target && (mid.replicas == start.replicas || OnlyAt(start.replicas, mid.replicas, t, v, target))
    requires Without(mid.replicas, end.replicas, v, source)
    requires RanThrough(hash, version, v, a, start, mid, |HealthyRows(start.replicas, v)|)
    requires RanThrough(hash, version, v, b, mid, end, rf)
    requires AllGood(hash, version, v, start.replicas, start.disks) ==>
               && AllGood(hash, version, v, mid.replicas, mid.disks)
               && |HealthyRows(mid.replicas, v)| >= |HealthyRows(start.replicas, v)|
    ensures HasHealthy(start.replicas, v, source) <==> HasHealthy(mid.replicas, v, source)
    ensures SourceRemovable(start.replicas, v, source) <==> SourceRemovable(mid.replicas, v, source)
    ensures RanThrough(hash, version, v, Joined(a, b), start, end, rf)
    ensures Moved(start.replicas, end.replicas, v, source, target)
  {
    KeptSource(start.replicas, mid.replicas, t, v, source, target);
    RanOn(hash, version, v, a, b, start, mid, end, rf);
    MovedBy(start.replicas, mid.replicas, end.replicas, t, v, source, target);
  }

  /** Work on the target does not touch the source's row. */
  lemma KeptSource(before: map<ReplicaId, Replica>, mid: map<ReplicaId, Replica>, t: ReplicaId, v: VersionId,
                   source: NodeId, target: NodeId)
    requires mid == before || OnlyAt(before, mid, t, v, target)
    requires source != target
    ensures HasHealthy(before, v, source) <==> HasHealthy(mid, v, source)
    ensures SourceRemovable(before, v, source) <==> SourceRemovable(mid, v, source)
  {
    forall s ensures IsRow(before, s, v, source) <==> IsRow(mid, s, v, source) {
    }
  }

  /** The second half of a move: the target is ready, so the source may go. */
  method LeaveSource(m: MM.MetadataManager, c: Cluster, rf: nat, v: VersionId, source: NodeId, target: NodeId,
                     how: Deletion)
    returns (p: Phase, ghost points: seq<Point>, ghost lost: bool)
    requires m.Valid() && c.Valid() && v in m.db.versions && source != target
             && TargetReady(c.hash, m.db.versions[v], Point(m.db.replicas, c.disks), v, target)
    modifies m`db, c`disks
    ensures m.Valid() && m.db == old(m.db).(replicas := m.db.replicas)
    ensures Without(old(m.db.replicas), m.db.replicas, v, source) && (p != Done ==> m.db == old(m.db))
    ensures if |HealthyRows(old(m.db.replicas), v)| > rf then ChangedAt(old(c.disks), c.disks, source, v)
            else c.disks == old(c.disks)
    ensures p == Done ==>
              && TargetReady(c.hash, m.db.versions[v], Point(m.db.replicas, c.disks), v, target)
              && !HasRow(m.db.replicas, v, source) && (source, v) !in c.disks
              && |HealthyRows(m.db.replicas, v)| >= rf
    ensures p == Done <==>
              |HealthyRows(old(m.db.replicas), v)| > rf && how.DeleteDone?
                && SourceRemovable(old(m.db.replicas), v, source)
    ensures p == Dead <==> |HealthyRows(old(m.db.replicas), v)| > rf && how.DeleteDies?
    ensures lost <==>
              |HealthyRows(old(m.db.replicas), v)| > rf && Lost(how) && HasHealthy(old(m.db.replicas), v, source)
    ensures lost ==> HasHealthy(m.db.replicas, v, source) && (source, v) !in c.disks
    ensures Safe(c.hash, old(m.db), old(c.disks)) ==> (Safe(c.hash, m.db, c.disks) <==> !lost)
    ensures RanThrough(c.hash, m.db.versions[v], v, points, Point(old(m.db.replicas), old(c.disks)),
                       Point(m.db.replicas, c.disks), rf)
  {
    m.Opened();
    p, points, lost := RemoveSource(m, c, rf, v, source, how);
    if p == Done {
      MoveEnds(c.hash, old(m.db), m.db, old(c.disks), c.disks, v, source, target);
    }
  }

  lemma MoveEnds(hash: Hash, mid: Tables, after: Tables, disks: Disks, disks': Disks, v: VersionId, source: NodeId,
                 target: NodeId)
    requires Consistent(mid) && after == mid.(replicas := after.replicas) && source != target
    requires v in mid.versions && TargetReady(hash, mid.versions[v], Point(mid.replicas, disks), v, target)
             && ChangedAt(disks, disks', source, v)
    requires Without(mid.replicas, after.replicas, v, source)
    ensures TargetReady(hash, mid.versions[v], Point(after.replicas, disks'), v, target)
    ensures |HealthyRows(after.replicas, v)| >= |HealthyRows(mid.replicas, v)| - 1
  {
    IntactElsewhere(hash, disks, disks', source, v, target, v, mid.versions[v]);
    var r :| r in mid.replicas && IsRow(mid.replicas, r, v, target) && mid.replicas[r].status == Healthy;
    assert IsRow(after.replicas, r, v, target);
    if after.replicas != mid.replicas {
      var s :| s in mid.replicas && IsRow(mid.replicas, s, v, source) && after.replicas == mid.replicas - {s};
      assert HealthyRows(after.replicas, v) == HealthyRows(mid.replicas, v) - {s};
    }
  }

  /** A run gets to its node calls. */
  predicate Starts(db: Tables, job: Job, maxAttempts: nat) {
    !Finished(job.progress, maxAttempts) && job.version in db.versions && db.versions[job.version].state == Committed
  }

  /**
    One run of a migration job, whatever its node calls do.

    `points` leads from the start of the run to its end, one action at a time; if the run starts with every
    HEALTHY row on correct bytes, at least min(h, rf) good copies exist at every one of them, lost DELETE or not.
    When the run succeeds, and when its DELETE is lost, is stated exactly; safety holds afterwards exactly when
    it was not.
   */
  method RunJob(m: MM.MetadataManager, c: Cluster, rf: nat, maxAttempts: nat, id: JobId, net: RebalanceNet)
    returns (r: Result<RebalanceResult, VaultError>, outcome: Outcome, ghost points: seq<Point>, ghost lost: bool)
    requires m.Valid() && c.Valid() && maxAttempts >= 1 && rf >= 1
    modifies m`db, c`disks
    ensures m.Valid()
    ensures Safe(c.hash, old(m.db), old(c.disks)) ==> (Safe(c.hash, m.db, c.disks) <==> !lost)
    ensures id !in old(m.db.rebalances) ==>
              && r == Err(ObjectNotFound) && outcome == Untouched && m.db == old(m.db) && c.disks == old(c.disks)
                 && !lost
              && points == [Point(m.db.replicas, c.disks)]
    ensures id in old(m.db.rebalances) ==>
              var job := old(m.db.rebalances)[id];
              var after := job.(progress := After(job.progress, maxAttempts, outcome));
              && m.db == old(m.db).(replicas := m.db.replicas, rebalances := old(m.db.rebalances)[id := after])
              && RunStep(job.progress, after.progress, maxAttempts, outcome)
              && Moved(old(m.db.replicas), m.db.replicas, job.version, job.source, job.target)
              && job.version in m.db.versions
              && (outcome == Untouched ==> m.db == old(m.db) && c.disks == old(c.disks))
              // an attempt counts one; a handled error leaves the job PENDING exactly while attempts are left
              && (outcome in {Succeeded, Errored, Outcome.Crashed} ==>
                    m.db.rebalances[id].progress.attempts == job.progress.attempts + 1)
              && (outcome == Errored ==>
                    m.db.rebalances[id].progress.status ==
                    if m.db.rebalances[id].progress.attempts < maxAttempts then JobPending else JobFailed)
              && (outcome == Succeeded ==> m.db.rebalances[id].progress.status == JobSucceeded)
              && (outcome == Outcome.Crashed ==> m.db.rebalances[id].progress.status == JobRunning)
              && (if Starts(old(m.db), job, maxAttempts) then outcome in {Succeeded, Errored, Outcome.Crashed}
                  else outcome == Untouched)
              && (outcome == Untouched <==>
                    || job.progress.status == JobSucceeded
                    || (job.progress.status == JobFailed && job.progress.attempts >= maxAttempts)
                    || old(m.db.versions)[job.version].state != Committed)
              && (outcome == Succeeded ==>
                    && TargetReady(c.hash, m.db.versions[job.version], Point(m.db.replicas, c.disks), job.version,
                                   job.target)
                    && !HasRow(m.db.replicas, job.version, job.source) && (job.source, job.version) !in c.disks
                    && |HealthyRows(m.db.replicas, job.version)| >= rf)
              && (outcome == Succeeded <==>
                    && Starts(old(m.db), job, maxAttempts)
                    && MovePossible(c.hash, old(m.db.versions)[job.version], Point(old(m.db.replicas), old(c.disks)),
                                    rf, job.version, job.source, job.target, net))
              && (outcome == Outcome.Crashed <==>
                    && Starts(old(m.db), job, maxAttempts)
                    && MoveDies(c.hash, old(m.db.versions)[job.version], Point(old(m.db.replicas), old(c.disks)),
                                rf, job.version, job.source, job.target, net))
              && (lost <==>
                    && Starts(old(m.db), job, maxAttempts)
                    && LossPossible(c.hash, old(m.db.versions)[job.version], Point(old(m.db.replicas), old(c.disks)),
                                    rf, job.version, job.source, job.target, net))
              && (lost ==> HasHealthy(m.db.replicas, job.version, job.source) && (job.source, job.version) !in c.disks)
              // the source's bytes go only once the target is ready, and its row only with success
              && Kept(Point(old(m.db.replicas), old(c.disks)), Point(m.db.replicas, c.disks), job.version, job.source,
                      job.target,
                      SourceFree(c.hash, old(m.db.versions)[job.version], Point(old(m.db.replicas), old(c.disks)), rf,
                                 job.version, job.source, job.target, net),
                      outcome == Succeeded)
              && (r.Ok? <==> outcome == Succeeded || Finished(job.progress, maxAttempts))
              && (r.Ok? ==> r.value == RebalanceResult(id, after.progress.status,
                                                       after.progress.status == JobSucceeded))
              && RanThrough(c.hash, m.db.versions[job.version], job.version, points,
                            Point(old(m.db.replicas), old(c.disks)),
                            Point(m.db.replicas, c.disks), rf)
  {
    m.Opened();
    points, lost := [Point(m.db.replicas, c.disks)], false;
    if id !in m.db.rebalances {
      return Err(ObjectNotFound), Untouched, points, lost;
    }
    var job := m.db.rebalances[id];
    assert RebalanceOk(m.db, id);
    assert m.db.rebalances == m.db.rebalances[id := job];
    RanNowhere(c.hash, m.db.versions[job.version], job.version, points[0], rf);
    MovedBy(m.db.replicas, m.db.replicas, m.db.replicas, 0, job.version, job.source, job.target);
    if Finished(job.progress, maxAttempts) {
      return Ok(RebalanceResult(id, job.progress.status, job.progress.status == JobSucceeded)), Untouched, points, lost;
    }
    if m.db.versions[job.version].state != Committed {
      return Err(InvalidState), Untouched, points, lost;
    }
    r, outcome, points, lost := MoveJob(m, c, rf, maxAttempts, id, net);
  }

  /** An attempt: the job is RUNNING, the move is made, and the job records how it ended. */
  method MoveJob(m: MM.MetadataManager, c: Cluster, rf: nat, maxAttempts: nat, id: JobId, net: RebalanceNet)
    returns (r: Result<RebalanceResult, VaultError>, outcome: Outcome, ghost points: seq<Point>, ghost lost: bool)
    requires m.Valid() && c.Valid() && maxAttempts >= 1
    requires id in m.db.rebalances && m.db.rebalances[id].version in m.db.versions
             && m.db.rebalances[id].target in m.db.nodes
    requires m.db.rebalances[id].source != m.db.rebalances[id].target
    modifies m`db, c`disks
    ensures m.Valid() && outcome in {Succeeded, Errored, Outcome.Crashed}
    ensures Safe(c.hash, old(m.db), old(c.disks)) ==> (Safe(c.hash, m.db, c.disks) <==> !lost)
    ensures var job := old(m.db.rebalances)[id];
            var after := job.(progress := After(job.progress, maxAttempts, outcome));
            var start, version := Point(old(m.db.replicas), old(c.disks)), old(m.db.versions)[job.version];
            var possible := MovePossible(c.hash, version, start, rf, job.version, job.source, job.target, net);
            var losing := LossPossible(c.hash, version, start, rf, job.version, job.source, job.target, net);
            var dying := MoveDies(c.hash, version, start, rf, job.version, job.source, job.target, net);
            && m.db == old(m.db).(replicas := m.db.replicas, rebalances := old(m.db.rebalances)[id := after])
            && Moved(old(m.db.replicas), m.db.replicas, job.version, job.source, job.target)
            && (outcome == Succeeded ==>
                  && TargetReady(c.hash, m.db.versions[job.version], Point(m.db.replicas, c.disks), job.version,
                                 job.target)
                  && !HasRow(m.db.replicas, job.version, job.source) && (job.source, job.version) !in c.disks
                  && |HealthyRows(m.db.replicas, job.version)| >= rf)
            && (outcome == Succeeded <==> possible) && (lost <==> losing) && (outcome == Outcome.Crashed <==> dying)
            && (lost ==> HasHealthy(m.db.replicas, job.version, job.source) && (job.source, job.version) !in c.disks)
            && Kept(start, Point(m.db.replicas, c.disks), job.version, job.source, job.target,
                    SourceFree(c.hash, version, start, rf, job.version, job.source, job.target,
                               net), outcome == Succeeded)
            && (r.Ok? <==> outcome == Succeeded) && (r.Ok? ==> r.value == RebalanceResult(id, JobSucceeded, true))
            && RanThrough(c.hash, m.db.versions[job.version], job.version, points,
                          Point(old(m.db.replicas), old(c.disks)),
                          Point(m.db.replicas, c.disks), rf)
  {
    m.Opened();
    var job := m.db.rebalances[id];
    assert RebalanceOk(m.db, id);
    var attempts := job.progress.attempts + 1;
    m.PutRebalance(id, job.(progress := Progress(JobRunning, attempts)));
    SameRowsSafe(c.hash, old(m.db), m.db, c.disks);
    SameRowsSafe(c.hash, m.db, old(m.db), c.disks);
    var p;
    p, points, lost := Move(m, c, rf, job.version, job.source, job.target, net);
    ghost var moved := m.db;
    match p {
      case Dead =>
        return Err(Aborted), Outcome.Crashed, points, lost;
      case Raised(error) =>
        var status := if attempts >= maxAttempts then JobFailed else JobPending;
        m.PutRebalance(id, job.(progress := Progress(status, attempts)));
        r, outcome := Err(error), Errored;
      case Done =>
        m.PutRebalance(id, job.(progress := Progress(JobSucceeded, attempts)));
        r, outcome := Ok(RebalanceResult(id, JobSucceeded, true)), Succeeded;
    }
    SameRowsSafe(c.hash, moved, m.db, c.disks);
    SameRowsSafe(c.hash, m.db, moved, c.disks);
  }

  // ----- Jobs and draining

  predicate IsActive(rebalances: map<JobId, Job>, j: JobId, v: VersionId, target: NodeId) {
    j in rebalances && rebalances[j].version == v && rebalances[j].target == target
      && InProgress(rebalances[j].progress)
  }

  ghost predicate NoneActive(rebalances: map<JobId, Job>) {
    forall j :: j in rebalances ==> !InProgress(rebalances[j].progress)
  }

  /** What a migration demands of its source and target. */
  ghost predicate Migratable(db: Tables, v: VersionId, source: NodeId, target: NodeId) {
    && v in db.versions && db.versions[v].state == Committed && source != target
    && source in db.nodes && target in db.nodes && HasHealthy(db.replicas, v, source)
    && db.nodes[target].status == NodeHealthy && Free(db.nodes[target]) >= db.versions[v].size
    && !HasRow(db.replicas, v, target)
  }

  method CreateJob(m: MM.MetadataManager, v: VersionId, source: NodeId, target: NodeId) returns (r: Result<JobId,
                                                                                                 VaultError>)
    requires m.Valid()
    modifies m`db
    ensures m.Valid()
    ensures r.Ok? <==> Migratable(old(m.db), v, source, target)
    ensures r.Ok? ==> IsActive(m.db.rebalances, r.value, v, target)
    ensures m.db != old(m.db) ==>
              && r.Ok? && r.value !in old(m.db.rebalances)
              && m.db == old(m.db).(rebalances := old(m.db.rebalances)[r.value := Job(v, source, target,
                                                                                      Progress(JobPending, 0))])
  {
    m.Opened();
    if v !in m.db.versions {
      return Err(ObjectNotFound);
    }
    if m.db.versions[v].state != Committed {
      return Err(InvalidState);
    }
    if source == target {
      return Err(ValueError);
    }
    if source !in m.db.nodes || target !in m.db.nodes {
      return Err(ObjectNotFound);
    }
    var row := m.FindRow(v, source);
    if row.None? {
      return Err(ObjectNotFound);
    }
    forall s | s in m.db.replicas && IsRow(m.db.replicas, s, v, source) ensures s == row.value {
      assert RowOk(m.db.replicas, s, row.value);
    }
    if m.db.replicas[row.value].status != Healthy {
      return Err(InvalidState);
    }
    if m.db.nodes[target].status != NodeHealthy {
      return Err(NodeUnavailableError);
    }
    if Free(m.db.nodes[target]) < m.db.versions[v].size {
      return Err(StorageFull);
    }
    if HasRow(m.db.replicas, v, target) {
      return Err(InvalidState);
    }
    assert Migratable(m.db, v, source, target);
    if j :| j in m.db.rebalances && IsActive(m.db.rebalances, j, v, target) {
      return Ok(j);
    }
    var id := FreshId(m.db.rebalances.Keys);
    m.PutRebalance(id, Job(v, source, target, Progress(JobPending, 0)));
    r := Ok(id);
  }

  /**
    Create, or find, the job of a migration and run it. With no other job active, it returns exactly when the
    migration is allowed and its calls let it succeed, and then has moved the row and left at least rf HEALTHY ones;
    whatever happens, `points` is what it leads through.
   */
  method MigrateReplica(m: MM.MetadataManager, c: Cluster, rf: nat, maxAttempts: nat, v: VersionId, source: NodeId,
                        target: NodeId,
                        net: RebalanceNet)
    returns (r: Result<RebalanceResult, VaultError>, ghost points: seq<Point>, ghost lost: bool)
    requires m.Valid() && c.Valid() && maxAttempts >= 1 && rf >= 1
    modifies m`db, c`disks
    ensures m.Valid()
    ensures m.db == old(m.db).(replicas := m.db.replicas, rebalances := m.db.rebalances)
    ensures Safe(c.hash, old(m.db), old(c.disks)) ==> (Safe(c.hash, m.db, c.disks) <==> !lost)
    ensures lost ==> Lost(net.deleteSource) && r.Err?
    ensures v in m.db.versions ==>
              RanThrough(c.hash, m.db.versions[v], v, points, Point(old(m.db.replicas), old(c.disks)),
                         Point(m.db.replicas, c.disks), rf)
    ensures NoneActive(old(m.db.rebalances)) ==>
              (r.Ok? <==>
                 && Migratable(old(m.db), v, source, target)
                 && MovePossible(c.hash, old(m.db.versions)[v], Point(old(m.db.replicas), old(c.disks)), rf, v, source,
                                 target, net))
    ensures NoneActive(old(m.db.rebalances)) ==>
              (lost <==>
                 && Migratable(old(m.db), v, source, target)
                 && LossPossible(c.hash, old(m.db.versions)[v], Point(old(m.db.replicas), old(c.disks)), rf, v, source,
                                 target, net))
    // a migration that fails leaves the source's row, and its bytes unless the target was ready
    ensures NoneActive(old(m.db.rebalances)) ==>
              if !Migratable(old(m.db), v, source, target) then m.db == old(m.db) && c.disks == old(c.disks)
              else
                var start := Point(old(m.db.replicas), old(c.disks));
                Kept(start, Point(m.db.replicas, c.disks), v, source, target,
                     SourceFree(c.hash, old(m.db.versions)[v], start, rf, v, source, target, net), r.Ok?)
    ensures r.Ok? && NoneActive(old(m.db.rebalances)) ==>
              && NoneActive(m.db.rebalances)
              && Moved(old(m.db.replicas), m.db.replicas, v, source, target)
              && !HasRow(m.db.replicas, v, source) && HasHealthy(m.db.replicas, v, target)
              && |HealthyRows(m.db.replicas, v)| >= rf
              && r.value.status == JobSucceeded && r.value.sourceRemoved
  {
    points, lost := [Point(m.db.replicas, c.disks)], false;
    if v in m.db.versions {
      RanNowhere(c.hash, m.db.versions[v], v, points[0], rf);
    }
    var created := CreateJob(m, v, source, target);
    SameRowsSafe(c.hash, old(m.db), m.db, c.disks);
    SameRowsSafe(c.hash, m.db, old(m.db), c.disks);
    if created.Err? {
      r := Err(created.error);
      return;
    }
    var outcome;
    r, outcome, points, lost := RunJob(m, c, rf, maxAttempts, created.value, net);
  }

  /**
    Run a new job any number of times, whatever happens: its attempts stay bounded by `maxAttempts` plus the
    runs in which a call never returned.
   */
  method RunRepeatedly(m: MM.MetadataManager, c: Cluster, rf: nat, maxAttempts: nat, id: JobId, nets: seq<RebalanceNet>)
    returns (ghost history: seq<Progress>, ghost outcomes: seq<Outcome>)
    requires m.Valid() && c.Valid() && rf >= 1 && maxAttempts >= 1
    requires id in m.db.rebalances && m.db.rebalances[id].progress == Progress(JobPending, 0)
    modifies m`db, c`disks
    ensures m.Valid() && id in m.db.rebalances && |outcomes| == |nets|
    ensures IsRun(history, outcomes, maxAttempts) && history[|outcomes|] == m.db.rebalances[id].progress
    ensures forall k :: 0 <= k < |nets| && outcomes[k] == Outcome.Crashed ==> Dying(nets[k])
    ensures Bounded(m.db.rebalances[id].progress, outcomes, DyingRuns(nets), maxAttempts)
            && Rejected !in outcomes
  {
    history, outcomes := [m.db.rebalances[id].progress], [];
    for k := 0 to |nets|
      invariant m.Valid() && id in m.db.rebalances && |outcomes| == k
      invariant IsRun(history, outcomes, maxAttempts) && history[k] == m.db.rebalances[id].progress
      invariant forall i :: 0 <= i < k && outcomes[i] == Outcome.Crashed ==> Dying(nets[i])
      invariant Crashes(outcomes) <= DyingRuns(nets[..k]) && Rejected !in outcomes
    {
      var _, outcome, points, lost := RunJob(m, c, rf, maxAttempts, id, nets[k]);
      RunGoesOn(history, outcomes, maxAttempts, m.db.rebalances[id].progress, outcome);
      assert nets[..k + 1][..k] == nets[..k] && (outcomes + [outcome])[..k] == outcomes;
      history, outcomes := history + [m.db.rebalances[id].progress], outcomes + [outcome];
    }
    assert nets[..|nets|] == nets;
    AttemptsBounded(history, outcomes, maxAttempts);
    StatusMeans(history, outcomes, maxAttempts);
  }
}
