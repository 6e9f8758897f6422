/** Draining a node: every row of a COMMITTED version is migrated off it. */
module Drain {
  import opened Base
  import opened Tables
  import opened Cluster
  import opened Traces
  import opened GoodCopies
  import opened Placement
  import opened Rebalance
  import MM = MetadataManager

  lemma OthersUnmoved(before: map<ReplicaId, Replica>, after: map<ReplicaId, Replica>, v: VersionId, source: NodeId,
                      target: NodeId, w: VersionId)
    requires Moved(before, after, v, source, target) && w != v
    ensures HealthyRows(after, w) == HealthyRows(before, w)
  {
    forall r ensures r in HealthyRows(after, w) <==> r in HealthyRows(before, w) {
      assert MovedRow(before, after, v, source, target, r);
    }
  }

  /** Rows of COMMITTED versions on a node. */
  function Drainable(db: Tables, n: NodeId): set<ReplicaId> {
    set r | r in db.replicas && db.replicas[r].node == n && db.replicas[r].version in db.versions
            && db.versions[db.replicas[r].version].state == Committed
  }

  /** Row r is on node n and its version is COMMITTED. */
  predicate CommittedOn(db: Tables, n: NodeId, r: ReplicaId) {
    && r in db.replicas && db.replicas[r].node == n && db.replicas[r].version in db.versions
    && db.versions[db.replicas[r].version].state == Committed
  }

  /** The version has a HEALTHY row on t, the best node that could take it at the start. */
  ghost predicate WentTo(before: Tables, now: map<ReplicaId, Replica>, node: NodeId, v: VersionId, t: NodeId) {
    && v in before.versions && IsBest(before.nodes, EligibleNodes(before, v, before.versions[v].size, {node}), t)
    && HasHealthy(now, v, t)
  }

  /**
    A row that draining has dealt with: its version has left the node for the best one, and still has rf HEALTHY
    rows.
   */
  ghost predicate DrainedRow(before: Tables, now: map<ReplicaId, Replica>, rf: nat, node: NodeId, r: ReplicaId) {
    && r in before.replicas && !HasRow(now, before.replicas[r].version, node)
    && |HealthyRows(now, before.replicas[r].version)| >= rf
    && exists t :: WentTo(before, now, node, before.replicas[r].version, t)
  }

  /** Rows are either drained or, while in `rest`, as they were. */
  ghost predicate DrainEntry(before: Tables, now: map<ReplicaId, Replica>, rf: nat, node: NodeId,
                             all: set<ReplicaId>, rest: set<ReplicaId>, r: ReplicaId)
  {
    && (r in all && r !in rest ==> DrainedRow(before, now, rf, node, r))
    && (r in rest ==> r in before.replicas && r in now && now[r] == before.replicas[r])
  }

  ghost predicate DrainState(before: Tables, now: map<ReplicaId, Replica>, rf: nat, node: NodeId,
                             all: set<ReplicaId>, rest: set<ReplicaId>)
  {
    forall r :: DrainEntry(before, now, rf, node, all, rest, r)
  }

  lemma DrainStep(before: Tables, mid: map<ReplicaId, Replica>, now: map<ReplicaId, Replica>, rf: nat,
                  node: NodeId, all: set<ReplicaId>, rest: set<ReplicaId>, r: ReplicaId, target: NodeId)
    requires DrainState(before, mid, rf, node, all, rest) && r in rest && rest <= all
    requires forall s, t :: RowOk(before.replicas, s, t)
    requires forall s :: s in all ==> s in before.replicas && before.replicas[s].node == node
    requires r in before.replicas
    requires Moved(mid, now, before.replicas[r].version, node, target)
    requires !HasRow(now, before.replicas[r].version, node) && |HealthyRows(now, before.replicas[r].version)| >= rf
    requires WentTo(before, now, node, before.replicas[r].version, target)
    ensures DrainState(before, now, rf, node, all, rest - {r})
  {
    var v, rest' := before.replicas[r].version, rest - {r};
    forall s ensures DrainEntry(before, now, rf, node, all, rest', s) {
      assert DrainEntry(before, mid, rf, node, all, rest, s);
      if s in all && s != r {
        assert before.replicas[s].version != v by {
          assert RowOk(before.replicas, s, r);
        }
        assert MovedRow(mid, now, v, node, target, s);
        if s !in rest {
          StaysDrained(before, mid, now, rf, node, s, v, target);
        }
      }
    }
  }

  /** The migration of one version does not undo that of another. */
  lemma StaysDrained(before: Tables, mid: map<ReplicaId, Replica>, now: map<ReplicaId, Replica>, rf: nat,
                     node: NodeId, s: ReplicaId, v: VersionId, target: NodeId)
    requires DrainedRow(before, mid, rf, node, s) && before.replicas[s].version != v
    requires Moved(mid, now, v, node, target)
    ensures DrainedRow(before, now, rf, node, s)
  {
    var w := before.replicas[s].version;
    OthersUnmoved(mid, now, v, node, target, w);
    forall x | x in now ensures IsRow(now, x, w, node) ==> x in mid && IsRow(mid, x, w, node) {
      assert MovedRow(mid, now, v, node, target, x);
    }
    var t :| WentTo(before, mid, node, w, t);
    var x :| x in mid && IsRow(mid, x, w, t) && mid[x].status == Healthy;
    assert MovedRow(mid, now, v, node, target, x);
    assert IsRow(now, x, w, t);
    assert WentTo(before, now, node, w, t);
  }

  // ----- When a row can be drained

  /** The row is HEALTHY, there is a node for it, and the move to the best one goes through. */
  ghost predicate DrainPossible(hash: Hash, db: Tables, disks: Disks, rf: nat, n: NodeId, id: ReplicaId,
                                net: RebalanceNet)
  {
    && id in db.replicas && db.replicas[id].status == Healthy
    && db.replicas[id].version in db.versions && db.versions[db.replicas[id].version].state == Committed
    && exists t :: DrainsTo(hash, db, disks, rf, n, db.replicas[id].version, t, net)
  }

  ghost predicate DrainsTo(hash: Hash, db: Tables, disks: Disks, rf: nat, n: NodeId, v: VersionId, t: NodeId,
                           net: RebalanceNet)
  {
    && v in db.versions && IsBest(db.nodes, EligibleNodes(db, v, db.versions[v].size, {n}), t)
    && MovePossible(hash, db.versions[v], Point(db.replicas, disks), rf, v, n, t, net)
  }

  /** Whether a version can be moved depends on its own rows and bytes only. */
  lemma MovePossibleSame(hash: Hash, version: Version, p: Point, q: Point, rf: nat, v: VersionId, source: NodeId,
                         target: NodeId, net: RebalanceNet)
    requires SameFor(p, q, v)
    ensures MovePossible(hash, version, p, rf, v, source, target, net) <==>
            MovePossible(hash, version, q, rf, v, source, target, net)
  {
    SameGood(hash, version, v, p, q);
    forall n ensures HasHealthy(p.replicas, v, n) <==> HasHealthy(q.replicas, v, n)
      ensures Copyable(p.replicas, v, n) <==> Copyable(q.replicas, v, n)
      ensures SourceRemovable(p.replicas, v, n) <==> SourceRemovable(q.replicas, v, n)
      ensures Intact(hash, p.disks, n, v, version) <==> Intact(hash, q.disks, n, v, version)
    {
      forall s ensures IsRow(p.replicas, s, v, n) <==> IsRow(q.replicas, s, v, n) {
      }
    }
  }

  lemma EligibleSame(db: Tables, db': Tables, p: Point, q: Point, v: VersionId, size: nat, n: NodeId)
    requires p.replicas == db.replicas && q.replicas == db'.replicas && SameFor(p, q, v)
    requires OnlyStateOf(db.nodes, db'.nodes, n)
    ensures EligibleNodes(db, v, size, {n}) == EligibleNodes(db', v, size, {n})
    ensures forall t :: IsBest(db.nodes, EligibleNodes(db, v, size, {n}), t) <==>
                        IsBest(db'.nodes, EligibleNodes(db, v, size, {n}), t)
  {
    forall k ensures Eligible(db, v, size, {n}, k) <==> Eligible(db', v, size, {n}, k) {
      forall s ensures IsRow(db.replicas, s, v, k) <==> IsRow(db'.replicas, s, v, k) {
      }
    }
    forall a, b ensures Better(db.nodes, a, b) <==> Better(db'.nodes, a, b) {
    }
  }

  /** The nodes are the same, but for the state of n. */
  ghost predicate OnlyStateOf(nodes: map<NodeId, Node>, nodes': map<NodeId, Node>, n: NodeId) {
    && nodes.Keys == nodes'.Keys
    && forall k :: k in nodes ==> nodes'[k] == if k == n then nodes[k].(status := nodes'[k].status) else nodes[k]
  }

  lemma DrainPossibleSame(hash: Hash, db: Tables, db': Tables, disks: Disks, disks': Disks, rf: nat, n: NodeId,
                          id: ReplicaId, net: RebalanceNet)
    requires id in db.replicas
             && SameFor(Point(db.replicas, disks), Point(db'.replicas, disks'), db.replicas[id].version)
    requires db'.versions == db.versions && OnlyStateOf(db.nodes, db'.nodes, n)
    ensures DrainPossible(hash, db, disks, rf, n, id, net) <==> DrainPossible(hash, db', disks', rf, n, id, net)
  {
    var v, p, q := db.replicas[id].version, Point(db.replicas, disks), Point(db'.replicas, disks');
    if v in db.versions {
      EligibleSame(db, db', p, q, v, db.versions[v].size, n);
      forall t ensures DrainsTo(hash, db, disks, rf, n, v, t, net) <==> DrainsTo(hash, db', disks', rf, n, v, t, net) {
        MovePossibleSame(hash, db.versions[v], p, q, rf, v, n, t, net);
      }
    }
  }

  /** With the best node known, a HEALTHY row can be drained exactly when the move there is allowed and goes through. */
  lemma DrainsToBest(hash: Hash, db: Tables, disks: Disks, rf: nat, n: NodeId, id: ReplicaId, t: NodeId,
                     net: RebalanceNet)
    requires Consistent(db) && id in db.replicas && db.replicas[id].node == n && db.replicas[id].status == Healthy
    requires db.replicas[id].version in db.versions && db.versions[db.replicas[id].version].state == Committed
    requires IsBest(db.nodes,
                    EligibleNodes(db, db.replicas[id].version, db.versions[db.replicas[id].version].size, {n}), t)
    ensures Migratable(db, db.replicas[id].version, n, t)
    ensures DrainPossible(hash, db, disks, rf, n, id, net) <==>
            MovePossible(hash, db.versions[db.replicas[id].version], Point(db.replicas, disks), rf,
                         db.replicas[id].version, n, t, net)
  {
    var v := db.replicas[id].version;
    var pool := EligibleNodes(db, v, db.versions[v].size, {n});
    assert Eligible(db, v, db.versions[v].size, {n}, t);
    assert ReplicaOk(db, id) && NodeOk(db.nodes, t) && IsRow(db.replicas, id, v, n);
    if DrainPossible(hash, db, disks, rf, n, id, net) {
      var u :| DrainsTo(hash, db, disks, rf, n, v, u, net);
      BestIsUnique(db.nodes, pool, t, u);
    }
    if MovePossible(hash, db.versions[v], Point(db.replicas, disks), rf, v, n, t, net) {
      assert DrainsTo(hash, db, disks, rf, n, v, t, net);
    }
  }

  /** Where a row goes does not depend on the state of the node that is drained. */
  lemma DrainedAnyway(db: Tables, db': Tables, now: map<ReplicaId, Replica>, rf: nat, n: NodeId, s: ReplicaId)
    requires db'.replicas == db.replicas && db'.versions == db.versions && OnlyStateOf(db.nodes, db'.nodes, n)
    requires DrainedRow(db', now, rf, n, s)
    ensures DrainedRow(db, now, rf, n, s)
  {
    var v, p := db.replicas[s].version, Point(db.replicas, map[]);
    var t :| WentTo(db', now, n, v, t);
    EligibleSame(db, db', p, p, v, db.versions[v].size, n);
    assert WentTo(db, now, n, v, t);
  }

  /** Every row of a set can be drained. */
  ghost predicate AllDrainable(hash: Hash, db: Tables, disks: Disks, rf: nat, n: NodeId, rows: set<ReplicaId>,
                               nets: ReplicaId -> RebalanceNet)
  {
    forall id :: id in rows ==> DrainPossible(hash, db, disks, rf, n, id, nets(id))
  }

  // ----- Good copies along a drain

  /** If every HEALTHY row of w was good at the start, at least min(h, rf) good copies at every point. */
  ghost predicate DrainEnough(hash: Hash, versions: map<VersionId, Version>, rf: nat, points: seq<Point>, first: Point,
                              w: VersionId) {
    w in versions && AllGood(hash, versions[w], w, first.replicas, first.disks) ==>
      AlwaysEnough(hash, versions[w], w, points, Min(|HealthyRows(first.replicas, w)|, rf))
  }

  ghost predicate AllEnough(hash: Hash, versions: map<VersionId, Version>, rf: nat, points: seq<Point>, first: Point) {
    forall w :: DrainEnough(hash, versions, rf, points, first, w)
  }

  lemma NothingDrained(hash: Hash, versions: map<VersionId, Version>, rf: nat, p: Point)
    ensures AllEnough(hash, versions, rf, [p], p)
  {
    var points := [p];
    forall w ensures DrainEnough(hash, versions, rf, points, p, w) {
      if w in versions && AllGood(hash, versions[w], w, p.replicas, p.disks) {
        EnoughOne(hash, versions[w], w, p, Min(|HealthyRows(p.replicas, w)|, rf));
      }
    }
  }

  /** One more migration, of a version v that has not been touched before. */
  lemma DrainOn(hash: Hash, versions: map<VersionId, Version>, rf: nat, vs: set<VersionId>, points: seq<Point>,
                more: seq<Point>,
                first: Point, mid: Point, last: Point, v: VersionId)
    requires v in versions && v in vs && Trace(points, vs, first, mid) && AllEnough(hash, versions, rf, points, first)
    requires SameFor(first, mid, v) && RanThrough(hash, versions[v], v, more, mid, last, rf)
    ensures Trace(Joined(points, more), vs, first, last)
    ensures AllEnough(hash, versions, rf, Joined(points, more), first)
  {
    RanThroughIs(hash, versions[v], v, more, mid, last, rf);
    TraceWider(more, {v}, vs, mid, last);
    TraceJoin(points, more, vs, first, mid, last);
    var all := Joined(points, more);
    forall w ensures DrainEnough(hash, versions, rf, all, first, w) {
      assert DrainEnough(hash, versions, rf, points, first, w);
      if w in versions && AllGood(hash, versions[w], w, first.replicas, first.disks) {
        var least := Min(|HealthyRows(first.replicas, w)|, rf);
        if w == v {
          SameGood(hash, versions[w], w, first, mid);
        } else {
          TraceEnds(points, vs, first, mid);
          assert EnoughAt(hash, versions[w], w, points, least, |points| - 1);
          EnoughElsewhere(hash, versions[w], w, more, {v}, mid, last, least);
        }
        EnoughOn(hash, versions[w], w, points, more, least);
      }
    }
  }

  /** The versions of some rows. */
  function VersionsOf(replicas: map<ReplicaId, Replica>, rows: set<ReplicaId>): set<VersionId> {
    set r | r in rows && r in replicas :: replicas[r].version
  }

  /** Versions of rows still to be drained are as they were at the start. */
  ghost predicate Untouched(first: Point, now: Point, rest: set<ReplicaId>) {
    forall r :: r in rest ==> r in first.replicas && SameFor(first, now, first.replicas[r].version)
  }

  lemma UntouchedOn(first: Point, mid: Point, last: Point, rest: set<ReplicaId>, id: ReplicaId, more: seq<Point>,
                    n: NodeId)
    requires Untouched(first, mid, rest) && id in rest
    requires Trace(more, {first.replicas[id].version}, mid, last)
    requires forall r, s :: RowOk(first.replicas, r, s)
    requires forall r :: r in rest ==> r in first.replicas && first.replicas[r].node == n
    ensures Untouched(first, last, rest - {id})
  {
    forall r | r in rest - {id} ensures SameFor(first, last, first.replicas[r].version) {
      assert RowOk(first.replicas, r, id);
      TraceEnds(more, {first.replicas[id].version}, mid, last);
      TraceElsewhere(more, {first.replicas[id].version}, mid, last, first.replicas[r].version, |more| - 1);
    }
  }

  /** With no other job active: row r has been drained and could be, or is as it was. */
  ghost predicate QuietAt(hash: Hash, before: Tables, disks: Disks, now: Tables, rf: nat, n: NodeId,
                          all: set<ReplicaId>,
                          rest: set<ReplicaId>, nets: ReplicaId -> RebalanceNet, r: ReplicaId)
  {
    && NoneActive(now.rebalances)
    && DrainEntry(before, now.replicas, rf, n, all, rest, r)
    && (r in all && r !in rest ==> DrainPossible(hash, before, disks, rf, n, r, nets(r)))
  }

  ghost predicate Quiet(hash: Hash, before: Tables, disks: Disks, now: Tables, rf: nat, n: NodeId, all: set<ReplicaId>,
                        rest: set<ReplicaId>, nets: ReplicaId -> RebalanceNet)
  {
    forall r :: QuietAt(hash, before, disks, now, rf, n, all, rest, nets, r)
  }

  lemma QuietMeans(hash: Hash, before: Tables, disks: Disks, now: Tables, rf: nat, n: NodeId, all: set<ReplicaId>,
                   rest: set<ReplicaId>, nets: ReplicaId -> RebalanceNet)
    ensures Quiet(hash, before, disks, now, rf, n, all, rest, nets) <==>
            && NoneActive(now.rebalances) && DrainState(before, now.replicas, rf, n, all, rest)
            && AllDrainable(hash, before, disks, rf, n, all - rest, nets)
  {
    if Quiet(hash, before, disks, now, rf, n, all, rest, nets) {
      assert QuietAt(hash, before, disks, now, rf, n, all, rest, nets, 0);
      forall r ensures DrainEntry(before, now.replicas, rf, n, all, rest, r)
        ensures r in all - rest ==> DrainPossible(hash, before, disks, rf, n, r, nets(r))
      {
        assert QuietAt(hash, before, disks, now, rf, n, all, rest, nets, r);
      }
    }
  }

  // Unrelated facts under one quantifier, so that the state of the loop stays folded.

  /** The drain so far, as seen from number k: its k-th action, version k, and row k. */
  ghost predicate DrainingAt(hash: Hash, versions: map<VersionId, Version>, rf: nat, vs: set<VersionId>,
                             points: seq<Point>,
                             first: Point, now: Point, rest: set<ReplicaId>, k: nat)
  {
    && TraceAt(points, vs, first, now, k)
    && DrainEnough(hash, versions, rf, points, first, k)
    && (k in rest ==> k in first.replicas && SameFor(first, now, first.replicas[k].version))
  }

  ghost predicate Draining(hash: Hash, versions: map<VersionId, Version>, rf: nat, vs: set<VersionId>,
                           points: seq<Point>,
                           first: Point, now: Point, rest: set<ReplicaId>)
  {
    forall k :: DrainingAt(hash, versions, rf, vs, points, first, now, rest, k)
  }

  lemma DrainingMeans(hash: Hash, versions: map<VersionId, Version>, rf: nat, vs: set<VersionId>, points: seq<Point>,
                      first: Point, now: Point, rest: set<ReplicaId>)
    ensures Draining(hash, versions, rf, vs, points, first, now, rest) <==>
            Trace(points, vs, first, now) && AllEnough(hash, versions, rf, points, first) && Untouched(first, now, rest)
  {
    if Draining(hash, versions, rf, vs, points, first, now, rest) {
      forall k: nat
        ensures TraceAt(points, vs, first, now, k) && DrainEnough(hash, versions, rf, points, first, k)
        ensures k in rest ==> k in first.replicas && SameFor(first, now, first.replicas[k].version)
      {
        assert DrainingAt(hash, versions, rf, vs, points, first, now, rest, k);
      }
    }
  }

  /** The loop of a drain: migrate every row of a COMMITTED version on the node, one after the other. */
  method DrainRows(m: MM.MetadataManager, c: Cluster, rf: nat, maxAttempts: nat, n: NodeId,
                   nets: ReplicaId -> RebalanceNet)
    returns (r: Result<seq<RebalanceResult>, VaultError>, ghost points: seq<Point>, ghost lost: bool)
    requires m.Valid() && c.Valid() && maxAttempts >= 1 && rf >= 1
    modifies m`db, c`disks
    ensures m.Valid() && m.db == old(m.db).(replicas := m.db.replicas, rebalances := m.db.rebalances)
    ensures Safe(c.hash, old(m.db), old(c.disks)) ==> (Safe(c.hash, m.db, c.disks) <==> !lost)
    ensures lost ==> r.Err? && exists id :: Lost(nets(id).deleteSource)
    ensures Trace(points, VersionsOf(old(m.db.replicas), Drainable(old(m.db), n)),
                  Point(old(m.db.replicas), old(c.disks)),
                  Point(m.db.replicas, c.disks))
    ensures AllEnough(c.hash, m.db.versions, rf, points, Point(old(m.db.replicas), old(c.disks)))
    ensures NoneActive(old(m.db.rebalances)) ==>
              (r.Ok? <==> AllDrainable(c.hash, old(m.db), old(c.disks), rf, n, Drainable(old(m.db), n), nets))
    ensures NoneActive(old(m.db.rebalances)) ==>
              UndrainableStay(c.hash, old(m.db), old(c.disks), m.db.replicas, rf, n, nets)
    ensures r.Ok? && NoneActive(old(m.db.rebalances)) ==>
              && NoneActive(m.db.rebalances)
              && (forall s :: s in Drainable(old(m.db), n) ==> DrainedRow(old(m.db), m.db.replicas, rf, n, s))
              && |r.value| == |Drainable(old(m.db), n)|
              && AllSucceeded(r.value)
  {
    m.Opened();
    var all := Drainable(m.db, n);
    var rest := all;
    var results: seq<RebalanceResult> := [];
    ghost var first, before := Point(m.db.replicas, c.disks), m.db;
    ghost var vs, quiet := VersionsOf(before.replicas, all), NoneActive(m.db.rebalances);
    lost, points := false, [first];
    TraceStarts(first, vs);
    NothingDrained(c.hash, m.db.versions, rf, first);
    DrainingMeans(c.hash, before.versions, rf, vs, points, first, first, rest);
    forall s ensures DrainEntry(before, m.db.replicas, rf, n, all, rest, s) {
    }
    QuietMeans(c.hash, before, first.disks, m.db, rf, n, all, rest, nets);
    while rest != {}
      invariant m.Valid() && m.db == before.(replicas := m.db.replicas, rebalances := m.db.rebalances)
      invariant !lost && (Safe(c.hash, before, first.disks) ==> Safe(c.hash, m.db, c.disks))
      invariant rest <= all
                && Draining(c.hash, before.versions, rf, vs, points, first, Point(m.db.replicas, c.disks), rest)
      invariant quiet ==> Quiet(c.hash, before, first.disks, m.db, rf, n, all, rest, nets)
      invariant quiet ==> |results| + |rest| == |all| && AllSucceeded(results)
      decreases rest
    {
      var id :| id in rest;
      assert quiet ==> QuietAt(c.hash, before, first.disks, m.db, rf, n, all, rest, nets, id);
      ghost var mid := m.db;
      var moved;
      ghost var target;
      moved, target, points, lost := DrainNext(m, c, rf, maxAttempts, n, id, nets, before, first, all, rest,
                                                points);
      if quiet && moved.Err? {
        OthersStay(c.hash, before, first, points, Point(m.db.replicas, c.disks), mid, rf, n, all, rest, id, nets);
      }
      rest := rest - {id};
      if moved.Err? {
        assert quiet ==> !DrainPossible(c.hash, before, first.disks, rf, n, id, nets(id));
        DrainingMeans(c.hash, before.versions, rf, vs, points, first, Point(m.db.replicas, c.disks), rest);
        return Err(moved.error), points, lost;
      }
      results := results + [moved.value];
    }
    DrainingMeans(c.hash, before.versions, rf, vs, points, first, Point(m.db.replicas, c.disks), rest);
    QuietMeans(c.hash, before, first.disks, m.db, rf, n, all, rest, nets);
    assert all - rest == all;
    if quiet {
      forall s | s in all ensures DrainedRow(before, m.db.replicas, rf, n, s) {
        assert DrainEntry(before, m.db.replicas, rf, n, all, rest, s);
      }
    }
    r := Ok(results);
  }

  /** When a row cannot be drained, it and the rows still to come are as they were. */
  lemma OthersStay(hash: Hash, before: Tables, first: Point, points: seq<Point>, now: Point, mid: Tables, rf: nat,
                   n: NodeId, all: set<ReplicaId>, rest: set<ReplicaId>, id: ReplicaId,
                   nets: ReplicaId -> RebalanceNet)
    requires all == Drainable(before, n) && first.replicas == before.replicas && id in all
    requires Quiet(hash, before, first.disks, mid, rf, n, all, rest, nets)
    requires Draining(hash, before.versions, rf, VersionsOf(before.replicas, all), points, first, now, rest - {id})
    requires Stays(before.replicas, now.replicas, id)
    ensures UndrainableStay(hash, before, first.disks, now.replicas, rf, n, nets)
  {
    DrainingMeans(hash, before.versions, rf, VersionsOf(before.replicas, all), points, first, now, rest - {id});
    forall s | s in all
      ensures DrainPossible(hash, before, first.disks, rf, n, s, nets(s)) || Stays(before.replicas, now.replicas, s)
    {
      assert QuietAt(hash, before, first.disks, mid, rf, n, all, rest, nets, s);
    }
  }

  /** One more row is drained. */
  lemma QuietMore(hash: Hash, before: Tables, first: Point, p: Point, mid: Tables, now: Tables, rf: nat, n: NodeId,
                  all: set<ReplicaId>, rest: set<ReplicaId>, id: ReplicaId, target: NodeId,
                  nets: ReplicaId -> RebalanceNet)
    requires Consistent(before) && first.replicas == before.replicas && p.replicas == mid.replicas
    requires mid == before.(replicas := mid.replicas, rebalances := mid.rebalances)
    requires all == Drainable(before, n) && rest <= all && id in rest
    requires Quiet(hash, before, first.disks, mid, rf, n, all, rest, nets) && NoneActive(now.rebalances)
    requires DrainPossible(hash, before, first.disks, rf, n, id, nets(id))
    requires SameFor(first, p, before.replicas[id].version)
    requires var v := before.replicas[id].version;
             && IsBest(mid.nodes, EligibleNodes(mid, v, mid.versions[v].size, {n}), target)
             && HasHealthy(now.replicas, v, target)
             && Moved(mid.replicas, now.replicas, v, n, target) && !HasRow(now.replicas, v, n)
             && |HealthyRows(now.replicas, v)| >= rf
    ensures Quiet(hash, before, first.disks, now, rf, n, all, rest - {id}, nets)
  {
    var v := before.replicas[id].version;
    QuietMeans(hash, before, first.disks, mid, rf, n, all, rest, nets);
    EligibleSame(before, mid, first, p, v, before.versions[v].size, n);
    assert WentTo(before, now.replicas, n, v, target);
    DrainStep(before, mid.replicas, now.replicas, rf, n, all, rest, id, target);
    QuietMeans(hash, before, first.disks, now, rf, n, all, rest - {id}, nets);
  }

  /** One turn of the loop, measured against the start of the drain. */
  method DrainNext(m: MM.MetadataManager, c: Cluster, rf: nat, maxAttempts: nat, n: NodeId, id: ReplicaId,
                   nets: ReplicaId -> RebalanceNet,
                   ghost before: Tables, ghost first: Point, ghost all: set<ReplicaId>,
                   ghost rest: set<ReplicaId>, ghost points: seq<Point>)
    returns (r: Result<RebalanceResult, VaultError>, ghost target: NodeId, ghost points': seq<Point>, ghost lost: bool)
    requires m.Valid() && c.Valid() && maxAttempts >= 1 && rf >= 1
    requires Consistent(before) && first.replicas == before.replicas
             && m.db == before.(replicas := m.db.replicas, rebalances := m.db.rebalances)
    requires all == Drainable(before, n) && rest <= all && id in rest
    requires Draining(c.hash, before.versions, rf, VersionsOf(before.replicas, all), points, first,
                      Point(m.db.replicas, c.disks), rest)
    modifies m`db, c`disks
    ensures m.Valid() && m.db == before.(replicas := m.db.replicas, rebalances := m.db.rebalances)
    ensures Safe(c.hash, old(m.db), old(c.disks)) ==> (Safe(c.hash, m.db, c.disks) <==> !lost)
    ensures lost ==> Lost(nets(id).deleteSource) && r.Err?
    ensures Draining(c.hash, before.versions, rf, VersionsOf(before.replicas, all), points', first,
                     Point(m.db.replicas, c.disks), rest - {id})
    ensures NoneActive(old(m.db.rebalances)) ==>
              (r.Ok? <==> DrainPossible(c.hash, before, first.disks, rf, n, id, nets(id)))
    ensures NoneActive(old(m.db.rebalances)) && r.Err? ==> Stays(before.replicas, m.db.replicas, id)
    ensures r.Ok? && Quiet(c.hash, before, first.disks, old(m.db), rf, n, all, rest, nets) ==>
              && Quiet(c.hash, before, first.disks, m.db, rf, n, all, rest - {id}, nets)
              && r.value.status == JobSucceeded && r.value.sourceRemoved
  {
    ghost var mid, v := Point(m.db.replicas, c.disks), before.replicas[id].version;
    DrainingMeans(c.hash, before.versions, rf, VersionsOf(before.replicas, all), points, first, mid, rest);
    assert SameFor(first, mid, v);
    DrainPossibleSame(c.hash, before, m.db, first.disks, c.disks, rf, n, id, nets(id));
    ghost var more;
    r, target, more, lost := DrainOne(m, c, rf, maxAttempts, n, id, nets(id));
    ghost var last := Point(m.db.replicas, c.disks);
    assert v in VersionsOf(before.replicas, all);
    DrainOn(c.hash, before.versions, rf, VersionsOf(before.replicas, all), points, more, first, mid, last, v);
    RanThroughIs(c.hash, before.versions[v], v, more, mid, last, rf);
    UntouchedOn(first, mid, last, rest, id, more, n);
    points' := Joined(points, more);
    DrainingMeans(c.hash, before.versions, rf, VersionsOf(before.replicas, all), points', first, last, rest - {id});
    if r.Ok? && Quiet(c.hash, before, first.disks, old(m.db), rf, n, all, rest, nets) {
      assert QuietAt(c.hash, before, first.disks, old(m.db), rf, n, all, rest, nets, id);
      QuietMore(c.hash, before, first, mid, old(m.db), m.db, rf, n, all, rest, id, target, nets);
    }
  }

  /** Row r is as it was. */
  predicate Stays(before: map<ReplicaId, Replica>, now: map<ReplicaId, Replica>, r: ReplicaId) {
    r in before && r in now && now[r] == before[r]
  }

  /** A row that cannot be drained is still there, whatever has become of the drain. */
  ghost predicate UndrainableStay(hash: Hash, before: Tables, disks: Disks, now: map<ReplicaId, Replica>, rf: nat,
                                  n: NodeId, nets: ReplicaId -> RebalanceNet) {
    forall s :: s in before.replicas && CommittedOn(before, n, s) ==>
      DrainPossible(hash, before, disks, rf, n, s, nets(s)) || Stays(before.replicas, now, s)
  }

  predicate AllSucceeded(results: seq<RebalanceResult>) {
    forall i :: 0 <= i < |results| ==> results[i].status == JobSucceeded && results[i].sourceRemoved
  }

  method DrainOne(m: MM.MetadataManager, c: Cluster, rf: nat, maxAttempts: nat, n: NodeId, id: ReplicaId,
                  net: RebalanceNet)
    returns (r: Result<RebalanceResult, VaultError>, ghost to: NodeId, ghost points: seq<Point>, ghost lost: bool)
    requires m.Valid() && c.Valid() && maxAttempts >= 1 && rf >= 1
    requires id in m.db.replicas && m.db.replicas[id].node == n
    modifies m`db, c`disks
    ensures m.Valid() && m.db == old(m.db).(replicas := m.db.replicas, rebalances := m.db.rebalances)
    ensures Safe(c.hash, old(m.db), old(c.disks)) ==> (Safe(c.hash, m.db, c.disks) <==> !lost)
    ensures lost ==> Lost(net.deleteSource) && r.Err?
    ensures var v := old(m.db.replicas)[id].version;
            && v in m.db.versions
            && RanThrough(c.hash, m.db.versions[v], v, points, Point(old(m.db.replicas), old(c.disks)),
                          Point(m.db.replicas, c.disks), rf)
    ensures NoneActive(old(m.db.rebalances)) ==>
              (r.Ok? <==> DrainPossible(c.hash, old(m.db), old(c.disks), rf, n, id, net))
    ensures NoneActive(old(m.db.rebalances)) && r.Err? ==> Stays(old(m.db.replicas), m.db.replicas, id)
    ensures r.Ok? && NoneActive(old(m.db.rebalances)) ==>
              var v := old(m.db.replicas)[id].version;
              && NoneActive(m.db.rebalances)
              && v in m.db.versions && IsBest(m.db.nodes, EligibleNodes(old(m.db), v, m.db.versions[v].size, {n}), to)
              && Moved(old(m.db.replicas), m.db.replicas, v, n, to)
              && !HasRow(m.db.replicas, v, n)
              && |HealthyRows(m.db.replicas, v)| >= rf && HasHealthy(m.db.replicas, v, to)
              && r.value.status == JobSucceeded && r.value.sourceRemoved
  {
    m.Opened();
    lost, to, points := false, "", [Point(m.db.replicas, c.disks)];
    var row := m.db.replicas[id];
    assert ReplicaOk(m.db, id);
    RanNowhere(c.hash, m.db.versions[row.version], row.version, points[0], rf);
    if row.status != Healthy {
      return Err(InvalidState), to, points, lost;
    }
    if m.db.versions[row.version].state != Committed {
      return Err(InvalidState), to, points, lost;
    }
    var target := BestTarget(m.db, row.version, m.db.versions[row.version].size, {n});
    if target.None? {
      return Err(InsufficientReplicas), to, points, lost;
    }
    to := target.value;
    DrainsToBest(c.hash, m.db, c.disks, rf, n, id, target.value, net);
    r, points, lost := MigrateReplica(m, c, rf, maxAttempts, row.version, n, target.value, net);
    assert NoneActive(old(m.db.rebalances)) && Migratable(old(m.db), row.version, n, target.value) ==>
        KeptRow(old(m.db.replicas), m.db.replicas, row.version, n, target.value, r.Ok?, id);
  }

  /** Every row of a COMMITTED version on node n can be drained. */
  ghost predicate CanDrain(hash: Hash, db: Tables, disks: Disks, rf: nat, n: NodeId, nets: ReplicaId -> RebalanceNet) {
    forall s :: s in db.replicas && CommittedOn(db, n, s) ==> DrainPossible(hash, db, disks, rf, n, s, nets(s))
  }

  /** Every row of a COMMITTED version on node n has been. */
  ghost predicate AllDrained(db: Tables, now: map<ReplicaId, Replica>, rf: nat, n: NodeId) {
    forall s :: s in db.replicas && CommittedOn(db, n, s) ==> DrainedRow(db, now, rf, n, s)
  }

  lemma CanDrainMeans(hash: Hash, db: Tables, disks: Disks, rf: nat, n: NodeId, nets: ReplicaId -> RebalanceNet)
    ensures CanDrain(hash, db, disks, rf, n, nets) <==>
            AllDrainable(hash, db, disks, rf, n, Drainable(db, n), nets)
    ensures forall now :: AllDrained(db, now, rf, n) <==>
                          forall s :: s in Drainable(db, n) ==> DrainedRow(db, now, rf, n, s)
  {
    forall s ensures s in db.replicas && CommittedOn(db, n, s) <==> s in Drainable(db, n) {
    }
  }

  /** What can be drained, and what stays, do not depend on the state of the node. */
  lemma SameDrain(hash: Hash, db: Tables, start: Tables, disks: Disks, now: map<ReplicaId, Replica>, rf: nat, n: NodeId,
                  nets: ReplicaId -> RebalanceNet)
    requires start == db.(nodes := start.nodes) && OnlyStateOf(db.nodes, start.nodes, n)
    ensures Drainable(start, n) == Drainable(db, n)
    ensures CanDrain(hash, start, disks, rf, n, nets) <==> CanDrain(hash, db, disks, rf, n, nets)
    ensures UndrainableStay(hash, start, disks, now, rf, n, nets) ==> UndrainableStay(hash, db, disks, now, rf, n, nets)
    ensures AllDrained(start, now, rf, n) ==> AllDrained(db, now, rf, n)
  {
    assert Drainable(start, n) == Drainable(db, n);
    forall s | s in db.replicas
      ensures CommittedOn(start, n, s) <==> CommittedOn(db, n, s)
      ensures DrainPossible(hash, start, disks, rf, n, s, nets(s)) <==>
                DrainPossible(hash, db, disks, rf, n, s, nets(s))
      ensures CommittedOn(db, n, s) && DrainedRow(start, now, rf, n, s) ==> DrainedRow(db, now, rf, n, s)
    {
      DrainPossibleSame(hash, db, start, disks, disks, rf, n, s, nets(s));
      if CommittedOn(db, n, s) && DrainedRow(start, now, rf, n, s) {
        DrainedAnyway(db, start, now, rf, n, s);
      }
    }
  }

  /** The drain of a node that is DRAINING: its rows go, and then the node if no row names it. */
  method DrainStarted(m: MM.MetadataManager, c: Cluster, rf: nat, maxAttempts: nat, n: NodeId,
                      nets: ReplicaId -> RebalanceNet)
    returns (r: Result<seq<RebalanceResult>, VaultError>, ghost points: seq<Point>, ghost lost: bool)
    requires m.Valid() && c.Valid() && maxAttempts >= 1 && rf >= 1
    requires n in m.db.nodes && m.db.nodes[n].status == NodeDraining
    modifies m`db, c`disks
    ensures m.Valid()
    ensures Trace(points, VersionsOf(old(m.db.replicas), Drainable(old(m.db), n)),
                  Point(old(m.db.replicas), old(c.disks)),
                  Point(m.db.replicas, c.disks))
    ensures AllEnough(c.hash, m.db.versions, rf, points, Point(old(m.db.replicas), old(c.disks)))
    ensures m.db == old(m.db).(nodes := m.db.nodes, replicas := m.db.replicas, rebalances := m.db.rebalances)
    ensures m.db.nodes == if r.Ok? && RowsOn(m.db.replicas, n) == {}
                          then old(m.db.nodes)[n := WithState(old(m.db.nodes)[n], NodeRemoved)] else old(m.db.nodes)
    ensures Safe(c.hash, old(m.db), old(c.disks)) ==> (Safe(c.hash, m.db, c.disks) <==> !lost)
    ensures lost ==> r.Err? && exists id :: Lost(nets(id).deleteSource)
    ensures NoneActive(old(m.db.rebalances)) ==>
              && (r.Ok? <==> CanDrain(c.hash, old(m.db), old(c.disks), rf, n, nets))
              && UndrainableStay(c.hash, old(m.db), old(c.disks), m.db.replicas, rf, n, nets)
    ensures r.Ok? && NoneActive(old(m.db.rebalances)) ==>
              && NoneActive(m.db.rebalances) && AllDrained(old(m.db), m.db.replicas, rf, n)
              && |r.value| == |Drainable(old(m.db), n)| && AllSucceeded(r.value)
  {
    CanDrainMeans(c.hash, m.db, c.disks, rf, n, nets);
    r, points, lost := DrainRows(m, c, rf, maxAttempts, n, nets);
    if r.Err? {
      return;
    }
    ghost var end := m.db;
    if RowsOn(m.db.replicas, n) == {} {
      var _ := m.TransitionNodeState(n, NodeRemoved);
      SameRowsSafe(c.hash, end, m.db, c.disks);
    }
  }

  /**
    Drain a node. `nets(id)` says how the calls of the migration of row id go. With no rebalance job active at
    the start, it returns exactly when every row of a COMMITTED version on it can be drained; then all of those
    have moved off the node, each of their versions has at least rf HEALTHY rows, and the node is REMOVED exactly
    when no row names it.
    `points` is every state on the way, whatever fails: a version that starts with h HEALTHY rows, all good, has
    at least min(h, rf) good copies at each of them.
   */
  method DrainNode(m: MM.MetadataManager, c: Cluster, rf: nat, maxAttempts: nat, n: NodeId,
                   nets: ReplicaId -> RebalanceNet)
    returns (r: Result<seq<RebalanceResult>, VaultError>, ghost points: seq<Point>, ghost lost: bool)
    requires m.Valid() && c.Valid() && maxAttempts >= 1 && rf >= 1
    modifies m`db, c`disks
    ensures m.Valid()
    ensures Trace(points, VersionsOf(old(m.db.replicas), Drainable(old(m.db), n)),
                  Point(old(m.db.replicas), old(c.disks)),
                  Point(m.db.replicas, c.disks))
    ensures AllEnough(c.hash, m.db.versions, rf, points, Point(old(m.db.replicas), old(c.disks)))
    ensures m.db == old(m.db).(nodes := m.db.nodes, replicas := m.db.replicas, rebalances := m.db.rebalances)
    // the node is DRAINING from the moment the drain may start, and REMOVED exactly by a drain that leaves no row
    ensures n in old(m.db.nodes) ==>
              var was := old(m.db.nodes)[n].status;
              var status := if r.Ok? && RowsOn(m.db.replicas, n) == {} then NodeRemoved
                            else if was in {NodeHealthy, NodeDraining} then NodeDraining
                            else was;
              && (r.Ok? ==> was in {NodeHealthy, NodeDraining})
              && m.db.nodes == old(m.db.nodes)[n := WithState(old(m.db.nodes)[n], status)]
    ensures n !in old(m.db.nodes) ==> r == Err(ObjectNotFound) && m.db == old(m.db)
    ensures Safe(c.hash, old(m.db), old(c.disks)) ==> (Safe(c.hash, m.db, c.disks) <==> !lost)
    ensures lost ==> r.Err? && exists id :: Lost(nets(id).deleteSource)
    ensures NoneActive(old(m.db.rebalances)) ==>
              && (r.Ok? <==>
                    && n in old(m.db.nodes) && old(m.db.nodes)[n].status in {NodeHealthy, NodeDraining}
                    && CanDrain(c.hash, old(m.db), old(c.disks), rf, n, nets))
              && UndrainableStay(c.hash, old(m.db), old(c.disks), m.db.replicas, rf, n, nets)
    ensures r.Ok? && NoneActive(old(m.db.rebalances)) ==>
              && NoneActive(m.db.rebalances) && AllDrained(old(m.db), m.db.replicas, rf, n)
              && |r.value| == |Drainable(old(m.db), n)| && AllSucceeded(r.value)
  {
    lost, points := false, [Point(m.db.replicas, c.disks)];
    TraceStarts(points[0], VersionsOf(m.db.replicas, Drainable(m.db, n)));
    NothingDrained(c.hash, m.db.versions, rf, points[0]);
    if n !in m.db.nodes {
      return Err(ObjectNotFound), points, lost;
    }
    assert m.db.nodes == m.db.nodes[n := WithState(m.db.nodes[n], m.db.nodes[n].status)];
    if m.db.nodes[n].status == NodeHealthy {
      var _ := m.TransitionNodeState(n, NodeDraining);
      SameRowsSafe(c.hash, old(m.db), m.db, c.disks);
      assert m.db.nodes == old(m.db.nodes)[n := WithState(old(m.db.nodes)[n], NodeDraining)];
    }
    if m.db.nodes[n].status != NodeDraining {
      return Err(InvalidState), points, lost;
    }
    ghost var start := m.db;
    r, points, lost := DrainStarted(m, c, rf, maxAttempts, n, nets);
    SameDrain(c.hash, old(m.db), start, old(c.disks), m.db.replicas, rf, n, nets);
  }

  function WithState(node: Node, state: NodeState): Node {
    node.(status := state)
  }
}
