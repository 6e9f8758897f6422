/** How many good copies of a version there are, at one point and along a trace. */
module GoodCopies {
  import opened Base
  import opened Tables
  import opened Cluster
  import opened Traces
  import opened Targets

  /** HEALTHY rows of a version whose node holds the right bytes; rows of a version are on distinct nodes. */
  function GoodRows(hash: Hash, version: Version, v: VersionId, replicas: map<ReplicaId, Replica>,
                    disks: Disks): set<ReplicaId> {
    set r | r in HealthyRows(replicas, v) && r in replicas && Intact(hash, disks, replicas[r].node, v, version)
  }

  /** Every HEALTHY row of the version holds correct bytes. */
  ghost predicate AllGood(hash: Hash, version: Version, v: VersionId, replicas: map<ReplicaId, Replica>, disks: Disks) {
    GoodRows(hash, version, v, replicas, disks) == HealthyRows(replicas, v)
  }

  ghost predicate Enough(hash: Hash, version: Version, v: VersionId, p: Point, least: int) {
    |GoodRows(hash, version, v, p.replicas, p.disks)| >= least
  }

  ghost predicate EnoughAt(hash: Hash, version: Version, v: VersionId, points: seq<Point>, least: int, i: nat) {
    i < |points| ==> Enough(hash, version, v, points[i], least)
  }

  ghost predicate AlwaysEnough(hash: Hash, version: Version, v: VersionId, points: seq<Point>, least: int) {
    forall i :: EnoughAt(hash, version, v, points, least, i)
  }

  lemma EnoughOn(hash: Hash, version: Version, v: VersionId, a: seq<Point>, b: seq<Point>, least: int)
    requires AlwaysEnough(hash, version, v, a, least) && AlwaysEnough(hash, version, v, b, least)
    ensures AlwaysEnough(hash, version, v, Joined(a, b), least)
  {
    var all := Joined(a, b);
    forall i: nat ensures EnoughAt(hash, version, v, all, least, i) {
      assert EnoughAt(hash, version, v, a, least, i);
      if |a| <= i < |all| {
        var j: nat := i + 1 - |a|;
        assert EnoughAt(hash, version, v, b, least, j);
      }
    }
  }

  lemma EnoughMore(hash: Hash, version: Version, v: VersionId, points: seq<Point>, p: Point, least: int)
    requires AlwaysEnough(hash, version, v, points, least) && Enough(hash, version, v, p, least)
    ensures AlwaysEnough(hash, version, v, points + [p], least)
  {
    var all := points + [p];
    forall i: nat ensures EnoughAt(hash, version, v, all, least, i) {
      assert EnoughAt(hash, version, v, points, least, i);
    }
  }

  /** A version that a trace is not about keeps its good copies. */
  lemma EnoughElsewhere(hash: Hash, version: Version, w: VersionId, points: seq<Point>, vs: set<VersionId>,
                        first: Point, last: Point, least: int)
    requires Trace(points, vs, first, last) && w !in vs && Enough(hash, version, w, first, least)
    ensures AlwaysEnough(hash, version, w, points, least)
  {
    forall i: nat ensures EnoughAt(hash, version, w, points, least, i) {
      if i < |points| {
        TraceElsewhere(points, vs, first, last, w, i);
        SameGood(hash, version, w, first, points[i]);
      }
    }
  }

  lemma SameGood(hash: Hash, version: Version, w: VersionId, p: Point, q: Point)
    requires SameFor(p, q, w)
    ensures HealthyRows(p.replicas, w) == HealthyRows(q.replicas, w)
    ensures GoodRows(hash, version, w, p.replicas, p.disks) == GoodRows(hash, version, w, q.replicas, q.disks)
  {
    assert HealthyRows(p.replicas, w) == HealthyRows(q.replicas, w);
    assert GoodRows(hash, version, w, p.replicas, p.disks) == GoodRows(hash, version, w, q.replicas, q.disks);
  }

  lemma EnoughOne(hash: Hash, version: Version, v: VersionId, p: Point, least: int)
    requires Enough(hash, version, v, p, least)
    ensures AlwaysEnough(hash, version, v, [p], least)
  {
    var points := [p];
    forall i: nat ensures EnoughAt(hash, version, v, points, least, i) {
    }
  }

  lemma EnoughLess(hash: Hash, version: Version, v: VersionId, points: seq<Point>, more: int, least: int)
    requires AlwaysEnough(hash, version, v, points, more) && least <= more
    ensures AlwaysEnough(hash, version, v, points, least)
  {
    forall i: nat ensures EnoughAt(hash, version, v, points, least, i) {
      assert EnoughAt(hash, version, v, points, more, i);
    }
  }

  lemma {:induction false} SubsetCount<T>(a: set<T>, b: set<T>)
    requires a <= b
    ensures |a| <= |b|
  {
    if a != {} {
      var x :| x in a;
      SubsetCount(a - {x}, b - {x});
    }
  }

  /** While only a row that was not HEALTHY and its bytes change, no good copy is lost. */
  lemma GoodUntouched(hash: Hash, version: Version, v: VersionId, before: map<ReplicaId, Replica>, after: map<ReplicaId,
                      Replica>,
                      disks: Disks, disks': Disks, t: ReplicaId, n: NodeId, from: set<ReplicaState>, to: ReplicaState)
    requires forall r, s :: RowOk(before, r, s)
    requires Retargeted(before, after, t, v, n, from, to) && Healthy !in from
    requires ChangedAt(disks, disks', n, v)
    ensures GoodRows(hash, version, v, before, disks) <= GoodRows(hash, version, v, after, disks')
    ensures |GoodRows(hash, version, v, before, disks)| <= |GoodRows(hash, version, v, after, disks')|
    ensures to == Healthy && Intact(hash, disks', n, v, version) && AllGood(hash, version, v, before, disks) ==>
              AllGood(hash, version, v, after, disks')
    ensures to != Healthy && AllGood(hash, version, v, before, disks) ==> AllGood(hash, version, v, after, disks')
  {
    RetargetedHealthy(before, after, t, v, n, from, to);
    forall r | r in HealthyRows(before, v)
      ensures before[r].node != n
      ensures r in after && (Intact(hash, disks, before[r].node, v, version) <==>
                               Intact(hash, disks', after[r].node, v, version))
    {
      assert RowOk(before, r, t);
      assert before[r].node == n ==> IsRow(before, r, v, n);
      IntactElsewhere(hash, disks, disks', n, v, before[r].node, v, version);
    }
    SubsetCount(GoodRows(hash, version, v, before, disks), GoodRows(hash, version, v, after, disks'));
  }

  /** Rows after a removal: the same, or without the row of v on n. */
  ghost predicate Without(before: map<ReplicaId, Replica>, after: map<ReplicaId, Replica>, v: VersionId, n: NodeId) {
    after == before || exists s :: s in before && IsRow(before, s, v, n) && after == before - {s}
  }

  /** Taking one node's bytes costs at most one good copy. */
  lemma OneLost(hash: Hash, version: Version, v: VersionId, replicas: map<ReplicaId, Replica>, after: map<ReplicaId,
                Replica>,
                disks: Disks, disks': Disks, n: NodeId)
    requires forall r, s :: RowOk(replicas, r, s)
    requires ChangedAt(disks, disks', n, v)
    requires Without(replicas, after, v, n)
    ensures |GoodRows(hash, version, v, after, disks')| >= |GoodRows(hash, version, v, replicas, disks)| - 1
  {
    var good, good' := GoodRows(hash, version, v, replicas, disks), GoodRows(hash, version, v, after, disks');
    var there := set r | r in good && replicas[r].node == n;
    forall r, s | r in there && s in there ensures r == s {
      assert RowOk(replicas, r, s);
    }
    AtMostOne(there);
    forall r | r in good - there ensures r in good' {
      IntactElsewhere(hash, disks, disks', n, v, replicas[r].node, v, version);
    }
    SubsetCount(good - there, good');
  }

  lemma AtMostOne<T>(all: set<T>)
    requires forall x, y :: x in all && y in all ==> x == y
    ensures |all| <= 1
  {
    if all != {} {
      var x :| x in all;
      assert all == {x};
    }
  }

  /** With more than rf good copies, at least rf are left when one node's bytes, and perhaps its row, are gone. */
  lemma EnoughLeft(hash: Hash, version: Version, v: VersionId, replicas: map<ReplicaId, Replica>, after: map<ReplicaId,
                   Replica>,
                   disks: Disks, disks': Disks, n: NodeId, rf: nat)
    requires forall r, s :: RowOk(replicas, r, s)
    requires ChangedAt(disks, disks', n, v) && |HealthyRows(replicas, v)| > rf
    requires Without(replicas, after, v, n)
    ensures AllGood(hash, version, v, replicas, disks) ==> Enough(hash, version, v, Point(after, disks'), rf)
  {
    OneLost(hash, version, v, replicas, after, disks, disks', n);
  }

  /** A trace that starts with more than rf good copies goes on to take one node's bytes, then perhaps its row. */
  lemma RemovalStep(hash: Hash, version: Version, v: VersionId, points: seq<Point>, start: Point, last: Point,
                    next: Point, n: NodeId, rf: nat)
    requires Trace(points, {v}, start, last) && Action(last, next, {v})
    requires forall r, s :: RowOk(start.replicas, r, s)
    requires ChangedAt(start.disks, next.disks, n, v) && Without(start.replicas, next.replicas, v, n)
             && |HealthyRows(start.replicas, v)| > rf
    requires AllGood(hash, version, v, start.replicas, start.disks) ==> AlwaysEnough(hash, version, v, points, rf)
    ensures Trace(points + [next], {v}, start, next)
    ensures AllGood(hash, version, v, start.replicas, start.disks) ==>
              AlwaysEnough(hash, version, v, points + [next], rf)
  {
    TraceMore(points, {v}, start, last, next);
    EnoughLeft(hash, version, v, start.replicas, next.replicas, start.disks, next.disks, n, rf);
    if AllGood(hash, version, v, start.replicas, start.disks) {
      assert next == Point(next.replicas, next.disks);
      EnoughMore(hash, version, v, points, next, rf);
    }
  }
}
