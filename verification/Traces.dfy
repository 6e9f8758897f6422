/** Runs of a manager as the rows and bytes it leaves after every single action. */
module Traces {
  import opened Base
  import opened Tables
  import opened Metadata
  import opened Cluster

  /** Rows and bytes between two actions. */
  datatype Point = Point(replicas: map<ReplicaId, Replica>, disks: Disks)

  /** One metadata operation on row r of a version in `vs`: create, change of state, mark HEALTHY, or remove. */
  ghost predicate RowAction(before: map<ReplicaId, Replica>, after: map<ReplicaId, Replica>, vs: set<VersionId>,
                            r: ReplicaId) {
    && (r in before ==> before[r].version in vs)
    && (r in after ==> after[r].version in vs)
    && (match (r in before, r in after)
        case (false, true) => after == before[r := Replica(after[r].version, after[r].node, Pending, None, None)]
        case (true, true) =>
          && after == before[r := after[r]]
          && (|| (CanSet(before, r, after[r].status) && after[r] == before[r].(status := after[r].status))
              || (before[r].status in {Copying, Repairing} && after[r].status == Healthy
                  && after[r].version == before[r].version && after[r].node == before[r].node))
        case (true, false) => after == before - {r} && before[r].status in {Healthy, Corrupted, Stale, Unavailable}
        case (false, false) => false)
  }

  /** One node call about a version in `vs`: no effect, bytes gone, or bytes stored where there were none. */
  ghost predicate CallAction(before: Disks, after: Disks, vs: set<VersionId>, n: NodeId, v: VersionId) {
    && v in vs
    && (|| after == before
        || after == before - {(n, v)}
        || ((n, v) !in before && (n, v) in after && after == before[(n, v) := after[(n, v)]]))
  }

  /** Two points are one action apart: one metadata operation on the same bytes, or one call on the same rows. */
  ghost predicate Action(p: Point, q: Point, vs: set<VersionId>) {
    || (p.disks == q.disks && exists r :: RowAction(p.replicas, q.replicas, vs, r))
    || (p.replicas == q.replicas && exists n, v :: CallAction(p.disks, q.disks, vs, n, v))
  }

  ghost predicate ActionAt(points: seq<Point>, vs: set<VersionId>, i: nat) {
    i + 1 < |points| ==> Action(points[i], points[i + 1], vs)
  }

  // The ends do not depend on i; they stand under the quantifier so that a trace stays folded in proofs.

  /** The points lead from `first` to `last`, and at i it is one action to the next. */
  ghost predicate TraceAt(points: seq<Point>, vs: set<VersionId>, first: Point, last: Point, i: nat) {
    && points != [] && points[0] == first && points[|points| - 1] == last
    && ActionAt(points, vs, i)
  }

  /** The points lead from `first` to `last`, one action at a time. */
  ghost predicate Trace(points: seq<Point>, vs: set<VersionId>, first: Point, last: Point) {
    forall i :: TraceAt(points, vs, first, last, i)
  }

  lemma TraceEnds(points: seq<Point>, vs: set<VersionId>, first: Point, last: Point)
    requires Trace(points, vs, first, last)
    ensures points != [] && points[0] == first && points[|points| - 1] == last
  {
    assert TraceAt(points, vs, first, last, 0);
  }

  lemma TraceStarts(p: Point, vs: set<VersionId>)
    ensures Trace([p], vs, p, p)
  {
    var points := [p];
    forall i: nat ensures TraceAt(points, vs, p, p, i) {
    }
  }

  lemma TraceMore(points: seq<Point>, vs: set<VersionId>, first: Point, last: Point, next: Point)
    requires Trace(points, vs, first, last) && Action(last, next, vs)
    ensures Trace(points + [next], vs, first, next)
  {
    var all := points + [next];
    forall i: nat ensures TraceAt(all, vs, first, next, i) {
      assert TraceAt(points, vs, first, last, i);
    }
  }

  /** One trace after another; the point where they meet counts once. */
  function Joined(a: seq<Point>, b: seq<Point>): seq<Point> {
    if b == [] then a else a + b[1..]
  }

  lemma TraceJoin(a: seq<Point>, b: seq<Point>, vs: set<VersionId>, first: Point, mid: Point, last: Point)
    requires Trace(a, vs, first, mid) && Trace(b, vs, mid, last)
    ensures Trace(Joined(a, b), vs, first, last)
  {
    var all := Joined(a, b);
    TraceEnds(a, vs, first, mid);
    TraceEnds(b, vs, mid, last);
    forall i: nat ensures TraceAt(all, vs, first, last, i) {
      assert TraceAt(a, vs, first, mid, i);
      if |a| <= i + 1 < |all| {
        var j: nat := i + 1 - |a|;
        assert TraceAt(b, vs, mid, last, j);
        assert all[i] == b[j] && all[i + 1] == b[j + 1];
      }
    }
  }

  lemma TraceWider(points: seq<Point>, vs: set<VersionId>, more: set<VersionId>, first: Point, last: Point)
    requires Trace(points, vs, first, last) && vs <= more
    ensures Trace(points, more, first, last)
  {
    forall i: nat ensures TraceAt(points, more, first, last, i) {
      assert TraceAt(points, vs, first, last, i);
      if i + 1 < |points| {
        ActionWider(points[i], points[i + 1], vs, more);
      }
    }
  }

  lemma ActionWider(p: Point, q: Point, vs: set<VersionId>, more: set<VersionId>)
    requires Action(p, q, vs) && vs <= more
    ensures Action(p, q, more)
  {
    if p.disks == q.disks && exists r :: RowAction(p.replicas, q.replicas, vs, r) {
      var r :| RowAction(p.replicas, q.replicas, vs, r);
      assert RowAction(p.replicas, q.replicas, more, r);
    } else {
      var n, v :| CallAction(p.disks, q.disks, vs, n, v);
      assert CallAction(p.disks, q.disks, more, n, v);
    }
  }

  // ----- Single actions

  lemma ByRow(p: Point, q: Point, vs: set<VersionId>, r: ReplicaId)
    requires p.disks == q.disks && RowAction(p.replicas, q.replicas, vs, r)
    ensures Action(p, q, vs)
  {
  }

  lemma ByCall(p: Point, q: Point, vs: set<VersionId>, n: NodeId, v: VersionId)
    requires p.replicas == q.replicas && CallAction(p.disks, q.disks, vs, n, v)
    ensures Action(p, q, vs)
  {
  }

  // ----- Versions that a trace is not about

  /** The rows and bytes of version w are the same at both points. */
  ghost predicate SameFor(p: Point, q: Point, w: VersionId) {
    && (forall r :: r in p.replicas && p.replicas[r].version == w <==> r in q.replicas && q.replicas[r].version == w)
    && (forall r :: r in p.replicas && p.replicas[r].version == w ==> r in q.replicas && q.replicas[r] == p.replicas[r])
    && (forall n :: (n, w) in p.disks <==> (n, w) in q.disks)
    && (forall n :: (n, w) in p.disks ==> (n, w) in q.disks && q.disks[(n, w)] == p.disks[(n, w)])
  }

  lemma ActionElsewhere(p: Point, q: Point, vs: set<VersionId>, w: VersionId)
    requires Action(p, q, vs) && w !in vs
    ensures SameFor(p, q, w)
  {
    if p.disks == q.disks && exists r :: RowAction(p.replicas, q.replicas, vs, r) {
      var r :| RowAction(p.replicas, q.replicas, vs, r);
    } else {
      var n, v :| CallAction(p.disks, q.disks, vs, n, v);
      assert v != w;
    }
  }

  lemma {:induction false} TraceElsewhere(points: seq<Point>, vs: set<VersionId>, first: Point, last: Point,
                                          w: VersionId, i: nat)
    requires Trace(points, vs, first, last) && w !in vs && i < |points|
    ensures SameFor(first, points[i], w)
  {
    TraceEnds(points, vs, first, last);
    if i > 0 {
      TraceElsewhere(points, vs, first, last, w, i - 1);
      var j: nat := i - 1;
      assert TraceAt(points, vs, first, last, j);
      ActionElsewhere(points[j], points[i], vs, w);
    }
  }
}
