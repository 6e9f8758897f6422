/** Capacity-aware placement: filter, sort and limit, against the unique list of best nodes. */
module Placement {
  import opened Base
  import opened Tables

  // ----- The order: free space descending, then node id ascending

  /** Code-point order of node ids. */
  predicate Less(a: string, b: string) {
    b != "" && (a == "" || a[0] < b[0] || (a[0] == b[0] && Less(a[1..], b[1..])))
  }

  lemma {:induction false} LessIrreflexive(a: string)
    ensures !Less(a, a)
  {
    if a != "" {
      LessIrreflexive(a[1..]);
    }
  }

  lemma {:induction false} LessTransitive(a: string, b: string, c: string)
    requires Less(a, b) && Less(b, c)
    ensures Less(a, c)
  {
    if a != "" && a[0] == b[0] && b[0] == c[0] {
      LessTransitive(a[1..], b[1..], c[1..]);
    }
  }

  lemma {:induction false} LessTotal(a: string, b: string)
    ensures a == b || Less(a, b) || Less(b, a)
  {
    if a != "" && b != "" && a[0] == b[0] {
      LessTotal(a[1..], b[1..]);
      assert a == [a[0]] + a[1..] && b == [b[0]] + b[1..];
    }
  }

  function FreeOf(nodes: map<NodeId, Node>, n: NodeId): int {
    if n in nodes then nodes[n].capacity - nodes[n].used else 0
  }

  predicate Better(nodes: map<NodeId, Node>, a: NodeId, b: NodeId) {
    FreeOf(nodes, a) > FreeOf(nodes, b) || (FreeOf(nodes, a) == FreeOf(nodes, b) && Less(a, b))
  }

  lemma BetterIsStrictTotal(nodes: map<NodeId, Node>, a: NodeId, b: NodeId)
    ensures !Better(nodes, a, a)
    ensures a == b || Better(nodes, a, b) || Better(nodes, b, a)
    ensures !(Better(nodes, a, b) && Better(nodes, b, a))
  {
    LessIrreflexive(a);
    LessTotal(a, b);
    if Less(a, b) && Less(b, a) {
      LessTransitive(a, b, a);
    }
  }

  lemma BetterTransitive(nodes: map<NodeId, Node>, a: NodeId, b: NodeId, c: NodeId)
    requires Better(nodes, a, b) && Better(nodes, b, c)
    ensures Better(nodes, a, c)
  {
    if Less(a, b) && Less(b, c) {
      LessTransitive(a, b, c);
    }
  }

  // ----- Eligibility

  /** HEALTHY, room for the version, no row for it yet, and not excluded by the caller. */
  predicate Eligible(db: Tables, v: VersionId, size: nat, excluded: set<NodeId>, n: NodeId) {
    && n in db.nodes && db.nodes[n].status == NodeHealthy
    && FreeOf(db.nodes, n) >= size
    && !HasRow(db.replicas, v, n)
    && n !in excluded
  }

  function EligibleNodes(db: Tables, v: VersionId, size: nat, excluded: set<NodeId>): set<NodeId> {
    set n | n in db.nodes && Eligible(db, v, size, excluded, n)
  }

  // ----- The specification: the k best of a set

  ghost predicate Descending(nodes: map<NodeId, Node>, list: seq<NodeId>) {
    forall i, j :: 0 <= i < j < |list| ==> Better(nodes, list[i], list[j])
  }

  ghost predicate IsTop(nodes: map<NodeId, Node>, pool: set<NodeId>, k: nat, list: seq<NodeId>) {
    && |list| == k
    && (forall i :: 0 <= i < k ==> list[i] in pool)
    && Descending(nodes, list)
    && (forall n, i :: n in pool && n !in list && 0 <= i < k ==> Better(nodes, list[i], n))
  }

  ghost predicate IsBest(nodes: map<NodeId, Node>, pool: set<NodeId>, n: NodeId) {
    n in pool && forall m :: m in pool && m != n ==> Better(nodes, n, m)
  }

  /** The best node heads every top list. */
  lemma TopStartsWithBest(nodes: map<NodeId, Node>, pool: set<NodeId>, k: nat, list: seq<NodeId>)
    requires k > 0 && IsTop(nodes, pool, k, list)
    ensures IsBest(nodes, pool, list[0])
  {
  }

  lemma BestIsUnique(nodes: map<NodeId, Node>, pool: set<NodeId>, a: NodeId, b: NodeId)
    requires IsBest(nodes, pool, a) && IsBest(nodes, pool, b)
    ensures a == b
  {
    BetterIsStrictTotal(nodes, a, b);
  }

  lemma TopRest(nodes: map<NodeId, Node>, pool: set<NodeId>, k: nat, list: seq<NodeId>)
    requires k > 0 && IsTop(nodes, pool, k, list)
    ensures IsTop(nodes, pool - {list[0]}, k - 1, list[1..])
  {
    forall i | 0 <= i < k - 1 ensures list[1..][i] in pool - {list[0]} {
      BetterIsStrictTotal(nodes, list[0], list[i + 1]);
    }
  }

  /** There is only one list of the k best, whatever order the rows came in. */
  lemma {:induction false} TopIsUnique(nodes: map<NodeId, Node>, pool: set<NodeId>, k: nat, a: seq<NodeId>,
                                       b: seq<NodeId>)
    requires IsTop(nodes, pool, k, a) && IsTop(nodes, pool, k, b)
    ensures a == b
  {
    if k > 0 {
      TopStartsWithBest(nodes, pool, k, a);
      TopStartsWithBest(nodes, pool, k, b);
      BestIsUnique(nodes, pool, a[0], b[0]);
      TopRest(nodes, pool, k, a);
      TopRest(nodes, pool, k, b);
      TopIsUnique(nodes, pool - {a[0]}, k - 1, a[1..], b[1..]);
      assert a == [a[0]] + a[1..] && b == [b[0]] + b[1..];
    }
  }

  function Elements(list: seq<NodeId>): set<NodeId> {
    set n | n in list
  }

  /** Taking the best of what is left, over and over, gives the best ones in order. */
  lemma TopGrows(nodes: map<NodeId, Node>, pool: set<NodeId>, list: seq<NodeId>, n: NodeId)
    requires IsTop(nodes, pool, |list|, list) && IsBest(nodes, pool - Elements(list), n)
    ensures IsTop(nodes, pool, |list| + 1, list + [n])
  {
  }

  /** Every shorter list of the best ones is a beginning of the longer one, and the rest is not in it. */
  lemma TopPrefix(nodes: map<NodeId, Node>, pool: set<NodeId>, k: nat, list: seq<NodeId>, top: seq<NodeId>)
    requires IsTop(nodes, pool, k, top) && |list| < k && IsTop(nodes, pool, |list|, list)
    ensures top[..|list|] == list && top[|list|] in pool - Elements(list)
  {
    var j := |list|;
    var short := top[..j];
    assert forall l :: 0 <= l < j ==> top[l] == short[l];
    forall n, i | n in pool && n !in short && 0 <= i < j ensures Better(nodes, short[i], n) {
      if n in top {
        var l :| 0 <= l < |top| && top[l] == n;
      }
    }
    TopIsUnique(nodes, pool, j, short, list);
    if top[j] in short {
      var i :| 0 <= i < j && short[i] == top[j];
      BetterIsStrictTotal(nodes, top[i], top[j]);
    }
  }

  // ----- Filter, sort, limit

  /** The rows of the node table, each once, in whatever order the database returns them. */
  predicate Enumerates(rows: seq<NodeId>, nodes: map<NodeId, Node>) {
    && (forall n :: n in nodes ==> n in rows)
    && (forall i :: 0 <= i < |rows| ==> rows[i] in nodes)
    && (forall i, j :: 0 <= i < j < |rows| ==> rows[i] != rows[j])
  }

  function Insert(nodes: map<NodeId, Node>, n: NodeId, sorted: seq<NodeId>): seq<NodeId> {
    if sorted == [] || Better(nodes, n, sorted[0]) then [n] + sorted
    else [sorted[0]] + Insert(nodes, n, sorted[1..])
  }

  /** `WHERE` and `ORDER BY`: the eligible rows in placement order. */
  function Ranked(db: Tables, rows: seq<NodeId>, v: VersionId, size: nat, excluded: set<NodeId>): seq<NodeId> {
    if rows == [] then []
    else
      var rest := Ranked(db, rows[1..], v, size, excluded);
      if Eligible(db, v, size, excluded, rows[0]) then Insert(db.nodes, rows[0], rest) else rest
  }

  /** `select_nodes`: exactly `factor` nodes or an error. */
  function SelectNodes(db: Tables, rows: seq<NodeId>, v: VersionId, size: int,
                       factor: int): Result<seq<NodeId>, VaultError> {
    if size < 0 || factor < 1 then Err(ValueError)
    else
      var ranked := Ranked(db, rows, v, size, {});
      var candidates := ranked[..Min(factor, |ranked|)];
      if |candidates| < factor then Err(InsufficientReplicas) else Ok(candidates)
  }

  lemma {:induction false} InsertKeeps(nodes: map<NodeId, Node>, n: NodeId, sorted: seq<NodeId>)
    requires Descending(nodes, sorted) && n !in sorted
    ensures Descending(nodes, Insert(nodes, n, sorted))
    ensures forall m :: m in Insert(nodes, n, sorted) <==> m == n || m in sorted
    ensures |Insert(nodes, n, sorted)| == |sorted| + 1
  {
    var result := Insert(nodes, n, sorted);
    if sorted == [] {
    } else if Better(nodes, n, sorted[0]) {
      forall j | 0 < j < |result| ensures Better(nodes, n, result[j]) {
        if j > 1 {
          BetterTransitive(nodes, n, sorted[0], sorted[j - 1]);
        }
      }
    } else {
      var rest := Insert(nodes, n, sorted[1..]);
      assert sorted == [sorted[0]] + sorted[1..];
      InsertKeeps(nodes, n, sorted[1..]);
      BetterIsStrictTotal(nodes, sorted[0], n);
      forall j | 0 <= j < |rest| ensures Better(nodes, sorted[0], rest[j]) {
        assert rest[j] in rest;
      }
    }
  }

  lemma {:induction false} RankedIsSorted(db: Tables, rows: seq<NodeId>, v: VersionId, size: nat, excluded: set<NodeId>)
    requires forall i, j :: 0 <= i < j < |rows| ==> rows[i] != rows[j]
    ensures Descending(db.nodes, Ranked(db, rows, v, size, excluded))
    ensures forall n :: n in Ranked(db, rows, v, size, excluded) <==> n in rows && Eligible(db, v, size, excluded, n)
  {
    if rows != [] {
      RankedIsSorted(db, rows[1..], v, size, excluded);
      var rest := Ranked(db, rows[1..], v, size, excluded);
      assert rows == [rows[0]] + rows[1..];
      if Eligible(db, v, size, excluded, rows[0]) {
        assert rows[0] !in rest;
        InsertKeeps(db.nodes, rows[0], rest);
      }
    }
  }

  lemma {:induction false} DescendingCount(nodes: map<NodeId, Node>, list: seq<NodeId>)
    requires Descending(nodes, list)
    ensures |set n | n in list| == |list|
  {
    if list != [] {
      var head, rest := list[0], list[1..];
      DescendingCount(nodes, rest);
      assert head !in rest by {
        BetterIsStrictTotal(nodes, head, head);
        forall i | 0 <= i < |rest| ensures Better(nodes, head, rest[i]) {
          assert rest[i] == list[i + 1];
        }
      }
      assert (set n | n in list) == (set n | n in rest) + {head} by {
        assert list == [head] + rest;
      }
    }
  }

  /** Node n is HEALTHY, has room for the version, and no row of it. */
  ghost predicate Takes(db: Tables, v: VersionId, size: int, n: NodeId) {
    && n in db.nodes && db.nodes[n].status == NodeHealthy && db.nodes[n].capacity - db.nodes[n].used >= size
    && forall r :: r in db.replicas ==> !(db.replicas[r].version == v && db.replicas[r].node == n)
  }

  /** Node a has more free space than b, or as much and the smaller id. */
  ghost predicate FirstBy(db: Tables, a: NodeId, b: NodeId) {
    && a in db.nodes && b in db.nodes
    && var free, other := db.nodes[a].capacity - db.nodes[a].used, db.nodes[b].capacity - db.nodes[b].used;
       free > other || (free == other && Less(a, b))
  }

  lemma EligibleTakes(db: Tables, v: VersionId, size: nat, n: NodeId)
    ensures Eligible(db, v, size, {}, n) <==> Takes(db, v, size, n)
  {
    if Eligible(db, v, size, {}, n) {
      forall r | r in db.replicas ensures !(db.replicas[r].version == v && db.replicas[r].node == n) {
        assert !IsRow(db.replicas, r, v, n);
      }
    }
  }

  /**
    For every node table, in any row order, `select_nodes` returns the list of the `factor` best
    eligible nodes, or fails exactly when fewer are eligible: those that can take the version, most free space first.
   */
  lemma SelectIsTop(db: Tables, rows: seq<NodeId>, v: VersionId, size: int, factor: int)
    requires Enumerates(rows, db.nodes)
    requires size >= 0 && factor >= 1
    ensures var pool := EligibleNodes(db, v, size, {});
            var r := SelectNodes(db, rows, v, size, factor);
            if |pool| < factor then r == Err(InsufficientReplicas) else r.Ok? && IsTop(db.nodes, pool, factor, r.value)
    ensures var r := SelectNodes(db, rows, v, size, factor);
            r.Ok? ==>
              && (forall i :: 0 <= i < factor ==> Takes(db, v, size, r.value[i]))
              && (forall i, j :: 0 <= i < j < factor ==> FirstBy(db, r.value[i], r.value[j]))
              && (forall i, n :: 0 <= i < factor && Takes(db, v, size, n) && n !in r.value ==>
                    FirstBy(db, r.value[i], n))
  {
    var pool := EligibleNodes(db, v, size, {});
    var ranked := Ranked(db, rows, v, size, {});
    RankedIsSorted(db, rows, v, size, {});
    DescendingCount(db.nodes, ranked);
    assert (set n | n in ranked) == pool;
    if |pool| >= factor {
      var list := ranked[..factor];
      forall n, i | n in pool && n !in list && 0 <= i < factor ensures Better(db.nodes, list[i], n) {
        assert n in ranked;
        var j :| 0 <= j < |ranked| && ranked[j] == n;
        assert ranked == list + ranked[factor..];
      }
      forall n ensures n in pool <==> Takes(db, v, size, n) {
        EligibleTakes(db, v, size, n);
      }
    }
  }

  /** Row order does not matter. */
  lemma SelectIgnoresRowOrder(db: Tables, rows: seq<NodeId>, rows': seq<NodeId>, v: VersionId, size: int, factor: int)
    requires Enumerates(rows, db.nodes) && Enumerates(rows', db.nodes)
    ensures SelectNodes(db, rows, v, size, factor) == SelectNodes(db, rows', v, size, factor)
  {
    if size >= 0 && factor >= 1 {
      SelectIsTop(db, rows, v, size, factor);
      SelectIsTop(db, rows', v, size, factor);
      var pool := EligibleNodes(db, v, size, {});
      if |pool| >= factor {
        TopIsUnique(db.nodes, pool, factor, SelectNodes(db, rows, v, size, factor).value,
                    SelectNodes(db, rows', v, size, factor).value);
      }
    }
  }

  // ----- Single targets of repair and drain

  /** The limit-1 query of repair and drain, as one pass over the rows. */
  method BestTarget(db: Tables, v: VersionId, size: nat, excluded: set<NodeId>) returns (t: Option<NodeId>)
    ensures t.None? <==> EligibleNodes(db, v, size, excluded) == {}
    ensures t.Some? ==> IsBest(db.nodes, EligibleNodes(db, v, size, excluded), t.value)
    ensures t.Some? ==>
              && Takes(db, v, size, t.value) && t.value !in excluded
              && forall n :: Takes(db, v, size, n) && n !in excluded && n != t.value ==> FirstBy(db, t.value, n)
  {
    t := None;
    var rest := EligibleNodes(db, v, size, excluded);
    while rest != {}
      invariant rest <= EligibleNodes(db, v, size, excluded)
      invariant t.None? ==> rest == EligibleNodes(db, v, size, excluded)
      invariant t.Some? ==> IsBest(db.nodes, EligibleNodes(db, v, size, excluded) - rest, t.value)
      decreases rest
    {
      var n :| n in rest;
      if t.None? || Better(db.nodes, n, t.value) {
        forall m | m in EligibleNodes(db, v, size, excluded) - rest ensures Better(db.nodes, n, m) {
          if m != t.value {
            BetterTransitive(db.nodes, n, t.value, m);
          }
        }
        t := Some(n);
      } else {
        BetterIsStrictTotal(db.nodes, t.value, n);
      }
      rest := rest - {n};
    }
    forall n ensures n in EligibleNodes(db, v, size, excluded) <==> Takes(db, v, size, n) && n !in excluded {
      EligibleTakes(db, v, size, n);
      assert Eligible(db, v, size, excluded, n) <==> Eligible(db, v, size, {}, n) && n !in excluded;
    }
  }

  /**
    The repair target (no preferred replica) and the drain target are the first node that
    `select_nodes` would pick; excluding the drained node changes nothing, as it has a row.
   */
  lemma TargetHeadsSelection(db: Tables, rows: seq<NodeId>, v: VersionId, size: nat, factor: int, excluded: set<NodeId>,
                             t: NodeId)
    requires Enumerates(rows, db.nodes) && factor >= 1
    requires forall n :: n in excluded ==> HasRow(db.replicas, v, n)
    requires IsBest(db.nodes, EligibleNodes(db, v, size, excluded), t)
    requires SelectNodes(db, rows, v, size, factor).Ok?
    ensures SelectNodes(db, rows, v, size, factor).value[0] == t
  {
    assert EligibleNodes(db, v, size, excluded) == EligibleNodes(db, v, size, {});
    SelectIsTop(db, rows, v, size, factor);
    var pool := EligibleNodes(db, v, size, {});
    var list := SelectNodes(db, rows, v, size, factor).value;
    TopStartsWithBest(db.nodes, pool, factor, list);
    BestIsUnique(db.nodes, pool, list[0], t);
  }
}
