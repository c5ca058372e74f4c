/** Directed graphs as an arena: a vertex table and a set of edges between
    vertex indices, as `DefaultDirectedGraph` holds them (no parallel edges).
    An edge counts only between vertices of the table. Also: the traversal
    that the depth- and breadth-first iterators perform, abstracted to what
    both promise, and the enumeration of simple paths. */
module Graphs {

  datatype Graph<V> = Graph(vertices: seq<V>, edges: set<(nat, nat)>)

  predicate Edge<V>(g: Graph<V>, u: nat, v: nat) {
    u < |g.vertices| && v < |g.vertices| && (u, v) in g.edges
  }

  /** `Graphs.predecessorListOf`, as a set. */
  function Predecessors<V>(g: Graph<V>, v: nat): (r: set<nat>)
    ensures forall u :: u in r <==> Edge(g, u, v)
  {
    set u | 0 <= u < |g.vertices| && Edge(g, u, v)
  }

  predicate NoDuplicates(s: seq<nat>) {
    forall i, j :: 0 <= i < j < |s| ==> s[i] != s[j]
  }

  predicate InRange<V>(g: Graph<V>, s: seq<nat>) {
    forall i :: 0 <= i < |s| ==> s[i] < |g.vertices|
  }

  /** `p` is a walk: at least one vertex, and an edge between consecutive
      vertices. */
  predicate IsWalk<V>(g: Graph<V>, p: seq<nat>) {
    |p| >= 1 && InRange(g, p) && forall i :: 0 <= i < |p| - 1 ==> Edge(g, p[i], p[i + 1])
  }

  ghost predicate Reachable<V>(g: Graph<V>, root: nat, v: nat) {
    exists p :: IsWalk(g, p) && p[0] == root && p[|p| - 1] == v
  }

  lemma ReachableStep<V>(g: Graph<V>, root: nat, u: nat, v: nat)
    requires Reachable(g, root, u) && Edge(g, u, v)
    ensures Reachable(g, root, v)
  {
    var p :| IsWalk(g, p) && p[0] == root && p[|p| - 1] == u;
    assert IsWalk(g, p + [v]);
  }

  /** A duplicate-free sequence of vertex indices has at most as many
      elements as the table. */
  lemma {:induction false} DistinctBound(s: seq<nat>, n: nat)
    requires NoDuplicates(s)
    requires forall i :: 0 <= i < |s| ==> s[i] < n
    ensures |s| <= n
    decreases n
  {
    if |s| > 0 {
      assert s[0] < n;
      // Drop the element `n - 1`, if present, and bound the rest by `n - 1`.
      var rest := if exists i :: 0 <= i < |s| && s[i] == n - 1 then
                    var i :| 0 <= i < |s| && s[i] == n - 1; s[..i] + s[i + 1..]
                  else s;
      assert |rest| >= |s| - 1;
      assert NoDuplicates(rest);
      assert forall i :: 0 <= i < |rest| ==> rest[i] in s && rest[i] != n - 1;
      DistinctBound(rest, n - 1);
    }
  }

  /** Every vertex reachable from `root` lies in a set that holds `root` and
      is closed under edges. */
  lemma ClosedHoldsReachable<V>(g: Graph<V>, root: nat, s: seq<nat>, v: nat)
    requires root in s
    requires forall j, w :: 0 <= j < |s| && Edge(g, s[j], w) ==> w in s
    requires Reachable(g, root, v)
    ensures v in s
  {
    var p :| IsWalk(g, p) && p[0] == root && p[|p| - 1] == v;
    WalkStaysIn(g, s, p, |p| - 1);
  }

  lemma {:induction false} WalkStaysIn<V>(g: Graph<V>, s: seq<nat>, p: seq<nat>, k: nat)
    requires IsWalk(g, p) && p[0] in s
    requires forall j, w :: 0 <= j < |s| && Edge(g, s[j], w) ==> w in s
    requires k < |p|
    ensures p[k] in s
  {
    if k > 0 {
      WalkStaysIn(g, s, p, k - 1);
      assert Edge(g, p[k - 1], p[k]);
    }
  }

  /** Some vertex before position `k` has an edge into `order[k]`. */
  predicate Discovered<V>(g: Graph<V>, order: seq<nat>, k: nat)
    requires k < |order|
  {
    exists j :: 0 <= j < k && Edge(g, order[j], order[k])
  }

  /** The vertices an iterator started at `root` visits, in the order it
      visits them: `root` first, each reachable vertex exactly once, and each
      later vertex through an edge from one visited before it. The depth- and
      breadth-first iterators both satisfy this; their exact orders are not
      part of this model. */
  method Traverse<V>(g: Graph<V>, root: nat) returns (order: seq<nat>)
    requires root < |g.vertices|
    ensures |order| > 0 && order[0] == root
    ensures NoDuplicates(order) && InRange(g, order)
    ensures forall v :: v in order <==> Reachable(g, root, v)
    ensures forall k :: 0 < k < |order| ==> Discovered(g, order, k)
  {
    order := [root];
    assert IsWalk(g, [root]);
    var i := 0;
    while i < |order|
      invariant 0 <= i <= |order| && order[0] == root
      invariant NoDuplicates(order) && InRange(g, order)
      invariant forall v :: v in order ==> Reachable(g, root, v)
      invariant forall k :: 0 < k < |order| ==> Discovered(g, order, k)
      invariant forall j, w :: 0 <= j < i && Edge(g, order[j], w) ==> w in order
      decreases |g.vertices| - |order|, |order| - i
    {
      DistinctBound(order, |g.vertices|);
      var u := order[i];
      var v := 0;
      ghost var size := |order|;
      while v < |g.vertices|
        invariant 0 <= v <= |g.vertices|
        invariant i < size <= |order| && order[0] == root && order[i] == u
        invariant NoDuplicates(order) && InRange(g, order)
        invariant forall x :: x in order ==> Reachable(g, root, x)
        invariant forall k :: 0 < k < |order| ==> Discovered(g, order, k)
        invariant forall j, w :: 0 <= j < i && Edge(g, order[j], w) ==> w in order
        invariant forall w :: 0 <= w < v && Edge(g, u, w) ==> w in order
      {
        if Edge(g, u, v) && v !in order {
          ReachableStep(g, root, u, v);
          assert Discovered(g, order + [v], |order|) by {
            assert (order + [v])[i] == u;
          }
          forall k | 0 < k < |order| ensures Discovered(g, order + [v], k) {
            assert Discovered(g, order, k);
            var j :| 0 <= j < k && Edge(g, order[j], order[k]);
            assert (order + [v])[j] == order[j] && (order + [v])[k] == order[k];
          }
          order := order + [v];
        }
        v := v + 1;
      }
      if |order| > size {
        DistinctBound(order, |g.vertices|);
      }
      i := i + 1;
    }
    forall v | Reachable(g, root, v) ensures v in order {
      ClosedHoldsReachable(g, root, order, v);
    }
  }

  /** A simple path from `from` to `to`: a walk without repeated vertices. */
  predicate SimplePath<V>(g: Graph<V>, p: seq<nat>, from: nat, to: nat) {
    IsWalk(g, p) && NoDuplicates(p) && p[0] == from && p[|p| - 1] == to
  }

  lemma ExtendSimple<V>(g: Graph<V>, p: seq<nat>)
    requires IsWalk(g, p) && NoDuplicates(p)
    ensures |p| <= |g.vertices|
    ensures forall v :: Edge(g, p[|p| - 1], v) && v !in p ==>
              IsWalk(g, p + [v]) && NoDuplicates(p + [v]) && |p| + 1 <= |g.vertices|
  {
    DistinctBound(p, |g.vertices|);
    forall v | Edge(g, p[|p| - 1], v) && v !in p
      ensures IsWalk(g, p + [v]) && NoDuplicates(p + [v]) && |p| + 1 <= |g.vertices|
    {
      assert forall i :: 0 <= i < |p| ==> (p + [v])[i] == p[i];
      DistinctBound(p + [v], |g.vertices|);
    }
  }

  /** The simple paths that extend `p` and end at `to`, stopping there. */
  function PathsExtending<V>(g: Graph<V>, p: seq<nat>, to: nat): set<seq<nat>>
    requires IsWalk(g, p) && NoDuplicates(p)
    decreases |g.vertices| - |p|
  {
    ExtendSimple(g, p);
    if p[|p| - 1] == to then {p}
    else
      set v, q | 0 <= v < |g.vertices| && Edge(g, p[|p| - 1], v) && v !in p
                 && q in PathsExtending(g, p + [v], to) :: q
  }

  lemma {:induction false} PathsExtendingSound<V>(g: Graph<V>, p: seq<nat>, to: nat, q: seq<nat>)
    requires IsWalk(g, p) && NoDuplicates(p)
    requires q in PathsExtending(g, p, to)
    ensures SimplePath(g, q, p[0], to) && p <= q
    decreases |g.vertices| - |p|
  {
    ExtendSimple(g, p);
    if p[|p| - 1] != to {
      var v :| 0 <= v < |g.vertices| && Edge(g, p[|p| - 1], v) && v !in p
               && q in PathsExtending(g, p + [v], to);
      PathsExtendingSound(g, p + [v], to, q);
    }
  }

  lemma {:induction false} PathsExtendingComplete<V>(g: Graph<V>, p: seq<nat>, to: nat, q: seq<nat>)
    requires IsWalk(g, p) && NoDuplicates(p)
    requires SimplePath(g, q, p[0], to) && p <= q
    ensures q in PathsExtending(g, p, to)
    decreases |q| - |p|
  {
    ExtendSimple(g, p);
    if p[|p| - 1] == to {
      assert q[|p| - 1] == to == q[|q| - 1];
      assert |p| == |q|;
      assert q == p;
    } else {
      assert |p| < |q|;
      var v := q[|p|];
      assert Edge(g, p[|p| - 1], v) by {
        assert q[|p| - 1] == p[|p| - 1];
      }
      assert v !in p by {
        forall i | 0 <= i < |p| ensures p[i] != v {
          assert p[i] == q[i];
        }
      }
      assert p + [v] <= q;
      PathsExtendingComplete(g, p + [v], to, q);
    }
  }

  /** The simple paths from `from` to `to` (`AllDirectedPaths.getAllPaths`
      with simple paths only and no length bound). When `from == to` the one
      path is the single vertex. */
  function SimplePaths<V>(g: Graph<V>, from: nat, to: nat): (r: set<seq<nat>>)
    requires from < |g.vertices|
    ensures forall q :: q in r <==> SimplePath(g, q, from, to)
  {
    assert IsWalk(g, [from]);
    forall q | q in PathsExtending(g, [from], to) ensures SimplePath(g, q, from, to) {
      PathsExtendingSound(g, [from], to, q);
    }
    forall q | SimplePath(g, q, from, to) ensures q in PathsExtending(g, [from], to) {
      PathsExtendingComplete(g, [from], to, q);
    }
    PathsExtending(g, [from], to)
  }

  /** With edges only from lower to higher indices, every walk ascends, so
      the graph has no cycle. */
  lemma {:induction false} AscendingWalk<V>(g: Graph<V>, p: seq<nat>, i: nat, j: nat)
    requires forall u, v :: Edge(g, u, v) ==> u < v
    requires IsWalk(g, p)
    requires i < j < |p|
    ensures p[i] < p[j]
    decreases j - i
  {
    assert Edge(g, p[i], p[i + 1]);
    if i + 1 < j {
      AscendingWalk(g, p, i + 1, j);
    }
  }
}
