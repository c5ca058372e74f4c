/** `getPath`: the summaries along the one simple path from the root to an
    endpoint, or the exception raised when there are several paths or none. */
module EndpointPaths {
  import opened Wrappers
  import opened Graphs
  import opened Endpoints

  /** The summaries of the endpoints along `p`, first vertex first. */
  function Summaries<P>(g: Graph<ApiEndpoint<P>>, p: seq<nat>): (r: seq<string>)
    requires InRange(g, p)
    ensures |r| == |p|
  {
    seq(|p|, i requires 0 <= i < |p| => g.vertices[p[i]].summary)
  }

  lemma SingletonElements<T>(s: set<T>)
    requires |s| == 1
    ensures forall a, b :: a in s && b in s ==> a == b
  {
    var x :| x in s;
    assert |s - {x}| == 0;
    assert s == {x};
  }

  /** `getPath(root, v)`. `getAllPaths` with simple paths only lists every
      simple path once; more than one raises `MultiplePaths`, none makes
      `apiPaths.get(0)` raise, here `NoPath`. */
  function GetPath<P>(g: Graph<ApiEndpoint<P>>, root: nat, v: nat): (r: Result<seq<string>, PathMapError>)
    requires root < |g.vertices|
    ensures r == Failure(MultiplePaths(v)) <==>
              exists p, q :: SimplePath(g, p, root, v) && SimplePath(g, q, root, v) && p != q
    ensures r == Failure(NoPath(v)) <==> forall p :: !SimplePath(g, p, root, v)
    ensures r.Failure? ==> r == Failure(MultiplePaths(v)) || r == Failure(NoPath(v))
    ensures r.Success? ==> forall p :: SimplePath(g, p, root, v) ==> r.value == Summaries(g, p)
  {
    var paths := SimplePaths(g, root, v);
    if |paths| > 1 then
      var p :| p in paths;
      assert |paths - {p}| > 0;
      var q :| q in paths - {p};
      Failure(MultiplePaths(v))
    else if |paths| == 0 then
      assert forall p :: p !in paths;
      Failure(NoPath(v))
    else
      SingletonElements(paths);
      var p :| p in paths;
      Success(Summaries(g, p))
  }

  /** A successful `getPath` lists the root's summary first and the
      endpoint's last. */
  lemma GetPathEnds<P>(g: Graph<ApiEndpoint<P>>, root: nat, v: nat)
    requires root < |g.vertices| && GetPath(g, root, v).Success?
    ensures var s := GetPath(g, root, v).value;
            |s| >= 1 && s[0] == g.vertices[root].summary
            && v < |g.vertices| && s[|s| - 1] == g.vertices[v].summary
  {
    var paths := SimplePaths(g, root, v);
    assert |paths| > 0;
    var p :| p in paths;
  }

  /** The root's own path is the root alone, whatever the edges. */
  lemma GetPathOfRoot<P>(g: Graph<ApiEndpoint<P>>, root: nat)
    requires root < |g.vertices|
    ensures GetPath(g, root, root) == Success([g.vertices[root].summary])
  {
    assert IsWalk(g, [root]) && SimplePath(g, [root], root, root);
    forall p | SimplePath(g, p, root, root) ensures p == [root] {
      assert p[0] == p[|p| - 1];
    }
    assert Summaries(g, [root]) == [g.vertices[root].summary];
  }

  /** Every vertex has at most one predecessor and the root none: the shape
      the endpoint graph has before normalization. */
  ghost predicate SingleParent<V>(g: Graph<V>, root: nat) {
    (forall u :: !Edge(g, u, root))
    && forall u, w, v :: Edge(g, u, v) && Edge(g, w, v) ==> u == w
  }

  /** In such a graph two walks from the root to the same vertex are equal
      when both are simple. */
  lemma {:induction false} SingleParentPathUnique<V>(g: Graph<V>, root: nat, v: nat, p: seq<nat>, q: seq<nat>)
    requires SingleParent(g, root)
    requires SimplePath(g, p, root, v) && SimplePath(g, q, root, v)
    ensures p == q
    decreases |p| + |q|
  {
    if |p| == 1 || |q| == 1 {
      // Then `v` is the root, which a simple path from the root holds only
      // at its start.
      assert p[0] == p[|p| - 1] && q[0] == q[|q| - 1];
    } else {
      var p', q' := p[..|p| - 1], q[..|q| - 1];
      assert Edge(g, p[|p| - 2], v) && Edge(g, q[|q| - 2], v);
      var u := p[|p| - 2];
      assert IsWalk(g, p') && NoDuplicates(p');
      assert IsWalk(g, q') && NoDuplicates(q');
      SingleParentPathUnique(g, root, u, p', q');
      assert p == p' + [v] && q == q' + [v];
    }
  }

  /** So `getPath` never reports several paths in a single-parent graph. */
  lemma SingleParentNoMultiplePaths<P>(g: Graph<ApiEndpoint<P>>, root: nat, v: nat)
    requires root < |g.vertices| && SingleParent(g, root)
    ensures GetPath(g, root, v) != Failure(MultiplePaths(v))
  {
    forall p, q | SimplePath(g, p, root, v) && SimplePath(g, q, root, v) ensures p == q {
      SingleParentPathUnique(g, root, v, p, q);
    }
  }

  /** A walk whose vertices repeat can be cut short: every walk from the root
      to `v` contains a simple path from the root to `v`. */
  lemma {:induction false} ShortenWalk<V>(g: Graph<V>, p: seq<nat>) returns (q: seq<nat>)
    requires IsWalk(g, p)
    ensures SimplePath(g, q, p[0], p[|p| - 1])
    decreases |p|
  {
    if NoDuplicates(p) {
      return p;
    }
    var i, j :| 0 <= i < j < |p| && p[i] == p[j];
    var cut := p[..i] + p[j..];
    assert |cut| < |p|;
    assert cut[0] == p[0] && cut[|cut| - 1] == p[|p| - 1];
    assert IsWalk(g, cut) by {
      forall k | 0 <= k < |cut| - 1 ensures Edge(g, cut[k], cut[k + 1]) {
        if k < i - 1 {
          assert cut[k] == p[k] && cut[k + 1] == p[k + 1];
        } else if k == i - 1 {
          assert cut[k] == p[i - 1] && cut[k + 1] == p[j] == p[i];
        } else {
          assert cut[k] == p[k - i + j] && cut[k + 1] == p[k + 1 - i + j];
        }
      }
    }
    q := ShortenWalk(g, cut);
  }

  /** In a single-parent graph `getPath` succeeds exactly for the vertices
      reachable from the root. */
  lemma SingleParentGetPath<P>(g: Graph<ApiEndpoint<P>>, root: nat, v: nat)
    requires root < |g.vertices| && SingleParent(g, root)
    ensures GetPath(g, root, v).Success? <==> Reachable(g, root, v)
  {
    SingleParentNoMultiplePaths(g, root, v);
    if Reachable(g, root, v) {
      var p :| IsWalk(g, p) && p[0] == root && p[|p| - 1] == v;
      var q := ShortenWalk(g, p);
    }
    if GetPath(g, root, v).Success? {
      var p :| SimplePath(g, p, root, v);
      assert IsWalk(g, p) && p[0] == root && p[|p| - 1] == v;
    }
  }

  /** Before normalization the endpoint graph is single-parent, rooted at
      the first vertex. */
  lemma BuiltIsSingleParent<P>(strs: seq<string>, parents: seq<string>, t: EndpointTable<P>)
    requires ValidTable(t) && Built(strs, t.graph.vertices, parents, t) && |strs| > 0
    ensures SingleParent(t.graph, 0)
  {
    forall u ensures !Edge(t.graph, u, 0) {
      assert u !in Incoming(t.graph.edges, 0);
    }
    forall u, w, v | Edge(t.graph, u, v) && Edge(t.graph, w, v) ensures u == w {
      assert u in Incoming(t.graph.edges, v) && w in Incoming(t.graph.edges, v);
      assert v != 0;
    }
  }
}
