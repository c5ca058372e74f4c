/** The first half of the `PathMap` constructor: every path of the API, in
    ascending order, becomes a vertex of the endpoint graph, with an edge from
    the endpoint of the longest earlier path that occurs in it (`addEndpoint`).
    The graph and the `endpoints` map are threaded through as values. */
module Endpoints {
  import opened Wrappers
  import Text
  import Sorting
  import opened Graphs
  import opened LastIndex

  /** `ApiEndpoint`: the translated name, the summary (last path component)
      and the path item it was made from. */
  datatype ApiEndpoint<P> = ApiEndpoint(name: string, summary: string, pathItem: P)

  /** The exceptions the `PathMap` code can raise. */
  datatype PathMapError =
    | EmptyPath                       // `path.charAt(-1)` on the empty path
    | NoSummary(path: string)         // `components[-1]` when the split is empty
    | MultiplePaths(endpoint: nat)    // more than one path from the root
    | NoPath(endpoint: nat)           // `apiPaths.get(0)` on an empty list
    | MissingTrait(endpoint: nat)     // `addEdge(null, trait)`
    | MissingPredecessor(vertex: nat)  // `traits.get(...)` null in `getTraits`

  /** The path with one trailing `/` removed, if it has one. */
  function Stripped(path: string): (r: string)
    ensures path != [] && path[|path| - 1] == '/' ==> path == r + "/"
    ensures path == [] || path[|path| - 1] != '/' ==> r == path
  {
    if path != [] && path[|path| - 1] == '/' then path[..|path| - 1] else path
  }

  /** Appending one `/` is undone by stripping, so exactly one is stripped. */
  lemma StrippedUndoesSlash(p: string)
    ensures Stripped(p + "/") == p
  {
  }

  /** The last `/`-separated component of a stripped path; there is none when
      the path is non-empty and made of `/` only. */
  function Summarize(stripped: string): (r: Result<string, PathMapError>)
    ensures r.Failure? <==> stripped != [] && forall k :: 0 <= k < |stripped| ==> stripped[k] == '/'
    ensures r.Success? ==> '/' !in r.value
  {
    Text.SplitEmptyIff(stripped, '/');
    var components := Text.Split(stripped, '/');
    if |components| == 0 then Failure(NoSummary(stripped))
    else Success(components[|components| - 1])
  }

  /** The summary is the last component: it follows the start of the path or
      a `/`, and only `/`s come after it. */
  lemma SummaryIsLastComponent(stripped: string) returns (before: string, after: string)
    requires Summarize(stripped).Success?
    ensures stripped == before + Summarize(stripped).value + after
    ensures before == [] || before[|before| - 1] == '/'
    ensures forall k :: 0 <= k < |after| ==> after[k] == '/'
  {
    before, after := Text.LastPiece(stripped, '/');
  }

  /** The stripped path and the endpoint `addEndpoint` makes for a path. */
  function MakeEndpoint<P>(path: string, item: P, translate: (string, P) -> string)
    : (r: Result<(string, ApiEndpoint<P>), PathMapError>)
    ensures r.Failure? <==> path == [] || (|path| >= 2 && forall k :: 0 <= k < |path| ==> path[k] == '/')
    ensures r.Success? ==> r.value.0 == Stripped(path) && r.value.1.pathItem == item
    ensures r.Success? ==> r.value.1.name == translate(Stripped(path), item)
    ensures r.Success? ==> '/' !in r.value.1.summary
  {
    if path == [] then Failure(EmptyPath)
    else
      var stripped := Stripped(path);
      assert (|path| >= 2 && forall k :: 0 <= k < |path| ==> path[k] == '/')
             ==> stripped != [] && forall k :: 0 <= k < |stripped| ==> stripped[k] == '/';
      match Summarize(stripped)
      case Failure(e) => Failure(e)
      case Success(summary) => Success((stripped, ApiEndpoint(translate(stripped, item), summary, item)))
  }

  /** The summary of an endpoint is the last component of its stripped path:
      it follows the start of that path or a `/`, and only `/`s come after
      it. */
  lemma EndpointSummary<P>(path: string, item: P, translate: (string, P) -> string)
    returns (before: string, after: string)
    requires MakeEndpoint(path, item, translate).Success?
    ensures Stripped(path) == before + MakeEndpoint(path, item, translate).value.1.summary + after
    ensures before == [] || before[|before| - 1] == '/'
    ensures forall k :: 0 <= k < |after| ==> after[k] == '/'
  {
    before, after := SummaryIsLastComponent(Stripped(path));
  }

  /** `maxSubstring` is a valid outcome of the loop over the recorded paths:
      `""` or a recorded path that occurs in `path` and is not `path` itself,
      and no such recorded path is longer. */
  predicate IsParentChoice(keys: set<string>, path: string, m: string) {
    (m == "" || (m in keys && Text.Contains(path, m) && m != path))
    && forall k :: k in keys && Text.Contains(path, k) && k != path ==> |k| <= |m|
  }

  /** Every parent choice has the same length; only the iteration order of
      the map decides between recorded paths of equal length. */
  lemma ParentChoiceLength(keys: set<string>, path: string, m1: string, m2: string)
    requires IsParentChoice(keys, path, m1) && IsParentChoice(keys, path, m2)
    ensures |m1| == |m2|
  {
    if m1 != "" && m2 != "" {
    } else if m1 == "" {
      assert m2 == "" || (m2 in keys && Text.Contains(path, m2) && m2 != path);
    } else {
      assert m1 in keys && Text.Contains(path, m1) && m1 != path;
    }
  }

  /** The loop of `addEndpoint` that picks `maxSubstring`; the keys are
      visited in an order that is not specified. */
  method ChooseParent(keys: set<string>, path: string) returns (m: string)
    ensures IsParentChoice(keys, path, m)
  {
    m := "";
    var rest := keys;
    while rest != {}
      invariant rest <= keys
      invariant m == "" || (m in keys && Text.Contains(path, m) && m != path)
      invariant forall k :: k in keys - rest && Text.Contains(path, k) && k != path ==> |k| <= |m|
      decreases |rest|
    {
      var k :| k in rest;
      if Text.Contains(path, k) && |k| > |m| && path != k {
        m := k;
      }
      rest := rest - {k};
    }
  }

  datatype EndpointTable<P> = EndpointTable(graph: Graph<ApiEndpoint<P>>, endpoints: map<string, nat>)

  /** The map records vertices of the graph, and every edge goes from an
      earlier vertex to a later one. */
  ghost predicate ValidTable<P>(t: EndpointTable<P>) {
    (forall k :: k in t.endpoints ==> t.endpoints[k] < |t.graph.vertices|)
    && (forall u, v :: (u, v) in t.graph.edges ==> u < v < |t.graph.vertices|)
  }

  /** The vertices with an edge into `v`. */
  function Incoming(edges: set<(nat, nat)>, v: nat): (r: set<nat>)
    ensures forall u :: u in r <==> (u, v) in edges
  {
    set e | e in edges && e.1 == v :: e.0
  }

  /** The table after `addEndpoint` has recorded `made` with parent choice
      `parent`: one new vertex, the stripped path mapped to it, and an edge
      from the parent's endpoint when the map was non-empty and holds the
      parent. The call returns the new vertex exactly when the map was empty. */
  ghost predicate Added<P>(t: EndpointTable<P>, made: (string, ApiEndpoint<P>), parent: string,
                     t': EndpointTable<P>, root: Option<nat>)
  {
    var n := |t.graph.vertices|;
    t'.graph.vertices == t.graph.vertices + [made.1]
    && t'.endpoints == t.endpoints[made.0 := n]
    && root == (if t.endpoints == map[] then Some(n) else None)
    && (t.endpoints != map[] ==> IsParentChoice(t.endpoints.Keys, made.0, parent))
    && t'.graph.edges == t.graph.edges
         + (if t.endpoints != map[] && parent in t.endpoints then {(t.endpoints[parent], n)} else {})
  }

  /** `addEndpoint`. An exception leaves the table as it was. */
  method AddEndpoint<P>(t: EndpointTable<P>, path: string, item: P, translate: (string, P) -> string)
    returns (r: Result<(EndpointTable<P>, Option<nat>), PathMapError>, parent: string)
    requires ValidTable(t)
    ensures r.Failure? <==> MakeEndpoint(path, item, translate).Failure?
    ensures r.Success? ==> Added(t, MakeEndpoint(path, item, translate).value, parent, r.value.0, r.value.1)
    ensures r.Success? ==> ValidTable(r.value.0)
  {
    parent := "";
    var made := MakeEndpoint(path, item, translate);
    if made.Failure? {
      return Failure(made.error), parent;
    }
    var (stripped, current) := made.value;
    var n := |t.graph.vertices|;
    var vertices := t.graph.vertices + [current];
    var edges := t.graph.edges;
    var root: Option<nat> := None;
    if t.endpoints != map[] {
      parent := ChooseParent(t.endpoints.Keys, stripped);
      if parent in t.endpoints {
        edges := edges + {(t.endpoints[parent], n)};
      }
    } else {
      root := Some(n);
    }
    var endpoints := t.endpoints[stripped := n];
    r := Success((EndpointTable(Graph(vertices, edges), endpoints), root));
  }

  /** The paths in the order the constructor visits them. */
  function SortedPaths<P>(paths: map<string, P>): (sorted: seq<string>)
    ensures |sorted| == |paths| && Sorting.SortedBy(sorted, Text.Less)
    ensures forall p :: p in sorted <==> p in paths
  {
    Text.LessIsStrictTotalOrder();
    Sorting.SortSet(paths.Keys, Text.Less)
  }

  /** The stripped forms of the sorted paths. */
  function StrippedPaths(sorted: seq<string>): (r: seq<string>)
    ensures |r| == |sorted|
  {
    if sorted == [] then [] else StrippedPaths(sorted[..|sorted| - 1]) + [Stripped(sorted[|sorted| - 1])]
  }

  lemma {:induction false} StrippedPathsAt(sorted: seq<string>, j: nat)
    requires j < |sorted|
    ensures StrippedPaths(sorted)[j] == Stripped(sorted[j])
  {
    if j < |sorted| - 1 {
      StrippedPathsAt(sorted[..|sorted| - 1], j);
    }
  }

  /** The edge source that vertex `v`'s parent choice gives: the vertex the
      map built from the earlier stripped paths holds for the parent, if any. */
  function ParentEdge(strs: seq<string>, parents: seq<string>, v: nat): set<nat>
    requires 0 < v < |strs| == |parents|
  {
    var m := Latest(strs[..v]);
    if parents[v] in m then {m[parents[v]]} else {}
  }

  /** Each later vertex's parent choice is made among the earlier paths. */
  ghost predicate ParentsChosen(strs: seq<string>, parents: seq<string>)
    requires |strs| == |parents|
  {
    forall v :: 0 < v < |strs| ==> IsParentChoice(Latest(strs[..v]).Keys, strs[v], parents[v])
  }

  /** Vertex 0 has no incoming edge; every later vertex has exactly the one
      its parent choice gives, or none. */
  ghost predicate EdgesFromParents(strs: seq<string>, parents: seq<string>, edges: set<(nat, nat)>)
    requires |strs| == |parents|
  {
    (|strs| > 0 ==> Incoming(edges, 0) == {})
    && forall v :: 0 < v < |strs| ==> Incoming(edges, v) == ParentEdge(strs, parents, v)
  }

  /** What the constructor's loop has built from the stripped paths `strs`
      and their endpoints `vs`: vertex `j` is `vs[j]`, the map sends each
      stripped path to its last vertex, and the edges are those the parent
      choices give. */
  ghost predicate Built<P>(strs: seq<string>, vs: seq<ApiEndpoint<P>>, parents: seq<string>, t: EndpointTable<P>) {
    && |strs| == |vs| == |parents|
    && t.graph.vertices == vs
    && t.endpoints == Latest(strs)
    && ParentsChosen(strs, parents)
    && EdgesFromParents(strs, parents, t.graph.edges)
  }

  lemma IncomingUnion(edges: set<(nat, nat)>, add: set<(nat, nat)>, v: nat)
    ensures Incoming(edges + add, v) == Incoming(edges, v) + Incoming(add, v)
  {
  }

  lemma ParentsChosenSnoc(strs: seq<string>, parents: seq<string>, s: string, parent: string)
    requires |strs| == |parents| && ParentsChosen(strs, parents)
    requires |strs| > 0 ==> IsParentChoice(Latest(strs).Keys, s, parent)
    ensures ParentsChosen(strs + [s], parents + [parent])
  {
    var strs', parents' := strs + [s], parents + [parent];
    forall v | 0 < v < |strs'|
      ensures IsParentChoice(Latest(strs'[..v]).Keys, strs'[v], parents'[v])
    {
      if v < |strs| {
        assert strs'[..v] == strs[..v];
      } else {
        assert strs'[..v] == strs;
      }
    }
  }

  lemma EdgesSnocAt(strs: seq<string>, parents: seq<string>, edges: set<(nat, nat)>, s: string, parent: string,
                    added: set<(nat, nat)>, v: nat)
    requires |strs| == |parents| && EdgesFromParents(strs, parents, edges)
    requires forall u, w :: (u, w) in edges ==> w < |strs|
    requires added == (if |strs| > 0 && parent in Latest(strs) then {(Latest(strs)[parent], |strs|)} else {})
    requires 0 < v <= |strs|
    ensures Incoming(edges + added, v) == ParentEdge(strs + [s], parents + [parent], v)
  {
    IncomingUnion(edges, added, v);
    var strs' := strs + [s];
    if v < |strs| {
      assert strs'[..v] == strs[..v];
      assert Incoming(added, v) == {};
    } else {
      assert strs'[..v] == strs;
      assert Incoming(edges, v) == {};
    }
  }

  lemma EdgesSnoc(strs: seq<string>, parents: seq<string>, edges: set<(nat, nat)>, s: string, parent: string,
                  added: set<(nat, nat)>)
    requires |strs| == |parents| && EdgesFromParents(strs, parents, edges)
    requires forall u, v :: (u, v) in edges ==> v < |strs|
    requires added == (if |strs| > 0 && parent in Latest(strs) then {(Latest(strs)[parent], |strs|)} else {})
    ensures EdgesFromParents(strs + [s], parents + [parent], edges + added)
  {
    forall v | 0 < v < |strs| + 1
      ensures Incoming(edges + added, v) == ParentEdge(strs + [s], parents + [parent], v)
    {
      EdgesSnocAt(strs, parents, edges, s, parent, added, v);
    }
    if |strs| == 0 {
      IncomingUnion(edges, added, 0);
    } else {
      IncomingUnion(edges, added, 0);
      assert Incoming(added, 0) == {};
    }
  }

  /** One `addEndpoint` call extends what the loop has built by one path. */
  lemma BuiltSnoc<P>(strs: seq<string>, vs: seq<ApiEndpoint<P>>, parents: seq<string>, t: EndpointTable<P>,
                     made: (string, ApiEndpoint<P>), parent: string, t': EndpointTable<P>, root: Option<nat>)
    requires ValidTable(t) && Built(strs, vs, parents, t)
    requires Added(t, made, parent, t', root)
    ensures Built(strs + [made.0], vs + [made.1], parents + [parent], t')
    ensures root == (if |strs| == 0 then Some(0) else None)
  {
    assert t.endpoints == map[] <==> |strs| == 0 by {
      if |strs| > 0 {
        LatestIsLast(strs, 0);
      }
    }
    LatestSnoc(strs, made.0);
    ParentsChosenSnoc(strs, parents, made.0, parent);
    EdgesSnoc(strs, parents, t.graph.edges, made.0, parent, t'.graph.edges - t.graph.edges);
  }

  /** Before the loop nothing has been added. */
  lemma BuiltFromNothing<P>(paths: map<string, P>, translate: (string, P) -> string, sorted: seq<string>)
    ensures BuiltFrom(paths, translate, sorted[..0], EndpointTable(Graph([], {}), map[]), None, [])
  {
    assert sorted[..0] == [];
  }

  /** One iteration of the constructor's loop: `addEndpoint` for `path`. */
  method BuildStep<P>(t: EndpointTable<P>, path: string, item: P, translate: (string, P) -> string,
                      ghost strs: seq<string>, ghost parents: seq<string>)
    returns (r: Result<(EndpointTable<P>, Option<nat>), PathMapError>, parent: string)
    requires ValidTable(t) && Built(strs, t.graph.vertices, parents, t)
    ensures r.Failure? <==> MakeEndpoint(path, item, translate).Failure?
    ensures r.Success? ==> var made := MakeEndpoint(path, item, translate).value;
              && ValidTable(r.value.0)
              && r.value.0.graph.vertices == t.graph.vertices + [made.1]
              && Built(strs + [made.0], r.value.0.graph.vertices, parents + [parent], r.value.0)
              && r.value.1 == (if |strs| == 0 then Some(0) else None)
  {
    r, parent := AddEndpoint(t, path, item, translate);
    if r.Success? {
      var made := MakeEndpoint(path, item, translate).value;
      BuiltSnoc(strs, t.graph.vertices, parents, t, made, parent, r.value.0, r.value.1);
    }
  }

  /** Every path of `s` is a key of `paths` and has an endpoint. */
  ghost predicate AllMade<P>(paths: map<string, P>, translate: (string, P) -> string, s: seq<string>) {
    forall j :: 0 <= j < |s| ==> s[j] in paths && MakeEndpoint(s[j], paths[s[j]], translate).Success?
  }

  /** The endpoints of the paths of `s`, in order. */
  ghost function EndpointsOf<P>(paths: map<string, P>, translate: (string, P) -> string, s: seq<string>)
    : (r: seq<ApiEndpoint<P>>)
    requires AllMade(paths, translate, s)
    ensures |r| == |s|
  {
    if s == [] then []
    else EndpointsOf(paths, translate, s[..|s| - 1]) + [MakeEndpoint(s[|s| - 1], paths[s[|s| - 1]], translate).value.1]
  }

  /** Vertex `j` of the graph built from `s` is the endpoint of `s[j]`. */
  lemma {:induction false} EndpointsOfAt<P>(paths: map<string, P>, translate: (string, P) -> string, s: seq<string>, j: nat)
    requires AllMade(paths, translate, s) && j < |s|
    ensures EndpointsOf(paths, translate, s)[j] == MakeEndpoint(s[j], paths[s[j]], translate).value.1
  {
    if j < |s| - 1 {
      var init := s[..|s| - 1];
      assert init[j] == s[j];
      EndpointsOfAt(paths, translate, init, j);
    }
  }

  /** Appending a path that has an endpoint extends each of the sequences
      above by that path's entry. */
  lemma MadeSnoc<P>(paths: map<string, P>, translate: (string, P) -> string, s: seq<string>, p: string)
    requires AllMade(paths, translate, s)
    requires p in paths && MakeEndpoint(p, paths[p], translate).Success?
    ensures AllMade(paths, translate, s + [p])
    ensures StrippedPaths(s + [p]) == StrippedPaths(s) + [MakeEndpoint(p, paths[p], translate).value.0]
    ensures EndpointsOf(paths, translate, s + [p])
            == EndpointsOf(paths, translate, s) + [MakeEndpoint(p, paths[p], translate).value.1]
  {
    assert (s + [p])[..|s|] == s;
    forall j | 0 <= j < |s| ensures (s + [p])[j] == s[j] {
    }
  }

  /** `t` and `root` are what adding the paths of `sorted` in order to an
      empty table gives: every path has an endpoint, vertex `j` is the
      endpoint of `sorted[j]`, the edges follow the parent choices, and the
      root is the first vertex. */
  ghost predicate BuiltFrom<P>(paths: map<string, P>, translate: (string, P) -> string, sorted: seq<string>,
                               t: EndpointTable<P>, root: Option<nat>, parents: seq<string>)
  {
    && AllMade(paths, translate, sorted)
    && ValidTable(t)
    && Built(StrippedPaths(sorted), t.graph.vertices, parents, t)
    && t.graph.vertices == EndpointsOf(paths, translate, sorted)
    && root == (if |sorted| == 0 then None else Some(0))
  }

  lemma PrefixSnoc<T>(s: seq<T>, i: nat)
    requires i < |s|
    ensures s[..i + 1] == s[..i] + [s[i]]
  {
  }

  /** One iteration of the constructor's loop: `addEndpoint` for the path at
      position `i`, after the paths before it. */
  method AddAt<P>(paths: map<string, P>, translate: (string, P) -> string, sorted: seq<string>, i: nat,
                  t: EndpointTable<P>, root: Option<nat>, ghost parents: seq<string>)
    returns (r: Result<(EndpointTable<P>, Option<nat>), PathMapError>, ghost parents': seq<string>)
    requires i < |sorted| && sorted[i] in paths
    requires BuiltFrom(paths, translate, sorted[..i], t, root, parents)
    ensures r.Failure? ==> MakeEndpoint(sorted[i], paths[sorted[i]], translate).Failure?
    ensures r.Success? ==> BuiltFrom(paths, translate, sorted[..i + 1], r.value.0, r.value.1, parents')
  {
    var path := sorted[i];
    var step, parent := BuildStep(t, path, paths[path], translate, StrippedPaths(sorted[..i]), parents);
    parents' := parents + [parent];
    if step.Failure? {
      return Failure(step.error), parents';
    }
    PrefixSnoc(sorted, i);
    MadeSnoc(paths, translate, sorted[..i], path);
    r := Success((step.value.0, if step.value.1.Some? then step.value.1 else root));
  }

  /** The constructor's loop over the paths in the order given. */
  method AddAll<P>(paths: map<string, P>, translate: (string, P) -> string, sorted: seq<string>)
    returns (r: Result<(EndpointTable<P>, Option<nat>), PathMapError>, ghost parents: seq<string>)
    requires forall j :: 0 <= j < |sorted| ==> sorted[j] in paths
    ensures r.Failure? ==> exists j :: 0 <= j < |sorted| && MakeEndpoint(sorted[j], paths[sorted[j]], translate).Failure?
    ensures r.Success? ==> BuiltFrom(paths, translate, sorted, r.value.0, r.value.1, parents)
  {
    var t := EndpointTable(Graph([], {}), map[]);
    var root: Option<nat> := None;
    parents := [];
    BuiltFromNothing(paths, translate, sorted);
    for i := 0 to |sorted|
      invariant BuiltFrom(paths, translate, sorted[..i], t, root, parents)
    {
      var step;
      step, parents := AddAt(paths, translate, sorted, i, t, root, parents);
      if step.Failure? {
        return Failure(step.error), parents;
      }
      t, root := step.value.0, step.value.1;
    }
    assert sorted[..|sorted|] == sorted;
    r := Success((t, root));
  }

  /** The first half of the constructor: the endpoint graph of all paths, in
      ascending order, and the root, which is the endpoint of the first path
      because only the first call sees an empty map. Any path without an
      endpoint raises. */
  method BuildEndpointGraph<P>(paths: map<string, P>, translate: (string, P) -> string)
    returns (r: Result<(EndpointTable<P>, Option<nat>), PathMapError>, ghost parents: seq<string>)
    ensures r.Failure? <==> exists p :: p in paths && MakeEndpoint(p, paths[p], translate).Failure?
    ensures r.Success? ==> BuiltFrom(paths, translate, SortedPaths(paths), r.value.0, r.value.1, parents)
    ensures r.Success? ==> r.value.1 == (if |paths| == 0 then None else Some(0))
  {
    var sorted := SortedPaths(paths);
    r, parents := AddAll(paths, translate, sorted);
    if r.Success? {
      AllMadeCovers(paths, translate, sorted);
    }
  }

  lemma AllMadeCovers<P>(paths: map<string, P>, translate: (string, P) -> string, sorted: seq<string>)
    requires forall p :: p in paths <==> p in sorted
    requires AllMade(paths, translate, sorted)
    ensures forall p :: p in paths ==> MakeEndpoint(p, paths[p], translate).Success?
  {
    forall p | p in paths ensures MakeEndpoint(p, paths[p], translate).Success? {
      var j :| 0 <= j < |sorted| && sorted[j] == p;
    }
  }

  /** In a table's graph every walk ascends, so the endpoint graph has no
      cycle. */
  lemma NoCycle<P>(t: EndpointTable<P>, p: seq<nat>)
    requires ValidTable(t) && IsWalk(t.graph, p) && |p| >= 2
    ensures p[0] != p[|p| - 1]
  {
    AscendingWalk(t.graph, p, 0, |p| - 1);
  }
}
