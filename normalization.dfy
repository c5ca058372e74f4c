/** `normalizeEndpoints`: a depth-first pass from the root collects every
    endpoint that the unmount transformation's `check` accepts, without
    touching the graph; then `perform` is applied to each collected endpoint
    in the order collected. */
module Normalization {
  import opened Wrappers
  import opened Graphs

  /** `UnmountVertexTransformation`, which is not part of this model. `check`
      decides from the graph whether an endpoint is mounted elsewhere, and
      `perform` gives the edge set after moving the endpoint, the root being
      the third argument. The transformation never adds or removes vertices,
      so vertex indices stay valid. */
  datatype Transformation<!V> = Transformation(
    check: (Graph<V>, nat) -> bool,
    perform: (Graph<V>, nat, nat) -> set<(nat, nat)>)

  /** The vertices of `s` that `check` accepts on `g`, in the order of `s`. */
  function Mounted<V>(g: Graph<V>, check: (Graph<V>, nat) -> bool, s: seq<nat>): seq<nat> {
    if s == [] then []
    else Mounted(g, check, s[..|s| - 1]) + (if check(g, s[|s| - 1]) then [s[|s| - 1]] else [])
  }

  lemma {:induction false} MountedMembers<V>(g: Graph<V>, check: (Graph<V>, nat) -> bool, s: seq<nat>)
    ensures forall x :: x in Mounted(g, check, s) <==> x in s && check(g, x)
  {
    if s != [] {
      var init := s[..|s| - 1];
      MountedMembers(g, check, init);
      assert s == init + [s[|s| - 1]];
    }
  }

  /** Collecting keeps the traversal free of duplicates, so `perform` runs at
      most once per endpoint. */
  lemma {:induction false} MountedNoDuplicates<V>(g: Graph<V>, check: (Graph<V>, nat) -> bool, s: seq<nat>)
    requires NoDuplicates(s)
    ensures NoDuplicates(Mounted(g, check, s))
  {
    if s != [] {
      var init := s[..|s| - 1];
      var last := s[|s| - 1];
      assert NoDuplicates(init);
      MountedNoDuplicates(g, check, init);
      MountedMembers(g, check, init);
      assert last !in init;
    }
  }

  /** The graph after `perform` has run for each vertex of `mounted` in turn.
      Each call sees the graph the previous calls left. */
  function PerformAll<V>(g: Graph<V>, perform: (Graph<V>, nat, nat) -> set<(nat, nat)>,
                         mounted: seq<nat>, root: nat): (r: Graph<V>)
    ensures r.vertices == g.vertices
  {
    if mounted == [] then g
    else
      var h := PerformAll(g, perform, mounted[..|mounted| - 1], root);
      Graph(h.vertices, perform(h, mounted[|mounted| - 1], root))
  }

  lemma MountedSnoc<V>(g: Graph<V>, check: (Graph<V>, nat) -> bool, s: seq<nat>, x: nat)
    ensures Mounted(g, check, s + [x]) == Mounted(g, check, s) + (if check(g, x) then [x] else [])
  {
    assert (s + [x])[..|s|] == s;
  }

  lemma PerformSnoc<V>(g: Graph<V>, perform: (Graph<V>, nat, nat) -> set<(nat, nat)>, m: seq<nat>, x: nat, root: nat)
    ensures PerformAll(g, perform, m + [x], root)
            == Graph(g.vertices, perform(PerformAll(g, perform, m, root), x, root))
  {
    assert (m + [x])[..|m|] == m;
  }

  /** `normalizeEndpoints`. `root` is `None` only for the graph of an empty
      API, which has no vertex; the depth-first pass then visits nothing. The
      ghost `order` is the visit order of the pass and `mounted` the list it
      collects. */
  method Normalize<V>(g: Graph<V>, root: Option<nat>, t: Transformation<V>)
    returns (g': Graph<V>, ghost order: seq<nat>, ghost mounted: seq<nat>)
    requires root.Some? ==> root.value < |g.vertices|
    requires root.None? ==> g.vertices == []
    ensures g'.vertices == g.vertices
    ensures root.None? ==> g' == g && mounted == []
    ensures root.Some? ==> |order| > 0 && order[0] == root.value && NoDuplicates(order) && InRange(g, order)
    ensures root.Some? ==> forall v :: v in order <==> Reachable(g, root.value, v)
    ensures mounted == Mounted(g, t.check, order)
    ensures root.Some? ==> g' == PerformAll(g, t.perform, mounted, root.value)
  {
    order := [];
    mounted := [];
    g' := g;
    if root.None? {
      return;
    }
    var start := root.value;
    var visited := Traverse(g, start);
    order := visited;
    var collected: seq<nat> := [];
    for i := 0 to |visited|
      invariant collected == Mounted(g, t.check, visited[..i])
    {
      MountedSnoc(g, t.check, visited[..i], visited[i]);
      assert visited[..i + 1] == visited[..i] + [visited[i]];
      if t.check(g, visited[i]) {
        collected := collected + [visited[i]];
      }
    }
    assert visited[..|visited|] == visited;
    mounted := collected;
    for i := 0 to |collected|
      invariant g' == PerformAll(g, t.perform, collected[..i], start)
    {
      PerformSnoc(g, t.perform, collected[..i], collected[i], start);
      assert collected[..i + 1] == collected[..i] + [collected[i]];
      g' := Graph(g'.vertices, t.perform(g', collected[i], start));
    }
    assert collected[..|collected|] == collected;
  }

  /** What normalization collects: exactly the endpoints reachable from the
      root that `check` accepts on the graph as it was before any move, each
      once. */
  lemma MountedAreReachableChecked<V>(g: Graph<V>, check: (Graph<V>, nat) -> bool, root: nat, order: seq<nat>)
    requires NoDuplicates(order)
    requires forall v :: v in order <==> Reachable(g, root, v)
    ensures forall v :: v in Mounted(g, check, order) <==> Reachable(g, root, v) && check(g, v)
    ensures NoDuplicates(Mounted(g, check, order))
  {
    MountedMembers(g, check, order);
    MountedNoDuplicates(g, check, order);
  }

  /** When `check` accepts no endpoint, normalization leaves the graph as it
      was. */
  lemma NothingMounted<V>(g: Graph<V>, check: (Graph<V>, nat) -> bool, perform: (Graph<V>, nat, nat) -> set<(nat, nat)>,
                          order: seq<nat>, root: nat)
    requires forall v :: !check(g, v)
    ensures Mounted(g, check, order) == []
    ensures PerformAll(g, perform, Mounted(g, check, order), root) == g
  {
    MountedMembers(g, check, order);
    if Mounted(g, check, order) != [] {
      assert Mounted(g, check, order)[0] in Mounted(g, check, order);
    }
  }
}
