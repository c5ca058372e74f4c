/** `PathMap`: the trait graph of an API, built from its paths, and
    `getTraits`, which links every trait's module to the modules of the
    traits that precede it. */
module PathMaps {
  import opened Wrappers
  import opened Graphs
  import opened Config
  import opened Endpoints
  import opened Normalization
  import opened TraitGraphs
  import MC = ModuleContexts

  /** The module contexts of the traits in `vs`. */
  function ContextsOf(vs: seq<TraitContext>): set<MC.ModuleContext> {
    set i | 0 <= i < |vs| :: vs[i].moduleContext
  }

  /** The submodule sets of the traits in `vs`, in order. */
  ghost function SubmoduleSets(vs: seq<TraitContext>): (r: seq<set<MC.Submodule>>)
    reads ContextsOf(vs)
    ensures |r| == |vs|
  {
    if vs == [] then []
    else
      assert ContextsOf(vs[..|vs| - 1]) <= ContextsOf(vs);
      SubmoduleSets(vs[..|vs| - 1]) + [vs[|vs| - 1].moduleContext.submoduleSet]
  }

  lemma {:induction false} SubmoduleSetsAt(vs: seq<TraitContext>, a: nat)
    requires a < |vs|
    ensures SubmoduleSets(vs)[a] == vs[a].moduleContext.submoduleSet
  {
    if a < |vs| - 1 {
      SubmoduleSetsAt(vs[..|vs| - 1], a);
    }
  }

  /** The map of `getTraits` after the first `n` traits of `order`: each
      trait recorded under its `toString` rendering, the latest one winning. */
  function NameTable(g: Graph<TraitContext>, order: seq<nat>, n: nat): (r: map<string, nat>)
    requires n <= |order| && InRange(g, order)
    ensures forall x :: x in r ==> r[x] < |g.vertices|
  {
    if n == 0 then map[]
    else NameTable(g, order, n - 1)[g.vertices[order[n - 1]].name := order[n - 1]]
  }

  /** No two traits share a `toString` rendering. */
  ghost predicate DistinctNames(g: Graph<TraitContext>) {
    forall i, j :: 0 <= i < j < |g.vertices| ==> g.vertices[i].name != g.vertices[j].name
  }

  /** The map holds the name of every trait recorded so far and nothing
      else; when names are distinct it maps each name back to its trait. */
  lemma {:induction false} NameTableMeaning(g: Graph<TraitContext>, order: seq<nat>, n: nat)
    requires n <= |order| && InRange(g, order)
    ensures forall x :: x in NameTable(g, order, n) <==> exists j :: 0 <= j < n && g.vertices[order[j]].name == x
    ensures DistinctNames(g) ==>
              forall j :: 0 <= j < n ==> NameTable(g, order, n)[g.vertices[order[j]].name] == order[j]
  {
    if n > 0 {
      NameTableMeaning(g, order, n - 1);
    }
  }

  /** With distinct names, the traits `getTraits` returns are those it
      visited. */
  lemma RecordedTraits(g: Graph<TraitContext>, order: seq<nat>)
    requires InRange(g, order) && DistinctNames(g)
    ensures var table := NameTable(g, order, |order|);
            (set x | x in table && table[x] < |g.vertices| :: g.vertices[table[x]])
            == set j | 0 <= j < |order| :: g.vertices[order[j]]
  {
    NameTableMeaning(g, order, |order|);
    var table := NameTable(g, order, |order|);
    forall j | 0 <= j < |order|
      ensures g.vertices[order[j]] in set x | x in table && table[x] < |g.vertices| :: g.vertices[table[x]]
    {
      var x := g.vertices[order[j]].name;
      assert x in table && table[x] == order[j];
    }
  }

  /** The name `getTraits` adds for the trait at position `k` of `order`:
      the escaped last component of its module's path. */
  function Label(vs: seq<TraitContext>, order: seq<nat>, k: nat,
                 config: RustConfig, lastComponent: MC.CratePath -> string): string
    requires k < |order| && order[k] < |vs|
  {
    config.escapeReservedKeyword(lastComponent(vs[order[k]].moduleContext.path))
  }

  /** Every predecessor of the trait at position `k` is recorded, under its
      name, once that trait is. */
  predicate Resolved(g: Graph<TraitContext>, order: seq<nat>, k: nat)
    requires k < |order| && InRange(g, order)
  {
    forall e :: e in Predecessors(g, order[k]) ==> g.vertices[e].name in NameTable(g, order, k + 1)
  }

  ghost predicate AllResolved(g: Graph<TraitContext>, order: seq<nat>, n: nat)
    requires n <= |order| && InRange(g, order)
  {
    forall k :: 0 <= k < n ==> Resolved(g, order, k)
  }

  /** With distinct names, position `k` resolves exactly when every
      predecessor of its trait was visited no later: `getTraits` raises when
      it reaches a trait before one of the traits preceding it. */
  lemma ResolvedMeaning(g: Graph<TraitContext>, order: seq<nat>, k: nat)
    requires k < |order| && InRange(g, order) && DistinctNames(g)
    ensures Resolved(g, order, k) <==>
              forall e :: e in Predecessors(g, order[k]) ==> exists j :: 0 <= j <= k && order[j] == e
  {
    NameTableMeaning(g, order, k + 1);
    if Resolved(g, order, k) {
      forall e | e in Predecessors(g, order[k]) ensures exists j :: 0 <= j <= k && order[j] == e {
        var j :| 0 <= j < k + 1 && g.vertices[order[j]].name == g.vertices[e].name;
        assert order[j] == e;
      }
    }
  }

  /** The additions position `k` makes for the predecessors in `done`: the
      trait recorded under each one's name receives the label of the trait at
      `k`. */
  function Contribution(g: Graph<TraitContext>, order: seq<nat>, k: nat, done: set<nat>,
                        config: RustConfig, lastComponent: MC.CratePath -> string): (r: set<(int, string)>)
    requires k < |order| && InRange(g, order)
    ensures forall a, x :: (a, x) in r ==> x == Label(g.vertices, order, k, config, lastComponent)
  {
    var table := NameTable(g, order, k + 1);
    set e | e in done && e < |g.vertices| && g.vertices[e].name in table
      :: (table[g.vertices[e].name], Label(g.vertices, order, k, config, lastComponent))
  }

  /** The additions of the first `n` positions of `order`, as pairs of a
      target trait and a submodule name. */
  function Updates(g: Graph<TraitContext>, order: seq<nat>, n: nat,
                   config: RustConfig, lastComponent: MC.CratePath -> string): set<(int, string)>
    requires n <= |order| && InRange(g, order)
  {
    if n == 0 then {}
    else Updates(g, order, n - 1, config, lastComponent)
         + Contribution(g, order, n - 1, Predecessors(g, order[n - 1]), config, lastComponent)
  }

  /** With distinct names, position `k` gives its label to exactly those of
      its trait's predecessors visited no later. */
  lemma ContributionMeaning(g: Graph<TraitContext>, order: seq<nat>, k: nat,
                            config: RustConfig, lastComponent: MC.CratePath -> string)
    requires k < |order| && InRange(g, order) && DistinctNames(g)
    ensures forall a, x :: (a, x) in Contribution(g, order, k, Predecessors(g, order[k]), config, lastComponent) <==>
              (exists j :: 0 <= j <= k && order[j] == a) && a in Predecessors(g, order[k])
              && x == Label(g.vertices, order, k, config, lastComponent)
  {
    ContributionSound(g, order, k, config, lastComponent);
    ContributionComplete(g, order, k, config, lastComponent);
  }

  /** Every label given goes to a predecessor visited no later. */
  lemma ContributionSound(g: Graph<TraitContext>, order: seq<nat>, k: nat,
                          config: RustConfig, lastComponent: MC.CratePath -> string)
    requires k < |order| && InRange(g, order) && DistinctNames(g)
    ensures forall a, x :: (a, x) in Contribution(g, order, k, Predecessors(g, order[k]), config, lastComponent) ==>
              (exists j :: 0 <= j <= k && order[j] == a) && a in Predecessors(g, order[k])
  {
    forall a, x | (a, x) in Contribution(g, order, k, Predecessors(g, order[k]), config, lastComponent)
      ensures (exists j :: 0 <= j <= k && order[j] == a) && a in Predecessors(g, order[k])
    {
      var j := ContributionSource(g, order, k, config, lastComponent, a, x);
    }
  }

  lemma ContributionSource(g: Graph<TraitContext>, order: seq<nat>, k: nat,
                           config: RustConfig, lastComponent: MC.CratePath -> string, a: int, x: string)
    returns (j: nat)
    requires k < |order| && InRange(g, order) && DistinctNames(g)
    requires (a, x) in Contribution(g, order, k, Predecessors(g, order[k]), config, lastComponent)
    ensures j <= k && order[j] == a && a in Predecessors(g, order[k])
  {
    NameTableMeaning(g, order, k + 1);
    var table := NameTable(g, order, k + 1);
    var e :| e in Predecessors(g, order[k]) && e < |g.vertices| && g.vertices[e].name in table
             && (a, x) == (table[g.vertices[e].name], Label(g.vertices, order, k, config, lastComponent));
    j :| 0 <= j < k + 1 && g.vertices[order[j]].name == g.vertices[e].name;
    assert order[j] == e;
  }

  /** Every predecessor visited no later receives the label. */
  lemma ContributionComplete(g: Graph<TraitContext>, order: seq<nat>, k: nat,
                             config: RustConfig, lastComponent: MC.CratePath -> string)
    requires k < |order| && InRange(g, order) && DistinctNames(g)
    ensures forall a, j :: 0 <= j <= k && order[j] == a && a in Predecessors(g, order[k]) ==>
              (a, Label(g.vertices, order, k, config, lastComponent))
                in Contribution(g, order, k, Predecessors(g, order[k]), config, lastComponent)
  {
    NameTableMeaning(g, order, k + 1);
    var table := NameTable(g, order, k + 1);
    forall a, j | 0 <= j <= k && order[j] == a && a in Predecessors(g, order[k])
      ensures (a, Label(g.vertices, order, k, config, lastComponent))
                in Contribution(g, order, k, Predecessors(g, order[k]), config, lastComponent)
    {
      assert g.vertices[a].name in table;
    }
  }

  /** With distinct names, the additions are exactly these: trait `a`
      receives the label of the trait at position `k` when `a` precedes that
      trait and was visited no later. */
  lemma {:induction false} UpdatesMeaning(g: Graph<TraitContext>, order: seq<nat>, n: nat,
                                          config: RustConfig, lastComponent: MC.CratePath -> string)
    requires n <= |order| && InRange(g, order) && DistinctNames(g)
    ensures forall a, x :: (a, x) in Updates(g, order, n, config, lastComponent) <==>
              exists k, j :: 0 <= j <= k < n && order[j] == a && a in Predecessors(g, order[k])
                             && x == Label(g.vertices, order, k, config, lastComponent)
  {
    if n > 0 {
      UpdatesMeaning(g, order, n - 1, config, lastComponent);
      ContributionMeaning(g, order, n - 1, config, lastComponent);
    }
  }

  /** The names `u` adds to trait `a`. */
  function LabelsFor(u: set<(int, string)>, a: nat): set<string> {
    set p | p in u && p.0 == a :: p.1
  }

  lemma LabelsForAdd(u: set<(int, string)>, a: nat, b: nat, x: string)
    ensures LabelsFor(u + {(b, x)}, a) == LabelsFor(u, a) + (if a == b then {x} else {})
  {
  }

  /** `s` with a named entry added for every name of `names` it lacks: what a
      run of `addNamedSubmodule` calls leaves, in any order. */
  function AddNames(s: set<MC.Submodule>, names: set<string>): set<MC.Submodule> {
    s + set n | n in names && n !in MC.Names(s) :: MC.Submodule(n, false)
  }

  lemma AddNamesNames(s: set<MC.Submodule>, names: set<string>)
    ensures MC.Names(AddNames(s, names)) == MC.Names(s) + names
  {
    var added := set n | n in names && n !in MC.Names(s) :: MC.Submodule(n, false);
    forall n | n in names ensures n in MC.Names(s + added) {
      if n !in MC.Names(s) {
        assert MC.Submodule(n, false) in added;
      }
    }
  }

  /** One more `addNamedSubmodule` extends the names by one, whichever order
      the names come in. */
  lemma AddNamesStep(s: set<MC.Submodule>, names: set<string>, n: string)
    ensures MC.Add(AddNames(s, names), MC.Submodule(n, false)) == AddNames(s, names + {n})
  {
    AddNamesNames(s, names);
    MC.AddProperties(AddNames(s, names), MC.Submodule(n, false));
  }

  lemma AddNamesGrows(s: set<MC.Submodule>, names: set<string>)
    ensures s <= AddNames(s, names)
    ensures MC.UniqueNames(s) ==> MC.UniqueNames(AddNames(s, names))
  {
  }

  /** The submodule set each trait of `before` should hold once the names
      `u` gives it are added. */
  function Expected(before: seq<set<MC.Submodule>>, u: set<(int, string)>): (r: seq<set<MC.Submodule>>)
    ensures |r| == |before|
  {
    seq(|before|, a requires 0 <= a < |before| => AddNames(before[a], LabelsFor(u, a)))
  }

  /** Recording `(b, x)` adds one named entry to trait `b` and changes no
      other trait. */
  lemma ExpectedStep(before: seq<set<MC.Submodule>>, u: set<(int, string)>, b: nat, x: string)
    requires b < |before|
    ensures Expected(before, u + {(b, x)})
            == Expected(before, u)[b := MC.Add(Expected(before, u)[b], MC.Submodule(x, false))]
  {
    forall a | 0 <= a < |before|
      ensures Expected(before, u + {(b, x)})[a]
              == Expected(before, u)[b := MC.Add(Expected(before, u)[b], MC.Submodule(x, false))][a]
    {
      LabelsForAdd(u, a, b, x);
      if a == b {
        AddNamesStep(before[a], LabelsFor(u, a), x);
      }
    }
  }

  /** The traits of `vs` hold the submodule sets `sets`. */
  ghost predicate Holds(vs: seq<TraitContext>, sets: seq<set<MC.Submodule>>)
    reads ContextsOf(vs)
  {
    |sets| == |vs| && forall a :: 0 <= a < |vs| ==> vs[a].moduleContext.submoduleSet == sets[a]
  }

  /** Each trait of `vs` holds the entries of `before`, whose names are
      unique, with the names `u` gives it added. */
  ghost predicate SetsAre(vs: seq<TraitContext>, before: seq<set<MC.Submodule>>, u: set<(int, string)>)
    reads ContextsOf(vs)
  {
    && |before| == |vs|
    && (forall a :: 0 <= a < |before| ==> MC.UniqueNames(before[a]))
    && Holds(vs, Expected(before, u))
  }

  /** So every context stays valid and has only gained entries. */
  lemma SetsAreValid(vs: seq<TraitContext>, before: seq<set<MC.Submodule>>, u: set<(int, string)>, a: nat)
    requires SetsAre(vs, before, u) && a < |vs|
    ensures vs[a].moduleContext.Valid()
    ensures before[a] <= vs[a].moduleContext.submoduleSet
  {
    AddNamesGrows(before[a], LabelsFor(u, a));
  }

  lemma AllSetsValid(vs: seq<TraitContext>, before: seq<set<MC.Submodule>>, u: set<(int, string)>)
    requires SetsAre(vs, before, u)
    ensures forall a :: 0 <= a < |vs| ==>
              vs[a].moduleContext.Valid() && before[a] <= vs[a].moduleContext.submoduleSet
  {
    forall a | 0 <= a < |vs|
      ensures vs[a].moduleContext.Valid() && before[a] <= vs[a].moduleContext.submoduleSet
    {
      SetsAreValid(vs, before, u, a);
    }
  }

  lemma AllResolvedSnoc(g: Graph<TraitContext>, order: seq<nat>, k: nat)
    requires k < |order| && InRange(g, order)
    requires AllResolved(g, order, k) && Resolved(g, order, k)
    ensures AllResolved(g, order, k + 1)
  {
  }

  /** One more resolved predecessor adds one pair to the contribution. */
  lemma ContributionAdd(g: Graph<TraitContext>, order: seq<nat>, k: nat, done: set<nat>, e: nat,
                        config: RustConfig, lastComponent: MC.CratePath -> string)
    requires k < |order| && InRange(g, order)
    requires e < |g.vertices| && g.vertices[e].name in NameTable(g, order, k + 1)
    ensures Contribution(g, order, k, done + {e}, config, lastComponent)
            == Contribution(g, order, k, done, config, lastComponent)
               + {(NameTable(g, order, k + 1)[g.vertices[e].name], Label(g.vertices, order, k, config, lastComponent))}
  {
  }

  class PathMap {
    const graph: Graph<TraitContext>
    const root: Option<nat>

    /** The module contexts `getTraits` may change. */
    function Contexts(): set<MC.ModuleContext> {
      ContextsOf(graph.vertices)
    }

    /** The root is the first trait, present exactly when there is one; each
        trait owns its module context, and each context is a valid set. */
    ghost predicate Valid()
      reads Contexts()
    {
      && (root.Some? <==> |graph.vertices| > 0)
      && (root.Some? ==> root.value == 0)
      && OwnContexts(graph.vertices)
      && forall i :: 0 <= i < |graph.vertices| ==> graph.vertices[i].moduleContext.Valid()
    }

    /** No trait's module has a submodule yet. */
    ghost predicate Empty()
      reads Contexts()
    {
      forall i :: 0 <= i < |graph.vertices| ==> graph.vertices[i].moduleContext.submoduleSet == {}
    }

    constructor (graph: Graph<TraitContext>, root: Option<nat>)
      ensures this.graph == graph && this.root == root
    {
      this.graph := graph;
      this.root := root;
    }

    /** `getTraits`: a depth-first pass over the trait graph records each
        trait under its name and adds it, as a named submodule, to the trait
        recorded under the name of each of its predecessors; `traits.get`
        finding nothing raises. The result is the recorded traits. The ghost
        `order` is the visit order of the pass. */
    method GetTraits(config: RustConfig, lastComponent: MC.CratePath -> string)
      returns (r: Result<set<TraitContext>, PathMapError>, ghost order: seq<nat>)
      requires Valid()
      modifies Contexts()
      ensures Valid()
      ensures root.None? ==> order == [] && r == Success({})
      ensures root.Some? ==> |order| > 0 && order[0] == 0 && NoDuplicates(order) && InRange(graph, order)
      ensures root.Some? ==> forall v :: v in order <==> Reachable(graph, 0, v)
      ensures InRange(graph, order)
      ensures r.Success? <==> AllResolved(graph, order, |order|)
      ensures r.Success? ==>
                SetsAre(graph.vertices, old(SubmoduleSets(graph.vertices)),
                        Updates(graph, order, |order|, config, lastComponent))
      ensures r.Success? ==>
                var table := NameTable(graph, order, |order|);
                r.value == set x | x in table && table[x] < |graph.vertices| :: graph.vertices[table[x]]
      ensures forall a :: 0 <= a < |graph.vertices| ==>
                old(graph.vertices[a].moduleContext.submoduleSet) <= graph.vertices[a].moduleContext.submoduleSet
    {
      var vs := graph.vertices;
      ghost var before := SubmoduleSets(vs);
      forall a | 0 <= a < |vs| ensures before[a] == vs[a].moduleContext.submoduleSet && MC.UniqueNames(before[a]) {
        SubmoduleSetsAt(vs, a);
      }
      order := [];
      if root.None? {
        return Success({}), order;
      }
      var visited := Traverse(graph, 0);
      order := visited;
      ghost var u: set<(int, string)> := {};
      forall a | 0 <= a < |vs| ensures Expected(before, u)[a] == before[a] {
        assert LabelsFor(u, a) == {};
      }
      r, u := RecordTraits(vs, graph, visited, config, lastComponent, before);
      AllSetsValid(vs, before, u);
    }
  }

  /** The loop of `getTraits` over the traits in the visit order `order`:
      each is recorded under its name, then added to the traits recorded
      under the names of its predecessors. */
  method RecordTraits(vs: seq<TraitContext>, g: Graph<TraitContext>, order: seq<nat>,
                      config: RustConfig, lastComponent: MC.CratePath -> string,
                      ghost before: seq<set<MC.Submodule>>)
    returns (r: Result<set<TraitContext>, PathMapError>, ghost u: set<(int, string)>)
    requires vs == g.vertices && InRange(g, order)
    requires OwnContexts(vs)
    requires SetsAre(vs, before, {})
    modifies ContextsOf(vs)
    ensures SetsAre(vs, before, u)
    ensures r.Success? <==> AllResolved(g, order, |order|)
    ensures r.Success? ==> u == Updates(g, order, |order|, config, lastComponent)
    ensures r.Success? ==>
              var table := NameTable(g, order, |order|);
              r.value == set x | x in table && table[x] < |vs| :: vs[table[x]]
  {
    var table: map<string, nat> := map[];
    u := {};
    for k := 0 to |order|
      invariant table == NameTable(g, order, k)
      invariant u == Updates(g, order, k, config, lastComponent)
      invariant AllResolved(g, order, k)
      invariant SetsAre(vs, before, u)
    {
      r, table, u := RecordTrait(vs, g, order, k, table, config, lastComponent, before, u);
      if r.Failure? {
        return;
      }
    }
    r := Success(set x | x in table && table[x] < |vs| :: vs[table[x]]);
  }

  /** One turn of the loop of `getTraits`: the trait at position `k` is
      recorded under its name, then added to its predecessors' traits. */
  method RecordTrait(vs: seq<TraitContext>, g: Graph<TraitContext>, order: seq<nat>, k: nat,
                     table: map<string, nat>, config: RustConfig, lastComponent: MC.CratePath -> string,
                     ghost before: seq<set<MC.Submodule>>, ghost u: set<(int, string)>)
    returns (r: Result<set<TraitContext>, PathMapError>, table': map<string, nat>, ghost u': set<(int, string)>)
    requires vs == g.vertices && InRange(g, order) && k < |order|
    requires OwnContexts(vs)
    requires table == NameTable(g, order, k) && AllResolved(g, order, k)
    requires u == Updates(g, order, k, config, lastComponent)
    requires SetsAre(vs, before, u)
    modifies ContextsOf(vs)
    ensures SetsAre(vs, before, u')
    ensures r.Failure? ==> !AllResolved(g, order, |order|)
    ensures r.Success? ==> && table' == NameTable(g, order, k + 1)
                           && u' == Updates(g, order, k + 1, config, lastComponent)
                           && AllResolved(g, order, k + 1)
  {
    var t := order[k];
    table' := table[vs[t].name := t];
    var preds := Predecessors(g, t);
    r, u' := AddToPredecessors(vs, g, order, k, table', preds, config, lastComponent, before, u);
    if r.Success? {
      AllResolvedSnoc(g, order, k);
    }
  }

  method AddToPredecessors(vs: seq<TraitContext>, g: Graph<TraitContext>, order: seq<nat>, k: nat,
                           table: map<string, nat>, preds: set<nat>,
                           config: RustConfig, lastComponent: MC.CratePath -> string,
                           ghost before: seq<set<MC.Submodule>>, ghost u: set<(int, string)>)
    returns (r: Result<set<TraitContext>, PathMapError>, ghost u': set<(int, string)>)
    requires vs == g.vertices && InRange(g, order) && k < |order|
    requires OwnContexts(vs)
    requires table == NameTable(g, order, k + 1)
    requires preds == Predecessors(g, order[k])
    requires SetsAre(vs, before, u)
    modifies ContextsOf(vs)
    ensures SetsAre(vs, before, u')
    ensures r.Success? <==> Resolved(g, order, k)
    ensures r.Success? ==> u' == u + Contribution(g, order, k, preds, config, lastComponent)
  {
    var rest := preds;
    u' := u;
    ghost var done: set<nat> := {};
    while rest != {}
      invariant rest + done == preds && rest !! done
      invariant forall e :: e in done ==> vs[e].name in table
      invariant u' == u + Contribution(g, order, k, done, config, lastComponent)
      invariant SetsAre(vs, before, u')
      decreases rest
    {
      var e :| e in rest;
      if vs[e].name !in table {
        return Failure(MissingPredecessor(e)), u';
      }
      u' := AddLabel(vs, g, order, k, table, e, config, lastComponent, before, u, done, u');
      done, rest := done + {e}, rest - {e};
    }
    r := Success({});
  }

  /** One step of that loop: the trait recorded under the name of
      predecessor `e` receives the label of the trait at position `k`. */
  method AddLabel(vs: seq<TraitContext>, g: Graph<TraitContext>, order: seq<nat>, k: nat,
                  table: map<string, nat>, e: nat,
                  config: RustConfig, lastComponent: MC.CratePath -> string,
                  ghost before: seq<set<MC.Submodule>>, ghost u0: set<(int, string)>,
                  ghost done: set<nat>, ghost u: set<(int, string)>)
    returns (ghost u': set<(int, string)>)
    requires vs == g.vertices && InRange(g, order) && k < |order|
    requires OwnContexts(vs)
    requires table == NameTable(g, order, k + 1)
    requires e < |vs| && vs[e].name in table
    requires u == u0 + Contribution(g, order, k, done, config, lastComponent)
    requires SetsAre(vs, before, u)
    modifies ContextsOf(vs)
    ensures u' == u0 + Contribution(g, order, k, done + {e}, config, lastComponent)
    ensures SetsAre(vs, before, u')
  {
    var b := table[vs[e].name];
    var target := vs[b].moduleContext;
    SetsAreValid(vs, before, u, b);
    target.AddNamedSubmodule(lastComponent(vs[order[k]].moduleContext.path), config);
    ghost var added := Label(vs, order, k, config, lastComponent);
    ExpectedStep(before, u, b, added);
    ghost var sets := Expected(before, u)[b := target.submoduleSet];
    assert Holds(vs, sets);
    ContributionAdd(g, order, k, done, e, config, lastComponent);
    u' := u + {(b, added)};
  }

  /** Every path makes its endpoint: `addEndpoint` raises on none of them. */
  ghost predicate AllMakeable<P>(paths: map<string, P>, translate: (string, P) -> string) {
    forall p :: p in paths ==> MakeEndpoint(p, paths[p], translate).Success?
  }

  /** The endpoint graph of `paths` and what normalization makes of it:
      `built` is the graph before normalization and `mounted` the endpoints
      it moves. */
  ghost predicate Normalized<P>(paths: map<string, P>, translate: (string, P) -> string,
                                t: Transformation<ApiEndpoint<P>>, built: EndpointTable<P>, parents: seq<string>,
                                mounted: seq<nat>, normalized: Graph<ApiEndpoint<P>>)
  {
    && AllMakeable(paths, translate)
    && BuiltFrom(paths, translate, SortedPaths(paths), built, if |paths| == 0 then None else Some(0), parents)
    && normalized.vertices == built.graph.vertices
    && |normalized.vertices| == |paths|
    && (|paths| > 0 ==>
          && (forall v :: v in mounted <==> Reachable(built.graph, 0, v) && t.check(built.graph, v))
          && NoDuplicates(mounted)
          && normalized == PerformAll(built.graph, t.perform, mounted, 0))
  }

  /** The first half of the `PathMap` constructor: the paths, sorted, become
      the endpoint graph rooted at the first one, and normalization moves
      the endpoints mounted elsewhere. */
  method NormalizedEndpoints<P>(paths: map<string, P>, translate: (string, P) -> string,
                                t: Transformation<ApiEndpoint<P>>)
    returns (r: Result<Graph<ApiEndpoint<P>>, PathMapError>, ghost built: EndpointTable<P>,
             ghost parents: seq<string>, ghost mounted: seq<nat>)
    ensures r.Success? <==> AllMakeable(paths, translate)
    ensures r.Success? ==> |r.value.vertices| == |paths|
    ensures r.Success? ==> Normalized(paths, translate, t, built, parents, mounted, r.value)
  {
    var endpoints;
    endpoints, parents := BuildEndpointGraph(paths, translate);
    built, mounted := EndpointTable(Graph([], {}), map[]), [];
    if endpoints.Failure? {
      return Failure(endpoints.error), built, parents, mounted;
    }
    var table, root := endpoints.value.0, endpoints.value.1;
    built := table;
    assert |table.graph.vertices| == |paths|;
    var g;
    ghost var visited;
    g, visited, mounted := Normalize(table.graph, root, t);
    if root.Some? {
      MountedAreReachableChecked(table.graph, t.check, 0, visited);
    }
    r := Success(g);
  }

  /** What the trait graph built from the normalized endpoint graph `g`
      is: `order` is the visit order of the pass from the first endpoint,
      and the transformation succeeds exactly when each visited endpoint
      makes its trait and finds each predecessor's trait. */
  ghost predicate TraitsOf<P>(g: Graph<ApiEndpoint<P>>, f: TraitContextFactory<P>, order: seq<nat>,
                              r: Result<PathMap, PathMapError>)
  {
    |g.vertices| > 0 ==>
      && |order| > 0 && order[0] == 0 && NoDuplicates(order) && InRange(g, order)
      && (forall v :: v in order <==> Reachable(g, 0, v))
      && (r.Success? <==> TransformOk(g, PathsFrom(g, 0), f, order, |order|))
      && (r.Success? ==> Transformed(g, PathsFrom(g, 0), f, order, r.value.graph))
  }

  /** The second half of the `PathMap` constructor: the normalized endpoint
      graph becomes the trait graph, rooted at the first trait. */
  method FromEndpoints<P>(g: Graph<ApiEndpoint<P>>, root: Option<nat>, f: TraitContextFactory<P>)
    returns (r: Result<PathMap, PathMapError>, ghost order: seq<nat>)
    requires root == if |g.vertices| == 0 then None else Some(0)
    ensures |g.vertices| == 0 ==> r.Success? && order == []
    ensures TraitsOf(g, f, order, r)
    ensures r.Success? ==> fresh(r.value) && fresh(r.value.Contexts()) && r.value.Valid() && r.value.Empty()
    ensures r.Success? ==> (r.value.root.None? <==> |g.vertices| == 0)
  {
    var traits;
    traits, order := TransformToTraitContextGraph(g, root, f);
    if traits.Failure? {
      return Failure(traits.error), order;
    }
    var m := new PathMap(traits.value.0, traits.value.1);
    r := Success(m);
  }

  /** The `PathMap` constructor. The ghost results are the endpoint graph
      before normalization, the endpoints normalization moved, the graph
      after it and the visit order of the last pass. */
  method Build<P>(paths: map<string, P>, translate: (string, P) -> string,
                  t: Transformation<ApiEndpoint<P>>, f: TraitContextFactory<P>)
    returns (r: Result<PathMap, PathMapError>, ghost built: EndpointTable<P>, ghost parents: seq<string>,
             ghost mounted: seq<nat>, ghost normalized: Graph<ApiEndpoint<P>>, ghost order: seq<nat>)
    ensures !AllMakeable(paths, translate) ==> r.Failure?
    ensures AllMakeable(paths, translate) ==>
              Normalized(paths, translate, t, built, parents, mounted, normalized)
              && TraitsOf(normalized, f, order, r)
    ensures |paths| == 0 ==> r.Success? && order == []
    ensures r.Success? ==> fresh(r.value) && fresh(r.value.Contexts()) && r.value.Valid() && r.value.Empty()
    ensures r.Success? ==> (r.value.root.None? <==> |paths| == 0)
  {
    var endpoints;
    endpoints, built, parents, mounted := NormalizedEndpoints(paths, translate, t);
    normalized, order := Graph([], {}), [];
    if endpoints.Failure? {
      return Failure(endpoints.error), built, parents, mounted, normalized, order;
    }
    normalized := endpoints.value;
    r, order := FromEndpoints(endpoints.value, if |paths| == 0 then None else Some(0), f);
  }
}
