/** `transformToTraitContextGraph`: a breadth-first pass over the normalized
    endpoint graph makes one trait per endpoint from its path, records it by
    Rust type, and adds an edge into it from the trait of each predecessor's
    Rust type. The trait graph is an arena like the endpoint graph: vertex
    `i` is the trait made at position `i` of the pass. */
module TraitGraphs {
  import opened Wrappers
  import opened Graphs
  import opened LastIndex
  import opened Endpoints
  import opened EndpointPaths
  import MC = ModuleContexts

  /** `RustType` is not part of this model; a type is represented by its
      rendering, and two types are equal when their renderings are. */
  type RustType = string

  /** What `makeTraitContext` decides about the trait it makes: its Rust
      type, its `toString` rendering and the path of its module. */
  datatype TraitSpec = TraitSpec(rustType: RustType, name: string, modulePath: MC.CratePath)

  /** `TraitContextFactory`, which is not part of this model. */
  datatype TraitContextFactory<!P> = TraitContextFactory(
    makeTraitContext: (seq<string>, P) -> TraitSpec,
    getRustType: seq<string> -> RustType)

  /** A trait with its own, initially empty, module context. */
  class TraitContext {
    const rustType: RustType
    const name: string
    const moduleContext: MC.ModuleContext

    constructor (spec: TraitSpec)
      ensures rustType == spec.rustType && name == spec.name
      ensures fresh(moduleContext) && moduleContext.path == spec.modulePath
      ensures moduleContext.submoduleSet == {} && moduleContext.Valid()
    {
      rustType := spec.rustType;
      name := spec.name;
      moduleContext := new MC.ModuleContext(spec.modulePath);
    }
  }

  /** What `getPath` gives for each endpoint of the graph being transformed.
      The pass only consults it; `PathsFrom` is the one it is run with. */
  type Paths = nat -> Result<seq<string>, PathMapError>

  /** `getPath` from `root`, for every endpoint. */
  function PathsFrom<P>(g: Graph<ApiEndpoint<P>>, root: nat): Paths
    requires root < |g.vertices|
  {
    (v: nat) => GetPath(g, root, v)
  }

  /** The trait the factory makes for endpoint `v`, from the summaries along
      its path; `getPath` may raise instead. */
  function SpecAt<P>(g: Graph<ApiEndpoint<P>>, paths: Paths, f: TraitContextFactory<P>, v: nat)
    : (r: Result<TraitSpec, PathMapError>)
    requires v < |g.vertices|
  {
    match paths(v)
    case Failure(e) => Failure(e)
    case Success(path) => Success(f.makeTraitContext(path, g.vertices[v].pathItem))
  }

  /** The Rust type of predecessor `u`, from its own path. */
  function PredecessorType<P>(paths: Paths, f: TraitContextFactory<P>, u: nat)
    : (r: Result<RustType, PathMapError>)
  {
    match paths(u)
    case Failure(e) => Failure(e)
    case Success(path) => Success(f.getRustType(path))
  }

  /** A trait was made for each of the first `n` endpoints of `order`. */
  ghost predicate SpecsMade<P>(g: Graph<ApiEndpoint<P>>, paths: Paths, f: TraitContextFactory<P>, order: seq<nat>, n: nat)
    requires InRange(g, order) && n <= |order|
  {
    forall i :: 0 <= i < n ==> SpecAt(g, paths, f, order[i]).Success?
  }

  /** The Rust types of the first `n` traits. */
  ghost function RustTypes<P>(g: Graph<ApiEndpoint<P>>, paths: Paths, f: TraitContextFactory<P>, order: seq<nat>, n: nat)
    : (r: seq<RustType>)
    requires InRange(g, order) && n <= |order| && SpecsMade(g, paths, f, order, n)
    ensures |r| == n
  {
    if n == 0 then [] else RustTypes(g, paths, f, order, n - 1) + [SpecAt(g, paths, f, order[n - 1]).value.rustType]
  }

  /** The first `n` traits' descriptions. */
  ghost function Specs<P>(g: Graph<ApiEndpoint<P>>, paths: Paths, f: TraitContextFactory<P>, order: seq<nat>, n: nat)
    : (r: seq<TraitSpec>)
    requires InRange(g, order) && n <= |order| && SpecsMade(g, paths, f, order, n)
    ensures |r| == n
  {
    if n == 0 then [] else Specs(g, paths, f, order, n - 1) + [SpecAt(g, paths, f, order[n - 1]).value]
  }

  /** Every predecessor of the endpoint at position `i` has a Rust type for
      which a trait has been recorded by then. */
  ghost predicate EdgesMadeAt<P>(g: Graph<ApiEndpoint<P>>, paths: Paths, f: TraitContextFactory<P>, order: seq<nat>, i: nat)
    requires InRange(g, order) && i < |order| && SpecsMade(g, paths, f, order, i + 1)
  {
    forall u :: u in Predecessors(g, order[i]) ==>
      PredecessorType(paths, f, u).Success?
      && PredecessorType(paths, f, u).value in Latest(RustTypes(g, paths, f, order, i + 1))
  }

  /** The pass gets through the first `n` endpoints without raising. */
  ghost predicate TransformOk<P>(g: Graph<ApiEndpoint<P>>, paths: Paths, f: TraitContextFactory<P>, order: seq<nat>, n: nat)
    requires InRange(g, order) && n <= |order|
  {
    SpecsMade(g, paths, f, order, n) && forall i :: 0 <= i < n ==> EdgesMadeAt(g, paths, f, order, i)
  }

  /** The traits with an edge into trait `i`: for each predecessor of its
      endpoint, the latest trait recorded under that predecessor's Rust type
      when trait `i` has been recorded. */
  ghost function TraitSources<P>(g: Graph<ApiEndpoint<P>>, paths: Paths, f: TraitContextFactory<P>, order: seq<nat>, i: nat)
    : set<nat>
    requires InRange(g, order) && i < |order| && SpecsMade(g, paths, f, order, i + 1)
    requires EdgesMadeAt(g, paths, f, order, i)
  {
    var traits := Latest(RustTypes(g, paths, f, order, i + 1));
    set u | u in Predecessors(g, order[i]) :: traits[PredecessorType(paths, f, u).value]
  }

  /** What predecessor `u` can raise: its own path's exception, or the
      failure of `addEdge` when no trait is recorded for its type. */
  predicate Raised<P>(paths: Paths, f: TraitContextFactory<P>, traits: map<RustType, nat>, u: nat, e: PathMapError) {
    match PredecessorType(paths, f, u)
    case Failure(e') => e == e'
    case Success(t) => t !in traits && e == MissingTrait(u)
  }

  /** The edges into trait `i` from the predecessor types, each through the
      trait `traits` records for it; `Failure` when a predecessor's path
      raises or its type has no trait (`addEdge(null, trait)`). The
      predecessors are visited in an order that is not specified. */
  method PredecessorEdges<P>(g: Graph<ApiEndpoint<P>>, paths: Paths, f: TraitContextFactory<P>, preds: set<nat>,
                             traits: map<RustType, nat>, i: nat)
    returns (r: Result<set<(nat, nat)>, PathMapError>)
    ensures r.Success? <==> forall u :: u in preds ==>
              PredecessorType(paths, f, u).Success? && PredecessorType(paths, f, u).value in traits
    ensures r.Success? ==> r.value == set u | u in preds :: (traits[PredecessorType(paths, f, u).value], i)
    ensures r.Failure? ==> exists u :: u in preds && Raised(paths, f, traits, u, r.error)
  {
    var rest := preds;
    var edges: set<(nat, nat)> := {};
    while rest != {}
      invariant rest <= preds
      invariant forall u :: u in preds - rest ==>
                  PredecessorType(paths, f, u).Success? && PredecessorType(paths, f, u).value in traits
      invariant edges == set u | u in preds - rest :: (traits[PredecessorType(paths, f, u).value], i)
      decreases |rest|
    {
      var u :| u in rest;
      var rustType := PredecessorType(paths, f, u);
      if rustType.Failure? {
        assert Raised(paths, f, traits, u, rustType.error);
        return Failure(rustType.error);
      }
      if rustType.value !in traits {
        assert Raised(paths, f, traits, u, MissingTrait(u));
        return Failure(MissingTrait(u));
      }
      edges := edges + {(traits[rustType.value], i)};
      rest := rest - {u};
    }
    r := Success(edges);
  }

  /** Trait `t` is the one the factory described by `spec`. */
  predicate Made(t: TraitContext, spec: TraitSpec) {
    t.rustType == spec.rustType && t.name == spec.name && t.moduleContext.path == spec.modulePath
  }

  /** The edges and the `traits` map after the first `k` endpoints of `order`:
      each trait recorded under its Rust type (the latest one wins), and the
      edges into each trait those its predecessors give. */
  ghost predicate Through<P>(g: Graph<ApiEndpoint<P>>, paths: Paths, f: TraitContextFactory<P>, order: seq<nat>, k: nat,
                             edges: set<(nat, nat)>, traits: map<RustType, nat>)
    requires InRange(g, order) && k <= |order|
  {
    && TransformOk(g, paths, f, order, k)
    && traits == Latest(RustTypes(g, paths, f, order, k))
    && (forall x :: x in traits ==> traits[x] < k)
    && (forall i :: 0 <= i < k ==> Incoming(edges, i) == TraitSources(g, paths, f, order, i))
    && (forall a, b :: (a, b) in edges ==> a <= b < k)
  }

  lemma RustTypesSnoc<P>(g: Graph<ApiEndpoint<P>>, paths: Paths, f: TraitContextFactory<P>, order: seq<nat>, k: nat)
    requires InRange(g, order) && k < |order| && SpecsMade(g, paths, f, order, k + 1)
    ensures RustTypes(g, paths, f, order, k + 1)
            == RustTypes(g, paths, f, order, k) + [SpecAt(g, paths, f, order[k]).value.rustType]
  {
  }

  lemma {:induction false} RustTypesAt<P>(g: Graph<ApiEndpoint<P>>, paths: Paths, f: TraitContextFactory<P>, order: seq<nat>,
                                          n: nat, j: nat)
    requires InRange(g, order) && n <= |order| && SpecsMade(g, paths, f, order, n)
    requires j < n
    ensures RustTypes(g, paths, f, order, n)[j] == SpecAt(g, paths, f, order[j]).value.rustType
  {
    if j < n - 1 {
      RustTypesAt(g, paths, f, order, n - 1, j);
    }
  }

  /** One position of the pass: the trait for `order[k]` is recorded, then
      the edges into it are added. */
  lemma ThroughSnoc<P>(g: Graph<ApiEndpoint<P>>, paths: Paths, f: TraitContextFactory<P>, order: seq<nat>, k: nat,
                       edges: set<(nat, nat)>, traits: map<RustType, nat>, spec: TraitSpec, incoming: set<(nat, nat)>)
    requires InRange(g, order) && k < |order|
    requires Through(g, paths, f, order, k, edges, traits)
    requires SpecAt(g, paths, f, order[k]) == Success(spec)
    requires forall u :: u in Predecessors(g, order[k]) ==>
               PredecessorType(paths, f, u).Success? && PredecessorType(paths, f, u).value in traits[spec.rustType := k]
    requires incoming == set u | u in Predecessors(g, order[k]) ::
                           (traits[spec.rustType := k][PredecessorType(paths, f, u).value], k)
    ensures Through(g, paths, f, order, k + 1, edges + incoming, traits[spec.rustType := k])
  {
    var traits' := traits[spec.rustType := k];
    assert SpecsMade(g, paths, f, order, k + 1);
    TraitsSnoc(g, paths, f, order, k, traits, spec);
    assert EdgesMadeAt(g, paths, f, order, k);
    assert TransformOk(g, paths, f, order, k + 1);
    forall i | 0 <= i < k + 1 ensures Incoming(edges + incoming, i) == TraitSources(g, paths, f, order, i) {
      IncomingSnoc(g, paths, f, order, k, edges, traits', incoming, i);
    }
  }

  lemma TraitsSnoc<P>(g: Graph<ApiEndpoint<P>>, paths: Paths, f: TraitContextFactory<P>, order: seq<nat>, k: nat,
                      traits: map<RustType, nat>, spec: TraitSpec)
    requires InRange(g, order) && k < |order|
    requires SpecsMade(g, paths, f, order, k) && SpecAt(g, paths, f, order[k]) == Success(spec)
    requires traits == Latest(RustTypes(g, paths, f, order, k))
    ensures SpecsMade(g, paths, f, order, k + 1)
    ensures traits[spec.rustType := k] == Latest(RustTypes(g, paths, f, order, k + 1))
  {
    assert SpecsMade(g, paths, f, order, k + 1);
    RustTypesSnoc(g, paths, f, order, k);
    LatestSnoc(RustTypes(g, paths, f, order, k), spec.rustType);
  }

  lemma IncomingSnoc<P>(g: Graph<ApiEndpoint<P>>, paths: Paths, f: TraitContextFactory<P>, order: seq<nat>, k: nat,
                        edges: set<(nat, nat)>, traits': map<RustType, nat>, incoming: set<(nat, nat)>, i: nat)
    requires InRange(g, order) && k < |order| && i <= k
    requires TransformOk(g, paths, f, order, k + 1) && EdgesMadeAt(g, paths, f, order, k)
    requires forall j :: 0 <= j < k ==> Incoming(edges, j) == TraitSources(g, paths, f, order, j)
    requires forall a, b :: (a, b) in edges ==> a <= b < k
    requires traits' == Latest(RustTypes(g, paths, f, order, k + 1))
    requires incoming == set u | u in Predecessors(g, order[k]) :: (traits'[PredecessorType(paths, f, u).value], k)
    ensures Incoming(edges + incoming, i) == TraitSources(g, paths, f, order, i)
  {
    IncomingUnion(edges, incoming, i);
    if i < k {
      assert Incoming(incoming, i) == {};
    } else {
      assert Incoming(edges, k) == {};
    }
  }

  /** Trait `i` of `vertices` is the one `specs[i]` describes. */
  predicate MadeAll(vertices: seq<TraitContext>, specs: seq<TraitSpec>) {
    |vertices| == |specs| && forall i :: 0 <= i < |vertices| ==> Made(vertices[i], specs[i])
  }

  lemma {:induction false} SpecsAt<P>(g: Graph<ApiEndpoint<P>>, paths: Paths, f: TraitContextFactory<P>, order: seq<nat>,
                                      n: nat, j: nat)
    requires InRange(g, order) && n <= |order| && SpecsMade(g, paths, f, order, n)
    requires j < n
    ensures Specs(g, paths, f, order, n)[j] == SpecAt(g, paths, f, order[j]).value
  {
    if j < n - 1 {
      SpecsAt(g, paths, f, order, n - 1, j);
    }
  }

  /** The trait graph the pass builds along `order`: trait `i` is the one
      made for `order[i]`, and the edges into it come from its endpoint's
      predecessors. */
  ghost predicate Transformed<P>(g: Graph<ApiEndpoint<P>>, paths: Paths, f: TraitContextFactory<P>, order: seq<nat>,
                                 tg: Graph<TraitContext>)
    requires InRange(g, order)
  {
    && TransformOk(g, paths, f, order, |order|)
    && MadeAll(tg.vertices, Specs(g, paths, f, order, |order|))
    && (forall i :: 0 <= i < |order| ==> Incoming(tg.edges, i) == TraitSources(g, paths, f, order, i))
    && (forall a, b :: (a, b) in tg.edges ==> a <= b < |order|)
  }

  /** Every trait has a module context of its own. */
  ghost predicate OwnContexts(vertices: seq<TraitContext>) {
    forall i, j :: 0 <= i < j < |vertices| ==> vertices[i].moduleContext != vertices[j].moduleContext
  }

  /** What the pass has built after some positions: the descriptions of the
      traits made, the edges between them and the `traits` map. */
  datatype PassState = PassState(specs: seq<TraitSpec>, edges: set<(nat, nat)>, traits: map<RustType, nat>)

  /** One position of the pass, for endpoint `v` at position `k`: its trait
      recorded under its Rust type, and an edge into it from the trait of
      each predecessor's type. `None` when a path raises or a predecessor's
      type has no trait. */
  ghost function StepOf<P>(g: Graph<ApiEndpoint<P>>, paths: Paths, f: TraitContextFactory<P>, v: nat, k: nat,
                           st: PassState): Option<PassState>
    requires v < |g.vertices|
  {
    match SpecAt(g, paths, f, v)
    case Failure(_) => None
    case Success(spec) =>
      var traits := st.traits[spec.rustType := k];
      if forall u :: u in Predecessors(g, v) ==>
           PredecessorType(paths, f, u).Success? && PredecessorType(paths, f, u).value in traits
      then
        var incoming := set u | u in Predecessors(g, v) :: (traits[PredecessorType(paths, f, u).value], k);
        Some(PassState(st.specs + [spec], st.edges + incoming, traits))
      else None
  }

  /** The pass over the first `k` endpoints of `order`. */
  ghost function Pass<P>(g: Graph<ApiEndpoint<P>>, paths: Paths, f: TraitContextFactory<P>, order: seq<nat>, k: nat)
    : Option<PassState>
    requires InRange(g, order) && k <= |order|
  {
    if k == 0 then Some(PassState([], {}, map[]))
    else
      match Pass(g, paths, f, order, k - 1)
      case None => None
      case Some(st) => StepOf(g, paths, f, order[k - 1], k - 1, st)
  }

  /** `st` is the state `Through` describes after `k` positions, with the
      traits `Specs` lists. */
  ghost predicate Reached<P>(g: Graph<ApiEndpoint<P>>, paths: Paths, f: TraitContextFactory<P>, order: seq<nat>,
                             k: nat, st: PassState)
    requires InRange(g, order) && k <= |order|
  {
    Through(g, paths, f, order, k, st.edges, st.traits) && st.specs == Specs(g, paths, f, order, k)
  }

  /** Once an endpoint raises, the pass stays failed. */
  lemma {:induction false} PassStuck<P>(g: Graph<ApiEndpoint<P>>, paths: Paths, f: TraitContextFactory<P>,
                                        order: seq<nat>, k: nat, n: nat)
    requires InRange(g, order) && k <= n <= |order|
    requires Pass(g, paths, f, order, k).None?
    ensures Pass(g, paths, f, order, n).None?
    decreases n - k
  {
    if k < n {
      PassStuck(g, paths, f, order, k + 1, n);
    }
  }

  /** A position whose step succeeds extends `Through` by one. */
  lemma StepKeepsThrough<P>(g: Graph<ApiEndpoint<P>>, paths: Paths, f: TraitContextFactory<P>, order: seq<nat>,
                            k: nat, st: PassState)
    requires InRange(g, order) && k < |order|
    requires Reached(g, paths, f, order, k, st)
    requires StepOf(g, paths, f, order[k], k, st).Some?
    ensures TransformOk(g, paths, f, order, k + 1)
    ensures Reached(g, paths, f, order, k + 1, StepOf(g, paths, f, order[k], k, st).value)
  {
    var v := order[k];
    var spec := SpecAt(g, paths, f, v).value;
    TraitsSnoc(g, paths, f, order, k, st.traits, spec);
    var traits := st.traits[spec.rustType := k];
    var incoming := set u | u in Predecessors(g, v) :: (traits[PredecessorType(paths, f, u).value], k);
    ThroughSnoc(g, paths, f, order, k, st.edges, st.traits, spec, incoming);
  }

  /** A position whose step fails ends `TransformOk`. */
  lemma StepFailsTransform<P>(g: Graph<ApiEndpoint<P>>, paths: Paths, f: TraitContextFactory<P>, order: seq<nat>,
                              k: nat, st: PassState)
    requires InRange(g, order) && k < |order|
    requires Reached(g, paths, f, order, k, st)
    requires StepOf(g, paths, f, order[k], k, st).None?
    ensures !TransformOk(g, paths, f, order, k + 1)
  {
    var v := order[k];
    if SpecAt(g, paths, f, v).Success? {
      TraitsSnoc(g, paths, f, order, k, st.traits, SpecAt(g, paths, f, v).value);
      assert !EdgesMadeAt(g, paths, f, order, k);
    } else {
      assert !SpecsMade(g, paths, f, order, k + 1);
    }
  }

  /** The pass gets through the first `k` endpoints exactly when no path
      raises and every predecessor's type has a trait by then; the state it
      reaches is the one `Through` describes, with the traits `Specs` lists. */
  lemma {:induction false} PassMeaning<P>(g: Graph<ApiEndpoint<P>>, paths: Paths, f: TraitContextFactory<P>,
                                          order: seq<nat>, k: nat)
    requires InRange(g, order) && k <= |order|
    ensures Pass(g, paths, f, order, k).Some? <==> TransformOk(g, paths, f, order, k)
    ensures Pass(g, paths, f, order, k).Some? ==> Reached(g, paths, f, order, k, Pass(g, paths, f, order, k).value)
  {
    if k == 0 {
      PassStart(g, paths, f, order);
    } else {
      PassMeaning(g, paths, f, order, k - 1);
      if Pass(g, paths, f, order, k - 1).None? {
        PassAfterFailure(g, paths, f, order, k);
      } else {
        PassAfterState(g, paths, f, order, k, Pass(g, paths, f, order, k - 1).value);
      }
    }
  }

  lemma PassStart<P>(g: Graph<ApiEndpoint<P>>, paths: Paths, f: TraitContextFactory<P>, order: seq<nat>)
    requires InRange(g, order)
    ensures Pass(g, paths, f, order, 0).Some? && TransformOk(g, paths, f, order, 0)
    ensures Reached(g, paths, f, order, 0, Pass(g, paths, f, order, 0).value)
  {
    assert Latest(RustTypes(g, paths, f, order, 0)) == map[];
  }

  lemma PassAfterFailure<P>(g: Graph<ApiEndpoint<P>>, paths: Paths, f: TraitContextFactory<P>, order: seq<nat>,
                            k: nat)
    requires InRange(g, order) && 0 < k <= |order|
    requires Pass(g, paths, f, order, k - 1).None? && !TransformOk(g, paths, f, order, k - 1)
    ensures Pass(g, paths, f, order, k).None? && !TransformOk(g, paths, f, order, k)
  {
  }

  lemma PassAfterState<P>(g: Graph<ApiEndpoint<P>>, paths: Paths, f: TraitContextFactory<P>, order: seq<nat>,
                          k: nat, st: PassState)
    requires InRange(g, order) && 0 < k <= |order|
    requires Pass(g, paths, f, order, k - 1) == Some(st)
    requires Reached(g, paths, f, order, k - 1, st)
    ensures Pass(g, paths, f, order, k).Some? <==> TransformOk(g, paths, f, order, k)
    ensures Pass(g, paths, f, order, k).Some? ==> Reached(g, paths, f, order, k, Pass(g, paths, f, order, k).value)
  {
    PassUnfold(g, paths, f, order, k, st);
    if StepOf(g, paths, f, order[k - 1], k - 1, st).Some? {
      StepKeepsThrough(g, paths, f, order, k - 1, st);
    } else {
      StepFailsTransform(g, paths, f, order, k - 1, st);
    }
  }

  lemma PassUnfold<P>(g: Graph<ApiEndpoint<P>>, paths: Paths, f: TraitContextFactory<P>, order: seq<nat>,
                      k: nat, st: PassState)
    requires InRange(g, order) && 0 < k <= |order|
    requires Pass(g, paths, f, order, k - 1) == Some(st)
    ensures Pass(g, paths, f, order, k) == StepOf(g, paths, f, order[k - 1], k - 1, st)
  {
  }

  /** The work of one position of the pass on values: the trait made for
      `v`, the `traits` map with it recorded, and the edges into it; or the
      exception its path or one of its predecessors raises. */
  method TransformStep<P>(g: Graph<ApiEndpoint<P>>, paths: Paths, f: TraitContextFactory<P>, v: nat, k: nat,
                          st: PassState)
    returns (r: Result<PassState, PathMapError>)
    requires v < |g.vertices|
    ensures r.Success? <==> StepOf(g, paths, f, v, k, st).Some?
    ensures r.Success? ==> r.value == StepOf(g, paths, f, v, k, st).value
    ensures r.Failure? ==>
              || SpecAt(g, paths, f, v) == Failure(r.error)
              || exists u, t :: u in Predecessors(g, v) && SpecAt(g, paths, f, v) == Success(t)
                   && Raised(paths, f, st.traits[t.rustType := k], u, r.error)
  {
    var spec := SpecAt(g, paths, f, v);
    if spec.Failure? {
      return Failure(spec.error);
    }
    var traits := st.traits[spec.value.rustType := k];
    var incoming := PredecessorEdges(g, paths, f, Predecessors(g, v), traits, k);
    if incoming.Failure? {
      return Failure(incoming.error);
    }
    r := Success(PassState(st.specs + [spec.value], st.edges + incoming.value, traits));
  }

  lemma MadeAllSnoc(vertices: seq<TraitContext>, specs: seq<TraitSpec>, t: TraitContext, spec: TraitSpec)
    requires MadeAll(vertices, specs) && Made(t, spec)
    ensures MadeAll(vertices + [t], specs + [spec])
  {
    assert forall i :: 0 <= i < |vertices| ==> (vertices + [t])[i] == vertices[i] && (specs + [spec])[i] == specs[i];
  }

  /** The pass along `order`, given each endpoint's path: the trait graph
      `Pass` describes, each trait with a new and empty module context of
      its own. */
  method TransformAll<P>(g: Graph<ApiEndpoint<P>>, paths: Paths, f: TraitContextFactory<P>, order: seq<nat>)
    returns (r: Result<Graph<TraitContext>, PathMapError>)
    requires InRange(g, order)
    ensures r.Success? <==> Pass(g, paths, f, order, |order|).Some?
    ensures r.Success? ==> r.value.edges == Pass(g, paths, f, order, |order|).value.edges
    ensures r.Success? ==> MadeAll(r.value.vertices, Pass(g, paths, f, order, |order|).value.specs)
    ensures r.Success? ==> OwnContexts(r.value.vertices)
    ensures r.Success? ==> forall i :: 0 <= i < |r.value.vertices| ==>
              fresh(r.value.vertices[i].moduleContext) && r.value.vertices[i].moduleContext.submoduleSet == {}
  {
    var vertices: seq<TraitContext> := [];
    var st := PassState([], {}, map[]);
    for k := 0 to |order|
      invariant Pass(g, paths, f, order, k) == Some(st)
      invariant MadeAll(vertices, st.specs)
      invariant OwnContexts(vertices)
      invariant forall i :: 0 <= i < |vertices| ==>
                  fresh(vertices[i].moduleContext) && vertices[i].moduleContext.submoduleSet == {}
    {
      var step := TransformStep(g, paths, f, order[k], k, st);
      if step.Failure? {
        PassStuck(g, paths, f, order, k + 1, |order|);
        return Failure(step.error);
      }
      var made := new TraitContext(step.value.specs[|step.value.specs| - 1]);
      MadeAllSnoc(vertices, st.specs, made, step.value.specs[|step.value.specs| - 1]);
      vertices, st := vertices + [made], step.value;
    }
    r := Success(Graph(vertices, st.edges));
  }

  /** `transformToTraitContextGraph`. The ghost `order` is the visit order of
      the breadth-first pass; the root of the trait graph is the first trait
      made. Without a root the graph is empty and so is the trait graph. */
  method TransformToTraitContextGraph<P>(g: Graph<ApiEndpoint<P>>, root: Option<nat>, f: TraitContextFactory<P>)
    returns (r: Result<(Graph<TraitContext>, Option<nat>), PathMapError>, ghost order: seq<nat>)
    requires root.Some? ==> root.value < |g.vertices|
    requires root.None? ==> g.vertices == []
    ensures root.None? ==> r == Success((Graph([], {}), None)) && order == []
    ensures root.Some? ==> |order| > 0 && order[0] == root.value && NoDuplicates(order) && InRange(g, order)
    ensures root.Some? ==> forall v :: v in order <==> Reachable(g, root.value, v)
    ensures root.Some? ==> (r.Success? <==> TransformOk(g, PathsFrom(g, root.value), f, order, |order|))
    ensures root.Some? && r.Success? ==>
              Transformed(g, PathsFrom(g, root.value), f, order, r.value.0) && r.value.1 == Some(0)
    ensures r.Success? ==> OwnContexts(r.value.0.vertices)
    ensures r.Success? ==> forall i :: 0 <= i < |r.value.0.vertices| ==>
              fresh(r.value.0.vertices[i].moduleContext) && r.value.0.vertices[i].moduleContext.submoduleSet == {}
  {
    order := [];
    if root.None? {
      return Success((Graph([], {}), None)), order;
    }
    var visited := Traverse(g, root.value);
    order := visited;
    var paths := PathsFrom(g, root.value);
    var tg := TransformAll(g, paths, f, visited);
    PassMeaning(g, paths, f, visited, |visited|);
    if tg.Failure? {
      return Failure(tg.error), order;
    }
    r := Success((tg.value, Some(0)));
  }
}
