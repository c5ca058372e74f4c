/** The namespace registry: a `ModuleContext` per generated Rust module, each
    holding the set of its submodules, and `registerModel`, which walks a crate
    path and records every intermediate module in a registry map. */
module ModuleContexts {
  import Text
  import Sorting
  import opened Config

  /** A path in the generated crate. `crateLocal` tags a path relative to the
      crate root (`CratePath.crateLocal`); `CratePath` itself is not part of
      this model, so only the operations the core calls are given. */
  datatype CratePath = CratePath(components: seq<string>, crateLocal: bool) {

    predicate IsEmpty() {
      components == []
    }

    function Append(component: string): (p: CratePath)
      ensures p.components == components + [component] && p.crateLocal == crateLocal
    {
      CratePath(components + [component], crateLocal)
    }
  }

  function CrateLocal(components: seq<string>): CratePath {
    CratePath(components, true)
  }

  /** A submodule entry: its (escaped) name and `isUsed`, which is true for an
      anonymous submodule (re-exported with `pub use name::*`) and false for a
      named one. */
  datatype Submodule = Submodule(name: string, isUsed: bool)

  /** `Submodule.equals` (and `hashCode`, which hashes the name): identity is
      the name alone, whatever the visibility. */
  predicate Equals(a: Submodule, b: Submodule) {
    a.name == b.name
  }

  /** `Submodule.compareTo`: named entries first, then by name. The name
      comparison of `SnakeCaseName` is taken to be `String.compareTo` of the
      rendered names. */
  function CompareTo(a: Submodule, b: Submodule): int {
    if !a.isUsed && b.isUsed then -1
    else if a.isUsed && !b.isUsed then 1
    else Text.CompareTo(a.name, b.name)
  }

  predicate Less(a: Submodule, b: Submodule) {
    CompareTo(a, b) < 0
  }

  lemma LessIsStrictTotalOrder()
    ensures Sorting.StrictTotalOrder(Less)
  {
    Text.LessIsStrictTotalOrder();
    forall a: Submodule, b: Submodule | a != b ensures Less(a, b) || Less(b, a) {
      if a.isUsed == b.isUsed {
        assert a.name != b.name;
        assert Text.Less(a.name, b.name) || Text.Less(b.name, a.name);
      }
    }
    forall a: Submodule, b: Submodule, c: Submodule | Less(a, b) && Less(b, c) ensures Less(a, c) {
      if a.isUsed == b.isUsed && b.isUsed == c.isUsed {
        assert Text.Less(a.name, b.name) && Text.Less(b.name, c.name);
      }
    }
  }

  /** `compareTo` and `equals` disagree: a named and an anonymous entry with
      the same name are equal, yet neither sorts before the other as equal. */
  lemma CompareToInconsistentWithEquals(name: string)
    ensures Equals(Submodule(name, false), Submodule(name, true))
    ensures CompareTo(Submodule(name, false), Submodule(name, true)) < 0
  {
  }

  function Names(s: set<Submodule>): set<string> {
    set e | e in s :: e.name
  }

  /** No two entries of `s` are `equals`: what a `HashSet<Submodule>` holds. */
  ghost predicate UniqueNames(s: set<Submodule>) {
    forall a, b :: a in s && b in s && a.name == b.name ==> a == b
  }

  /** `HashSet.add`: the entry goes in only when no equal entry is present.
      So the set gains the name, and an entry already there keeps its
      visibility. */
  function Add(s: set<Submodule>, x: Submodule): (r: set<Submodule>)
  {
    if exists e :: e in s && Equals(e, x) then s else s + {x}
  }

  lemma AddProperties(s: set<Submodule>, x: Submodule)
    ensures Names(Add(s, x)) == Names(s) + {x.name}
    ensures x.name in Names(s) ==> Add(s, x) == s
    ensures x.name !in Names(s) ==> Add(s, x) == s + {x}
    ensures UniqueNames(s) ==> UniqueNames(Add(s, x))
  {
  }

  /** Adding a name twice, with either visibility, keeps the first entry. */
  lemma FirstInsertionWins(s: set<Submodule>, name: string, first: bool, second: bool)
    ensures Add(Add(s, Submodule(name, first)), Submodule(name, second)) == Add(s, Submodule(name, first))
  {
  }

  /** The registry's invariant: every module is stored under its own path, and
      its submodule set is a valid `HashSet`. In particular no module object is
      stored under two keys. */
  ghost predicate Registry(modules: map<CratePath, ModuleContext>)
    reads modules.Values
  {
    forall k :: k in modules ==> modules[k].path == k && modules[k].Valid()
  }

  /** The submodule sets of a registry. */
  ghost function View(modules: map<CratePath, ModuleContext>): map<CratePath, set<Submodule>>
    reads modules.Values
  {
    map k | k in modules :: modules[k].submoduleSet
  }

  function Lookup(v: map<CratePath, set<Submodule>>, k: CratePath): set<Submodule> {
    if k in v then v[k] else {}
  }

  /** The key `registerModel` uses for the module holding `components[i]`:
      the crate-local path `components[1..i]`. */
  function Prefix(components: seq<string>, i: nat): CratePath
    requires 1 <= i <= |components|
  {
    CrateLocal(components[1..i])
  }

  /** `k` is `Prefix(components, i)` for a loop index `i` below `bound`. */
  predicate IsPrefixKey(components: seq<string>, k: CratePath, bound: nat) {
    && k.crateLocal
    && 1 <= |k.components|
    && |k.components| + 1 < bound
    && |k.components| + 1 < |components|
    && k.components == components[1..|k.components| + 1]
  }

  function PrefixKeys(components: seq<string>, bound: nat): (keys: set<CratePath>)
    ensures forall k :: k in keys <==> IsPrefixKey(components, k, bound)
  {
    var keys := set i | 2 <= i < bound && i < |components| :: Prefix(components, i);
    assert forall k :: IsPrefixKey(components, k, bound) ==> k == Prefix(components, |k.components| + 1);
    keys
  }

  /** The entry `registerModel` adds for `components[i]`: the last component is
      anonymous, every earlier one named. */
  function Entry(components: seq<string>, i: nat, escape: string -> string): Submodule
    requires i < |components|
  {
    Submodule(escape(components[i]), i == |components| - 1)
  }

  /** The registry after the loop of `registerModel` has handled every index
      below `bound`: index `i` makes sure the key `Prefix(components, i)`
      exists and adds `Entry(components, i)` to it. */
  function RegisteredThrough(v: map<CratePath, set<Submodule>>, components: seq<string>,
                             escape: string -> string, bound: nat): map<CratePath, set<Submodule>>
    requires bound <= |components|
  {
    if bound <= 2 then v
    else
      var before := RegisteredThrough(v, components, escape, bound - 1);
      var k := Prefix(components, bound - 1);
      before[k := Add(Lookup(before, k), Entry(components, bound - 1, escape))]
  }

  /** `registerModel` on a path with the given components. */
  function Registered(v: map<CratePath, set<Submodule>>, components: seq<string>,
                      escape: string -> string): map<CratePath, set<Submodule>>
  {
    RegisteredThrough(v, components, escape, |components|)
  }

  lemma PrefixKeyStep(components: seq<string>, i: nat, q: CratePath)
    requires 2 <= i < |components|
    ensures IsPrefixKey(components, q, i + 1) <==> IsPrefixKey(components, q, i) || q == Prefix(components, i)
  {
  }

  /** The keys `registerModel` creates are exactly the prefixes. */
  lemma {:induction false} RegisteredThroughKeys(v: map<CratePath, set<Submodule>>,
                                                 components: seq<string>,
                                                 escape: string -> string, bound: nat)
    requires bound <= |components|
    ensures RegisteredThrough(v, components, escape, bound).Keys == v.Keys + PrefixKeys(components, bound)
  {
    if bound <= 2 {
      assert PrefixKeys(components, bound) == {};
    } else {
      var i := bound - 1;
      RegisteredThroughKeys(v, components, escape, i);
      forall q ensures IsPrefixKey(components, q, bound) <==> IsPrefixKey(components, q, i) || q == Prefix(components, i) {
        PrefixKeyStep(components, i, q);
      }
    }
  }

  /** Each prefix receives exactly its own entry, and every other key is as it
      was. */
  lemma {:induction false} RegisteredThroughValues(v: map<CratePath, set<Submodule>>,
                                                   components: seq<string>,
                                                   escape: string -> string, bound: nat)
    requires bound <= |components|
    ensures forall k :: IsPrefixKey(components, k, bound) ==>
              k in RegisteredThrough(v, components, escape, bound) &&
              RegisteredThrough(v, components, escape, bound)[k]
                == Add(Lookup(v, k), Entry(components, |k.components| + 1, escape))
    ensures forall k :: k in v && !IsPrefixKey(components, k, bound) ==>
              k in RegisteredThrough(v, components, escape, bound) &&
              RegisteredThrough(v, components, escape, bound)[k] == v[k]
  {
    if bound > 2 {
      var i := bound - 1;
      RegisteredThroughValues(v, components, escape, i);
      RegisteredThroughKeys(v, components, escape, i);
      var k := Prefix(components, i);
      var before := RegisteredThrough(v, components, escape, i);
      assert Lookup(before, k) == Lookup(v, k) by {
        assert !IsPrefixKey(components, k, i);
      }
      var after := RegisteredThrough(v, components, escape, bound);
      assert after == before[k := Add(Lookup(before, k), Entry(components, i, escape))];
      forall q | IsPrefixKey(components, q, bound)
        ensures q in after && after[q] == Add(Lookup(v, q), Entry(components, |q.components| + 1, escape))
      {
        PrefixKeyStep(components, i, q);
        if q == k {
          assert |q.components| + 1 == i;
        } else {
          assert IsPrefixKey(components, q, i);
          assert after[q] == before[q];
        }
      }
      forall q | q in v && !IsPrefixKey(components, q, bound) ensures q in after && after[q] == v[q] {
        PrefixKeyStep(components, i, q);
        assert q != k && !IsPrefixKey(components, q, i);
        assert after[q] == before[q];
      }
    }
  }

  /** The keys after `registerModel`: the previous ones and the crate-local
      prefixes `components[1..i]` for `2 <= i < |components|`. The first
      component is never part of a key. */
  lemma RegisteredKeys(v: map<CratePath, set<Submodule>>, components: seq<string>, escape: string -> string)
    ensures Registered(v, components, escape).Keys
              == v.Keys + set i | 2 <= i < |components| :: CrateLocal(components[1..i])
  {
    RegisteredThroughKeys(v, components, escape, |components|);
    var ks := set i | 2 <= i < |components| :: CrateLocal(components[1..i]);
    assert forall k :: k in ks <==> IsPrefixKey(components, k, |components|) by {
      forall k | IsPrefixKey(components, k, |components|) ensures k in ks {
        assert k == CrateLocal(components[1..|k.components| + 1]);
      }
    }
  }

  /** Component `i` (from index 2 on) is added to the module of the prefix
      before it: as an anonymous submodule when it is the last component and
      as a named one otherwise, escaped, and only where no entry of that name
      is there yet. Keys that are no prefix keep their submodules. */
  lemma RegisteredContents(v: map<CratePath, set<Submodule>>, components: seq<string>,
                           escape: string -> string, i: nat)
    requires 2 <= i < |components|
    ensures var k := CrateLocal(components[1..i]);
            var r := Registered(v, components, escape);
            k in r && r[k] == Add(Lookup(v, k), Submodule(escape(components[i]), i == |components| - 1))
  {
    RegisteredThroughValues(v, components, escape, |components|);
    assert IsPrefixKey(components, CrateLocal(components[1..i]), |components|);
  }

  /** Keys of the registry that are no prefix of the path are left alone. */
  lemma RegisteredElsewhere(v: map<CratePath, set<Submodule>>, components: seq<string>,
                            escape: string -> string, k: CratePath)
    requires k in v
    requires forall i :: 2 <= i < |components| ==> k != CrateLocal(components[1..i])
    ensures k in Registered(v, components, escape) && Registered(v, components, escape)[k] == v[k]
  {
    RegisteredThroughValues(v, components, escape, |components|);
  }

  /** No name is ever removed from a module, and every module's entries keep
      unique names. */
  lemma RegisteredGrows(v: map<CratePath, set<Submodule>>, components: seq<string>,
                        escape: string -> string, k: CratePath)
    requires k in v
    ensures k in Registered(v, components, escape)
    ensures v[k] <= Registered(v, components, escape)[k]
    ensures UniqueNames(v[k]) ==> UniqueNames(Registered(v, components, escape)[k])
  {
    RegisteredThroughValues(v, components, escape, |components|);
    if IsPrefixKey(components, k, |components|) {
      AddProperties(v[k], Entry(components, |k.components| + 1, escape));
    }
  }

  lemma AddTwice(s: set<Submodule>, x: Submodule)
    ensures Add(Add(s, x), x) == Add(s, x)
  {
    FirstInsertionWins(s, x.name, x.isUsed, x.isUsed);
  }

  /** Calling `registerModel` twice with the same path gives the same registry
      as calling it once. */
  lemma RegisterModelIdempotent(v: map<CratePath, set<Submodule>>, components: seq<string>,
                                escape: string -> string)
    ensures Registered(Registered(v, components, escape), components, escape) == Registered(v, components, escape)
  {
    var n := |components|;
    var r1 := Registered(v, components, escape);
    var r2 := Registered(r1, components, escape);
    RegisteredThroughKeys(v, components, escape, n);
    RegisteredThroughKeys(r1, components, escape, n);
    RegisteredThroughValues(v, components, escape, n);
    RegisteredThroughValues(r1, components, escape, n);
    assert r2.Keys == r1.Keys;
    forall k | k in r1 ensures r2[k] == r1[k] {
      if IsPrefixKey(components, k, n) {
        AddTwice(Lookup(v, k), Entry(components, |k.components| + 1, escape));
      }
    }
  }

  /** The first component of the path plays no part. */
  lemma {:induction false} FirstComponentIgnored(v: map<CratePath, set<Submodule>>, components: seq<string>,
                                                 escape: string -> string, first: string, bound: nat)
    requires 1 <= |components|
    requires bound <= |components|
    ensures RegisteredThrough(v, components, escape, bound)
              == RegisteredThrough(v, [first] + components[1..], escape, bound)
  {
    var other := [first] + components[1..];
    if bound > 2 {
      FirstComponentIgnored(v, components, escape, first, bound - 1);
      assert components[1..bound - 1] == other[1..bound - 1];
      assert components[bound - 1] == other[bound - 1];
    }
  }

  /** `registerModel` on `crate::a::b::c` into an empty registry: module `a`
      gets the named submodule `b`, module `a::b` the anonymous submodule `c`. */
  lemma RegisterModelExample(escape: string -> string)
    requires forall s :: escape(s) == s
    ensures Registered(map[], ["crate", "a", "b", "c"], escape)
              == map[CrateLocal(["a"]) := {Submodule("b", false)},
                     CrateLocal(["a", "b"]) := {Submodule("c", true)}]
  {
    var c := ["crate", "a", "b", "c"];
    assert c[1..2] == ["a"] && c[1..3] == ["a", "b"];
    var empty: map<CratePath, set<Submodule>> := map[];
    var r3 := RegisteredThrough(empty, c, escape, 3);
    assert r3 == map[CrateLocal(["a"]) := Add({}, Submodule("b", false))];
    assert Add({}, Submodule("b", false)) == {Submodule("b", false)};
    assert Add({}, Submodule("c", true)) == {Submodule("c", true)};
    assert CrateLocal(["a", "b"]) !in r3;
  }

  class ModuleContext {
    const path: CratePath
    var submoduleSet: set<Submodule>

    ghost predicate Valid()
      reads this
    {
      UniqueNames(submoduleSet)
    }

    constructor (path: CratePath)
      ensures this.path == path && submoduleSet == {} && Valid()
    {
      this.path := path;
      submoduleSet := {};
    }

    /** `submodules()`: the set's entries, each once, named before anonymous
        and by name within each visibility. */
    function Submodules(): (r: seq<Submodule>)
      reads this
      ensures |r| == |submoduleSet|
      ensures forall e :: e in r <==> e in submoduleSet
      ensures forall i, j :: 0 <= i < j < |r| ==> !r[i].isUsed || r[j].isUsed
      ensures forall i, j :: 0 <= i < j < |r| && r[i].isUsed == r[j].isUsed ==> Text.Less(r[i].name, r[j].name)
      ensures Valid() ==> forall i, j :: 0 <= i < j < |r| ==> r[i].name != r[j].name
    {
      LessIsStrictTotalOrder();
      var r := Sorting.SortSet(submoduleSet, Less);
      assert forall i, j :: 0 <= i < j < |r| ==> Less(r[i], r[j]);
      r
    }

    method AddNamedSubmodule(name: string, config: RustConfig)
      requires Valid()
      modifies this
      ensures Valid()
      ensures submoduleSet == Add(old(submoduleSet), Submodule(config.escapeReservedKeyword(name), false))
    {
      submoduleSet := Add(submoduleSet, Submodule(config.escapeReservedKeyword(name), false));
    }

    method AddAnonymousSubmodule(name: string, config: RustConfig)
      requires Valid()
      modifies this
      ensures Valid()
      ensures submoduleSet == Add(old(submoduleSet), Submodule(config.escapeReservedKeyword(name), true))
    {
      submoduleSet := Add(submoduleSet, Submodule(config.escapeReservedKeyword(name), true));
    }

    /** `registerModel(modules)`: creates the module for every proper prefix of
        this module's path (after its first component) that has none, and adds
        each further component to the module of the prefix before it. The
        caller's map is passed in and the updated map returned. */
    method RegisterModel(modules: map<CratePath, ModuleContext>, config: RustConfig)
      returns (result: map<CratePath, ModuleContext>)
      requires Registry(modules)
      modifies modules.Values
      ensures Registry(result)
      ensures View(result) == Registered(old(View(modules)), path.components, config.escapeReservedKeyword)
      ensures forall k :: k in modules ==> k in result && result[k] == modules[k]
      ensures forall k :: k in result && k !in modules ==> fresh(result[k])
      ensures |path.components| <= 2 ==> result == modules
    {
      ghost var v0 := View(modules);
      var escape := config.escapeReservedKeyword;
      var components := path.components;
      result := modules;
      if |components| < 2 {
        return;
      }

      var p := CrateLocal([components[1]]);
      for i := 2 to |components|
        invariant p == CrateLocal(components[1..i])
        invariant Registry(result)
        invariant forall k :: k in modules ==> k in result && result[k] == modules[k]
        invariant forall k :: k in result && k !in modules ==> fresh(result[k])
        invariant View(result) == RegisteredThrough(v0, components, escape, i)
        invariant |components| <= 2 ==> result == modules
      {
        result, p := RegisterAt(result, p, components, i, config, v0);
      }
    }
  }

  /** The loop turn of `registerModel` at index `i`, with `p` the prefix
      before `components[i]`: it takes the registry from the state after the
      indices below `i` to the state after `i`. */
  method RegisterAt(modules: map<CratePath, ModuleContext>, p: CratePath, components: seq<string>, i: nat,
                    config: RustConfig, ghost v0: map<CratePath, set<Submodule>>)
    returns (result: map<CratePath, ModuleContext>, p': CratePath)
    requires 2 <= i < |components| && p == CrateLocal(components[1..i])
    requires Registry(modules)
    requires View(modules) == RegisteredThrough(v0, components, config.escapeReservedKeyword, i)
    modifies modules.Values
    ensures Registry(result)
    ensures View(result) == RegisteredThrough(v0, components, config.escapeReservedKeyword, i + 1)
    ensures forall k :: k in modules ==> k in result && result[k] == modules[k]
    ensures forall k :: k in result && k !in modules ==> fresh(result[k])
    ensures p' == CrateLocal(components[1..i + 1])
  {
    var component := components[i];
    if !p.IsEmpty() {
      ghost var escape := config.escapeReservedKeyword;
      ghost var through := RegisteredThrough(v0, components, escape, i);
      RegisteredThroughStep(v0, components, escape, i);
      result := AddToModule(modules, p, component, |components| - 1 == i, config);
      assert View(result) == through[p := Add(Lookup(through, p), Submodule(escape(component), |components| - 1 == i))];
    } else {
      assert false;
    }
    PrefixSnoc(components, i);
    p' := p.Append(component);
  }

  /** The loop turn at index `i` updates the key `Prefix(components, i)`. */
  lemma RegisteredThroughStep(v: map<CratePath, set<Submodule>>, components: seq<string>,
                              escape: string -> string, i: nat)
    requires 2 <= i < |components|
    ensures var before := RegisteredThrough(v, components, escape, i);
            RegisteredThrough(v, components, escape, i + 1)
              == before[CrateLocal(components[1..i]) := Add(Lookup(before, CrateLocal(components[1..i])),
                                                            Submodule(escape(components[i]), i == |components| - 1))]
  {
  }

  lemma PrefixSnoc(components: seq<string>, i: nat)
    requires 1 <= i < |components|
    ensures components[1..i + 1] == components[1..i] + [components[i]]
  {
  }

  /** One turn of the loop of `registerModel`: the module at `p` is created if
      missing, then `component` is added to it, anonymous or named. */
  method AddToModule(modules: map<CratePath, ModuleContext>, p: CratePath, component: string,
                     anonymous: bool, config: RustConfig)
    returns (result: map<CratePath, ModuleContext>)
    requires Registry(modules)
    modifies modules.Values
    ensures Registry(result)
    ensures View(result) == old(View(modules))[p := Add(Lookup(old(View(modules)), p),
                                                        Submodule(config.escapeReservedKeyword(component), anonymous))]
    ensures forall k :: k in modules ==> k in result && result[k] == modules[k]
    ensures forall k :: k in result && k !in modules ==> fresh(result[k]) && k == p
  {
    ghost var before := View(modules);
    result := modules;
    if p !in result {
      var created := new ModuleContext(p);
      result := result[p := created];
    }
    ghost var mid := View(result);
    assert mid == before[p := Lookup(before, p)];
    var target := result[p];
    assert forall k :: k in result && result[k] == target ==> k == p;
    if anonymous {
      target.AddAnonymousSubmodule(component, config);
    } else {
      target.AddNamedSubmodule(component, config);
    }
    assert View(result) == mid[p := target.submoduleSet];
  }
}
