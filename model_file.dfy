/** The legacy file-path registry: a `ModelFile` per schema, which records the
    module directories on the way to its file in a map from path strings to
    `ModuleFile`s, and the path of the file it generates. */
module ModelFiles {
  import Text
  import opened Config

  /** The registry entry for one module directory. `ModuleFile` itself is not
      part of this model: it keeps the file path it was created with and the
      components handed to `addSubmodule`, in order. */
  class ModuleFile {
    const path: string
    var submodules: seq<string>

    constructor (path: string)
      ensures this.path == path && submodules == []
    {
      this.path := path;
      submodules := [];
    }

    method AddSubmodule(component: string)
      modifies this
      ensures submodules == old(submodules) + [component]
    {
      submodules := submodules + [component];
    }
  }

  /** The registry key of module component `j`: `"src/" + base` followed by
      `"/" + components[i]` for every `i <= j`, built as the loop builds it. */
  function Key(base: string, components: seq<string>, j: nat): string
    requires j < |components|
  {
    if j == 0 then "src/" + base + "/" + components[0]
    else Key(base, components, j - 1) + "/" + components[j]
  }

  /** The key is the base directory and the joined components. */
  lemma {:induction false} KeyIsJoin(base: string, components: seq<string>, j: nat)
    requires j < |components|
    ensures Key(base, components, j) == "src/" + base + "/" + Text.Join(components[..j + 1], "/")
  {
    if j > 0 {
      KeyIsJoin(base, components, j - 1);
      assert components[..j + 1][..j] == components[..j];
    }
  }

  /** Each key is longer than those before it, so the keys of one call are
      pairwise distinct. */
  lemma {:induction false} KeyGrows(base: string, components: seq<string>, i: nat, j: nat)
    requires i < j < |components|
    ensures |Key(base, components, i)| < |Key(base, components, j)|
    decreases j
  {
    if i < j - 1 {
      KeyGrows(base, components, i, j - 1);
    }
  }

  lemma KeysDistinct(base: string, components: seq<string>)
    ensures forall i, j :: 0 <= i < j < |components| ==> Key(base, components, i) != Key(base, components, j)
  {
    forall i, j | 0 <= i < j < |components| ensures Key(base, components, i) != Key(base, components, j) {
      KeyGrows(base, components, i, j);
    }
  }

  function Lookup(v: map<string, seq<string>>, k: string): seq<string> {
    if k in v then v[k] else []
  }

  /** One turn of the loop of `registerModel`, on the components recorded
      under each key: component `j` is appended to the entry of `Key(j - 1)`
      (from the second component on), then `Key(j)` gets an empty entry when
      it has none. */
  function Step(w: map<string, seq<string>>, base: string, components: seq<string>, j: nat): map<string, seq<string>>
    requires j < |components|
  {
    var appended := if j == 0 then w else w[Key(base, components, j - 1) := Lookup(w, Key(base, components, j - 1)) + [components[j]]];
    var k := Key(base, components, j);
    if k in appended then appended else appended[k := []]
  }

  lemma StepEffect(w: map<string, seq<string>>, base: string, components: seq<string>, j: nat)
    requires j < |components|
    ensures Step(w, base, components, j).Keys
              == w.Keys + {Key(base, components, j)} + (if j == 0 then {} else {Key(base, components, j - 1)})
    ensures Step(w, base, components, j)[Key(base, components, j)] == Lookup(w, Key(base, components, j))
    ensures j > 0 ==> Step(w, base, components, j)[Key(base, components, j - 1)]
                        == Lookup(w, Key(base, components, j - 1)) + [components[j]]
    ensures forall q :: q in w && q != Key(base, components, j) && (j == 0 || q != Key(base, components, j - 1)) ==>
              Step(w, base, components, j)[q] == w[q]
  {
    if j > 0 {
      KeyGrows(base, components, j - 1, j);
    }
  }

  /** The registry after the loop has handled the first `bound` components. */
  function RegisteredThrough(v: map<string, seq<string>>, base: string, components: seq<string>,
                             bound: nat): map<string, seq<string>>
    requires bound <= |components|
  {
    if bound == 0 then v
    else Step(RegisteredThrough(v, base, components, bound - 1), base, components, bound - 1)
  }

  function Registered(v: map<string, seq<string>>, base: string, components: seq<string>): map<string, seq<string>> {
    RegisteredThrough(v, base, components, |components|)
  }

  function Keys(base: string, components: seq<string>, bound: nat): set<string>
    requires bound <= |components|
  {
    set j | 0 <= j < bound :: Key(base, components, j)
  }

  /** The keys after the first `bound` components: the old ones and one key
      per component. */
  lemma {:induction false} RegisteredThroughKeys(v: map<string, seq<string>>, base: string,
                                                 components: seq<string>, bound: nat)
    requires bound <= |components|
    ensures RegisteredThrough(v, base, components, bound).Keys == v.Keys + Keys(base, components, bound)
  {
    if bound > 0 {
      var j := bound - 1;
      RegisteredThroughKeys(v, base, components, j);
      StepEffect(RegisteredThrough(v, base, components, j), base, components, j);
      if j > 0 {
        assert Key(base, components, j - 1) in Keys(base, components, j);
      }
      assert Keys(base, components, bound) == Keys(base, components, j) + {Key(base, components, j)};
    }
  }

  /** After the first `bound` components, the entry of `Key(i)` holds what it
      held before followed by component `i + 1` when that has been handled. */
  lemma {:induction false} RegisteredThroughAtKey(v: map<string, seq<string>>, base: string,
                                                  components: seq<string>, bound: nat, i: nat)
    requires i < bound <= |components|
    ensures Key(base, components, i) in RegisteredThrough(v, base, components, bound)
    ensures RegisteredThrough(v, base, components, bound)[Key(base, components, i)]
              == Lookup(v, Key(base, components, i)) + (if i + 1 < bound then [components[i + 1]] else [])
  {
    var j := bound - 1;
    var w := RegisteredThrough(v, base, components, j);
    StepEffect(w, base, components, j);
    var k := Key(base, components, i);
    if i == j {
      RegisteredThroughKeys(v, base, components, j);
      RegisteredThroughElsewhere(v, base, components, j);
      assert k !in Keys(base, components, j) by {
        forall m | 0 <= m < j ensures Key(base, components, m) != k {
          KeyGrows(base, components, m, i);
        }
      }
      assert Lookup(w, k) == Lookup(v, k);
    } else {
      RegisteredThroughAtKey(v, base, components, j, i);
      KeyGrows(base, components, i, j);
      if i < j - 1 {
        KeyGrows(base, components, i, j - 1);
      }
    }
  }

  /** Keys other than `Key(j)` keep what they held. */
  lemma {:induction false} RegisteredThroughElsewhere(v: map<string, seq<string>>, base: string,
                                                      components: seq<string>, bound: nat)
    requires bound <= |components|
    ensures forall k :: k in v && k !in Keys(base, components, bound) ==>
              k in RegisteredThrough(v, base, components, bound) &&
              RegisteredThrough(v, base, components, bound)[k] == v[k]
  {
    if bound > 0 {
      var j := bound - 1;
      var w := RegisteredThrough(v, base, components, j);
      RegisteredThroughElsewhere(v, base, components, j);
      RegisteredThroughKeys(v, base, components, j);
      StepEffect(w, base, components, j);
      forall q | q in v && q !in Keys(base, components, bound)
        ensures q in RegisteredThrough(v, base, components, bound)
        ensures RegisteredThrough(v, base, components, bound)[q] == v[q]
      {
        assert q !in Keys(base, components, j) && q != Key(base, components, j);
        if j > 0 {
          assert q != Key(base, components, j - 1);
        }
      }
    }
  }

  /** A registry in which no `ModuleFile` is stored under two keys. */
  ghost predicate Distinct(modules: map<string, ModuleFile>) {
    forall a, b :: a in modules && b in modules && a != b ==> modules[a] != modules[b]
  }

  /** The components recorded in a registry. */
  ghost function View(modules: map<string, ModuleFile>): map<string, seq<string>>
    reads modules.Values
  {
    map k | k in modules :: modules[k].submodules
  }

  lemma ViewKeys(modules: map<string, ModuleFile>)
    ensures View(modules).Keys == modules.Keys
  {
  }

  lemma RegisteredKeysOf(modules: map<string, ModuleFile>, keys: set<string>, v: map<string, seq<string>>,
                         base: string, components: seq<string>)
    requires v.Keys == keys
    requires View(modules) == RegisteredThrough(v, base, components, |components|)
    ensures modules.Keys == keys + Keys(base, components, |components|)
  {
    RegisteredThroughKeys(v, base, components, |components|);
    ViewKeys(modules);
  }

  /** The OpenAPI `Schema` object, of which the core reads and writes only
      the name. It belongs to the caller and may be shared. */
  class Schema {
    var name: string

    constructor (name: string)
      ensures this.name == name
    {
      this.name := name;
    }
  }

  class ModelFile {
    const components: seq<string>
    const schema: Schema

    /** The constructor keeps the caller's schema object and PascalCases its
        name in place, so every holder of that schema sees the new name. */
    constructor (components: seq<string>, schema: Schema, toPascalCase: string -> string)
      modifies schema
      ensures this.components == components && this.schema == schema
      ensures schema.name == toPascalCase(old(schema.name))
    {
      this.components := components;
      this.schema := schema;
      schema.name := toPascalCase(schema.name);
    }

    /** `registerModel(modules)`: makes sure every key `Key(j)` has an entry
        (a new `ModuleFile` at the key followed by the file extension) and
        records each component from the second on with the entry of the
        key before it. The entry looked up is always present, since the
        previous turn of the loop put it there. The caller's map is passed in
        and the updated map returned. */
    method RegisterModel(modules: map<string, ModuleFile>, config: RustConfig)
      returns (result: map<string, ModuleFile>)
      requires Distinct(modules)
      modifies modules.Values
      ensures Distinct(result)
      ensures View(result) == Registered(old(View(modules)), config.modelsBaseModule, components)
      ensures result.Keys == modules.Keys + Keys(config.modelsBaseModule, components, |components|)
      ensures forall k :: k in modules ==> result[k] == modules[k]
      ensures forall k :: k in result && k !in modules ==> fresh(result[k]) && result[k].path == k + config.fileExtension
    {
      ghost var v0 := View(modules);
      ViewKeys(modules);
      var base := config.modelsBaseModule;
      var path := "";
      result := modules;
      for i := 0 to |components|
        invariant i == 0 ==> path == ""
        invariant i > 0 ==> path == Key(base, components, i - 1) && path in result
        invariant Distinct(result)
        invariant forall k :: k in modules ==> k in result && result[k] == modules[k]
        invariant forall k :: k in result && k !in modules ==> fresh(result[k]) && result[k].path == k + config.fileExtension
        invariant View(result) == RegisteredThrough(v0, base, components, i)
      {
        result, path := RegisterComponent(result, path, base, components, i, config.fileExtension);
      }
      RegisteredKeysOf(result, modules.Keys, v0, base, components);
    }

    /** `generate()` without the file system: the path of the model's file,
        and whether the empty-name warning is printed. The warning does not
        stop the path being built. */
    method GeneratePath(config: RustConfig, toSnakeCase: string -> string) returns (path: string, warn: bool)
      ensures path == "src/" + config.modelsBaseModule + "/" + Text.Join(components, "/") + "/"
                      + toSnakeCase(schema.name) + config.fileExtension
      ensures warn <==> toSnakeCase(schema.name) == ""
    {
      var names: seq<string> := [];
      for i := 0 to |components|
        invariant names == components[..i]
      {
        names := names + [components[i]];
      }
      assert names == components;
      var modelName := toSnakeCase(schema.name);
      warn := modelName == "";
      path := "src/" + config.modelsBaseModule + "/" + Text.Join(names, "/") + "/"
              + modelName + config.fileExtension;
    }
  }

  /** One turn of the loop of `registerModel`, for component `i`: the entry
      of the previous key records the component (from the second component
      on), the path grows by the component, and its key gets an entry. */
  method RegisterComponent(modules: map<string, ModuleFile>, path: string, base: string,
                           components: seq<string>, i: nat, extension: string)
    returns (result: map<string, ModuleFile>, next: string)
    requires i < |components|
    requires Distinct(modules)
    requires i == 0 ==> path == ""
    requires i > 0 ==> path == Key(base, components, i - 1) && path in modules
    modifies modules.Values
    ensures next == Key(base, components, i) && next in result
    ensures Distinct(result)
    ensures View(result) == Step(old(View(modules)), base, components, i)
    ensures forall k :: k in modules ==> k in result && result[k] == modules[k]
    ensures forall k :: k in result && k !in modules ==> fresh(result[k]) && result[k].path == k + extension
  {
    ghost var v := View(modules);
    var component := components[i];
    next := path;
    if next != "" {
      AppendTo(modules, next, component);
    } else {
      next := "src/" + base;
    }
    next := next + "/" + component;
    ghost var appended := View(modules);
    assert appended == if i == 0 then v else v[Key(base, components, i - 1) := Lookup(v, Key(base, components, i - 1)) + [components[i]]];
    result := EnsureEntry(modules, next, extension);
  }

  /** The entry at `path` gets `component` recorded. */
  method AppendTo(modules: map<string, ModuleFile>, path: string, component: string)
    requires Distinct(modules)
    requires path in modules
    modifies modules.Values
    ensures View(modules) == old(View(modules))[path := old(View(modules))[path] + [component]]
  {
    var target := modules[path];
    assert forall k :: k in modules && modules[k] == target ==> k == path;
    target.AddSubmodule(component);
  }

  /** `if (!modules.containsKey(path)) modules.put(path, new ModuleFile(path + ext))`. */
  method EnsureEntry(modules: map<string, ModuleFile>, path: string, extension: string)
    returns (result: map<string, ModuleFile>)
    requires Distinct(modules)
    ensures Distinct(result)
    ensures result.Keys == modules.Keys + {path}
    ensures forall k :: k in modules ==> result[k] == modules[k]
    ensures path !in modules ==> fresh(result[path]) && result[path].path == path + extension
    ensures View(result) == if path in modules then View(modules) else View(modules)[path := []]
  {
    result := modules;
    if path !in result {
      var created := new ModuleFile(path + extension);
      result := result[path := created];
    }
  }

  /** The model's file sits in the directory of the last module key. */
  lemma GeneratedPathInLastModule(base: string, components: seq<string>, modelName: string, extension: string)
    requires |components| > 0
    ensures "src/" + base + "/" + Text.Join(components, "/") + "/" + modelName + extension
              == Key(base, components, |components| - 1) + "/" + modelName + extension
  {
    KeyIsJoin(base, components, |components| - 1);
    assert components[..|components|] == components;
  }

  /** Registering the same components again creates no key. */
  lemma RegisterKeysIdempotent(v: map<string, seq<string>>, base: string, components: seq<string>)
    ensures Registered(Registered(v, base, components), base, components).Keys == Registered(v, base, components).Keys
  {
    RegisteredThroughKeys(v, base, components, |components|);
    RegisteredThroughKeys(Registered(v, base, components), base, components, |components|);
  }

  /** The first component is never recorded as a submodule; each later one is
      recorded, once, with the entry of the key before it. */
  lemma RegisteredRecords(v: map<string, seq<string>>, base: string, components: seq<string>, j: nat)
    requires j < |components|
    ensures var r := Registered(v, base, components);
            Key(base, components, j) in r &&
            r[Key(base, components, j)] == Lookup(v, Key(base, components, j))
                                       + (if j + 1 < |components| then [components[j + 1]] else [])
  {
    RegisteredThroughAtKey(v, base, components, |components|, j);
  }
}
