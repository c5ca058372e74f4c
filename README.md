# redfish-codegen naming and namespace core, in Dafny

This project models the part of the Redfish code generator that decides names
and builds namespaces, and proves what that code promises:

- **Namespace registry** (`ModuleContext`, module `ModuleContexts`). A class
  with a mutable set of `Submodule` entries. An entry's identity is its name
  alone, so `HashSet.add` of a name already present changes nothing, whatever
  the visibility. `submodules()` lists the set with named entries first, then by
  name. `registerModel` walks a crate path and updates the caller's map of
  modules in place: it creates a module for each prefix `components[1..i]` that
  has none, and adds each further component to it. The last component is added
  as an anonymous entry and every earlier one as a named entry.
- **Legacy file-path registry** (`ModelFile`, module `ModelFiles`). A class
  whose `registerModel` loop builds the keys `"src/" + base + "/" + c0 + ... +
  "/" + cj`. It records each component from the second on with the entry of the
  key before it. `generate` builds the output path string.
- **Schema-name parsers** (`VersionedModelMapper`, `UnversionedSchemaIdentifier`;
  shared search in `SchemaPatterns`). Each is a hand-written recogniser for the
  unanchored `Matcher.find()` of the source's regular expression. It makes the
  same leftmost-then-greedy choice and keeps the `[a-zA-z0-9]` module class,
  whose `A-z` range also admits `[ \ ] ^ _` and the backtick.
- **`@odata.type` synthesis** (`ODataTypeIdentifier.identify`, module
  `ODataTypeIdentifiers`). The versioned parse comes first, with the unversioned
  parse as the fallback. Exceptions become `Result`s.
- **Endpoint and trait graphs** (`PathMap`; modules `Endpoints`,
  `EndpointPaths`, `Normalization`, `TraitGraphs`, `PathMaps`, over `Graphs`).
  - The constructor adds the API's paths in ascending order. The parent of each
    path is the longest earlier path it contains (`String.contains`).
  - It normalizes the endpoint graph in two phases: collect the mounted
    endpoints, then move them.
  - It then makes one trait per endpoint, from the summaries along the endpoint's
    unique path from the root (`getPath`).
  - `getTraits` adds each trait's last path component to the modules of the
    traits that precede it.
  - Graphs are arenas: a sequence of vertices and a set of index pairs.

Java `null` results are `Option`s and thrown exceptions are `Result`s. The
static `RustConfig` members, the case conversions, `PathNameTranslator`,
`UnmountVertexTransformation`, `TraitContextFactory`,
`ModelResolver.getPathIdentifier`, `CratePath.getLastComponent` and the
`VersionedSchemaIdentifier` parse are called by the core but defined elsewhere.
They enter the model as function-valued parameters, which may be any function,
except for the assumptions about `TraitContextFactory` and `SnakeCaseName`
listed under "Left out".

## Model

| member | source | states |
|---|---|---|
| `ModuleContexts.LessIsStrictTotalOrder` | redfish-codegen/src/main/java/com/twardyece/dmtf/ModuleContext.java:75-83 | `Submodule.compareTo` (named before anonymous, then by name) is irreflexive, total and transitive, so `sorted()` has one answer |
| `ModuleContexts.CompareToInconsistentWithEquals` | redfish-codegen/src/main/java/com/twardyece/dmtf/ModuleContext.java:75-95 | a named and an anonymous entry with the same name are `equals`, yet `compareTo` puts the named one strictly first |
| `ModuleContexts.AddProperties` | redfish-codegen/src/main/java/com/twardyece/dmtf/ModuleContext.java:85-95 | `HashSet.add` with the name-only `equals`/`hashCode`: the names grow by the new name; the set is unchanged when the name is present and grows by the entry otherwise; names stay unique |
| `ModuleContexts.FirstInsertionWins` | redfish-codegen/src/main/java/com/twardyece/dmtf/ModuleContext.java:21-33 | adding a name a second time, with either visibility, leaves the set as the first add left it |
| `ModuleContexts.ModuleContext.constructor` | redfish-codegen/src/main/java/com/twardyece/dmtf/ModuleContext.java:12-15 | the new module has the given path and an empty submodule set |
| `ModuleContexts.ModuleContext.Submodules` | redfish-codegen/src/main/java/com/twardyece/dmtf/ModuleContext.java:17 | lists exactly the set's entries, each once; every named entry comes before every anonymous one; within a visibility the names ascend; no name repeats |
| `ModuleContexts.ModuleContext.AddNamedSubmodule` | redfish-codegen/src/main/java/com/twardyece/dmtf/ModuleContext.java:21-25 | the set becomes `HashSet.add` of a named entry with the escaped name; names stay unique |
| `ModuleContexts.ModuleContext.AddAnonymousSubmodule` | redfish-codegen/src/main/java/com/twardyece/dmtf/ModuleContext.java:31-33 | the same, with an anonymous entry |
| `ModuleContexts.ModuleContext.RegisterModel` | redfish-codegen/src/main/java/com/twardyece/dmtf/ModuleContext.java:35-61 | the submodule sets of the returned map are `Registered` of the old ones; every module already in the map stays, as the same object; new ones are fresh; with at most two components the map is unchanged |
| `ModuleContexts.RegisterAt` | redfish-codegen/src/main/java/com/twardyece/dmtf/ModuleContext.java:45-60 | one turn of the loop takes the registry from its state after the indices below `i` to its state after `i`, and the prefix to `components[1..i + 1]` |
| `ModuleContexts.AddToModule` | redfish-codegen/src/main/java/com/twardyece/dmtf/ModuleContext.java:47-56 | the module at the prefix is created only when missing, then gets the component as an anonymous or a named entry; no other module's set changes |
| `ModuleContexts.RegisteredThroughKeys` | redfish-codegen/src/main/java/com/twardyece/dmtf/ModuleContext.java:45-50 | after the indices below `bound`, the keys are the old keys plus the prefix keys of those indices |
| `ModuleContexts.RegisteredThroughValues` | redfish-codegen/src/main/java/com/twardyece/dmtf/ModuleContext.java:45-59 | each prefix key holds its old entries with its own component added; every other key is unchanged |
| `ModuleContexts.RegisteredKeys` | redfish-codegen/src/main/java/com/twardyece/dmtf/ModuleContext.java:41-59 | the keys after `registerModel` are the old ones plus the crate-local `components[1..i]` for `2 <= i < n`; `components[0]` is in no key |
| `ModuleContexts.RegisteredContents` | redfish-codegen/src/main/java/com/twardyece/dmtf/ModuleContext.java:52-56 | component `i` goes to the module of `components[1..i]`, escaped; it is anonymous exactly when it is the last component; it is added only when no entry of that name is there |
| `ModuleContexts.RegisteredElsewhere` | redfish-codegen/src/main/java/com/twardyece/dmtf/ModuleContext.java:48-50 | a module whose key is no prefix of the path keeps its submodules |
| `ModuleContexts.RegisteredGrows` | redfish-codegen/src/main/java/com/twardyece/dmtf/ModuleContext.java:48-56 | no module loses an entry, and every module's names stay unique |
| `ModuleContexts.RegisterModelIdempotent` | redfish-codegen/src/main/java/com/twardyece/dmtf/ModuleContext.java:48-50 | registering the same path twice gives the same registry as registering it once |
| `ModuleContexts.FirstComponentIgnored` | redfish-codegen/src/main/java/com/twardyece/dmtf/ModuleContext.java:41-43 | the registry does not depend on the path's first component |
| `ModuleContexts.RegisterModelExample` | redfish-codegen/src/main/java/com/twardyece/dmtf/ModuleContext.java:35-61 | `crate::a::b::c` in an empty registry: module `a` gets named `b`, module `a::b` gets anonymous `c` |
| `ModelFiles.KeyIsJoin` | redfish-codegen/src/main/java/com/twardyece/dmtf/ModelFile.java:29-32 | the key of component `j` is `"src/" + base + "/"` followed by `components[..j + 1]` joined with `/` |
| `ModelFiles.KeysDistinct` | redfish-codegen/src/main/java/com/twardyece/dmtf/ModelFile.java:32 | the keys of one call are pairwise distinct |
| `ModelFiles.StepEffect` | redfish-codegen/src/main/java/com/twardyece/dmtf/ModelFile.java:26-35 | one loop turn adds the key of component `j`, keeping its entry when it exists and making an empty one otherwise; from `j = 1` on, the previous key's entry gains component `j`; all other keys are unchanged |
| `ModelFiles.RegisteredThroughKeys` | redfish-codegen/src/main/java/com/twardyece/dmtf/ModelFile.java:25-36 | after the first `bound` components the keys are the old ones plus one key per component |
| `ModelFiles.RegisteredThroughAtKey` | redfish-codegen/src/main/java/com/twardyece/dmtf/ModelFile.java:26-35 | the entry of key `i` holds what it held before, then component `i + 1` once that component has been handled |
| `ModelFiles.RegisteredThroughElsewhere` | redfish-codegen/src/main/java/com/twardyece/dmtf/ModelFile.java:33-35 | keys that are none of this call's keys keep their entries |
| `ModelFiles.ModelFile.constructor` | redfish-codegen/src/main/java/com/twardyece/dmtf/ModelFile.java:15-21 | keeps the module components and the caller's own `Schema` object, and renames that object in place to the PascalCased form of its old name |
| `ModelFiles.ModelFile.RegisterModel` | redfish-codegen/src/main/java/com/twardyece/dmtf/ModelFile.java:23-37 | the recorded components are `Registered` of the old ones; the keys are the old ones plus one per component; existing entries stay the same objects; each new entry is fresh and its file path is its key followed by the file extension |
| `ModelFiles.RegisterComponent` | redfish-codegen/src/main/java/com/twardyece/dmtf/ModelFile.java:26-35 | one turn of the loop: the path becomes the component's key, which is then present, and the registry takes one `Step` |
| `ModelFiles.AppendTo` | redfish-codegen/src/main/java/com/twardyece/dmtf/ModelFile.java:27 | `modules.get(path).addSubmodule(component)` changes only that entry, by appending the component; the requirement that the entry exists is met on every call, since the previous turn ensured it |
| `ModelFiles.EnsureEntry` | redfish-codegen/src/main/java/com/twardyece/dmtf/ModelFile.java:33-35 | a present key is never replaced; a missing one gets a fresh entry whose path is the key followed by the extension |
| `ModelFiles.ModelFile.GeneratePath` | redfish-codegen/src/main/java/com/twardyece/dmtf/ModelFile.java:39-50 | the path is `"src/" + base + "/" + join(components, "/") + "/" + snake(name) + extension`; the warning is raised exactly when the snake-cased name is empty, and the path is built anyway |
| `ModelFiles.GeneratedPathInLastModule` | redfish-codegen/src/main/java/com/twardyece/dmtf/ModelFile.java:49-50 | that path lies in the directory of the last key `registerModel` creates |
| `ModelFiles.RegisterKeysIdempotent` | redfish-codegen/src/main/java/com/twardyece/dmtf/ModelFile.java:33-35 | registering the same components again creates no key |
| `ModelFiles.RegisteredRecords` | redfish-codegen/src/main/java/com/twardyece/dmtf/ModelFile.java:24-36 | the first component is recorded nowhere; each later one is recorded once, with the entry of the key before it |
| `SchemaPatterns.ModuleClassQuirk` | redfish-codegen/src/main/java/com/twardyece/dmtf/identifiers/UnversionedSchemaIdentifier.java:13 | the module class `[a-zA-z0-9]` holds `_`, `[`, `^` and the backtick while `[a-zA-Z0-9]` does not hold `_`, and every ASCII letter or digit is in the module class |
| `SchemaPatterns.SearchDown` | redfish-codegen/src/main/java/com/twardyece/dmtf/identifiers/UnversionedSchemaIdentifier.java:13 | backtracking the greedy module group finds the largest end at which the rest of the pattern matches, or shows that there is none |
| `SchemaPatterns.FindFrom` | redfish-codegen/src/main/java/com/twardyece/dmtf/identifiers/UnversionedSchemaIdentifier.java:17 | the first start offset from `from` on at which the pattern matches, with the greedy module end there; no match at any earlier offset or longer module end |
| `SchemaPatterns.Find` | redfish-codegen/src/main/java/com/twardyece/dmtf/model/mapper/VersionedModelMapper.java:23 | `find()` fails exactly when no substring matches; otherwise it gives the leftmost match with the longest module group there |
| `UnversionedSchemaIdentifiers.TailAt` | redfish-codegen/src/main/java/com/twardyece/dmtf/identifiers/UnversionedSchemaIdentifier.java:13 | `_<model>` at `p` with the longest model run |
| `UnversionedSchemaIdentifiers.TailAtComplete` | redfish-codegen/src/main/java/com/twardyece/dmtf/identifiers/UnversionedSchemaIdentifier.java:13 | every `_<model>` at `p` is found, with a model run no longer than the one found |
| `UnversionedSchemaIdentifiers.Locate` | redfish-codegen/src/main/java/com/twardyece/dmtf/identifiers/UnversionedSchemaIdentifier.java:16-17 | a match found fits the pattern and its model run cannot be extended |
| `UnversionedSchemaIdentifiers.LocateLeftmostGreedy` | redfish-codegen/src/main/java/com/twardyece/dmtf/identifiers/UnversionedSchemaIdentifier.java:16-17 | any fit of the pattern means a match is found that starts no later, and that has a module group at least as long when it starts at the same offset |
| `UnversionedSchemaIdentifiers.Parse` | redfish-codegen/src/main/java/com/twardyece/dmtf/identifiers/UnversionedSchemaIdentifier.java:15-26 | the constructor fails with `<name> is not an unversioned identifier` exactly when nothing is found; otherwise the getters return the module and model groups of the match |
| `UnversionedSchemaIdentifiers.ParseFailsIff` | redfish-codegen/src/main/java/com/twardyece/dmtf/identifiers/UnversionedSchemaIdentifier.java:17-19 | the constructor throws exactly when no `_` in the name is directly followed by an ASCII letter or digit |
| `UnversionedSchemaIdentifiers.ParsedGroups` | redfish-codegen/src/main/java/com/twardyece/dmtf/identifiers/UnversionedSchemaIdentifier.java:13 | the module group is made of module-class characters, and the model group is a non-empty run of ASCII letters and digits |
| `UnversionedSchemaIdentifiers.ABCExample` | redfish-codegen/src/main/java/com/twardyece/dmtf/identifiers/UnversionedSchemaIdentifier.java:13 | `A_B_C` gives module `A_B` and model `C` |
| `UnversionedSchemaIdentifiers.UnderscoreFooExample` | redfish-codegen/src/main/java/com/twardyece/dmtf/identifiers/UnversionedSchemaIdentifier.java:13 | `_Foo` gives the empty module and model `Foo` |
| `VersionedModelMapper.TailAt` | redfish-codegen/src/main/java/com/twardyece/dmtf/model/mapper/VersionedModelMapper.java:17 | `_v<digits>_<digits>_<digits>_<model>` at `p`, with the longest model run |
| `VersionedModelMapper.TailAtComplete` | redfish-codegen/src/main/java/com/twardyece/dmtf/model/mapper/VersionedModelMapper.java:17 | every such tail at `p` has the digit runs `TailAt` finds and a model run no longer than the one found |
| `VersionedModelMapper.Locate` | redfish-codegen/src/main/java/com/twardyece/dmtf/model/mapper/VersionedModelMapper.java:22-25 | a match found fits the whole pattern and its model run cannot be extended |
| `VersionedModelMapper.LocateNone` | redfish-codegen/src/main/java/com/twardyece/dmtf/model/mapper/VersionedModelMapper.java:22-25 | nothing is found exactly when no substring fits the pattern |
| `VersionedModelMapper.LocateLeftmostGreedy` | redfish-codegen/src/main/java/com/twardyece/dmtf/model/mapper/VersionedModelMapper.java:22-23 | the match is the leftmost, with the longest module group at its offset |
| `VersionedModelMapper.Matches` | redfish-codegen/src/main/java/com/twardyece/dmtf/model/mapper/VersionedModelMapper.java:21-33 | `null` exactly when nothing is found; otherwise the module path is the snake-cased module group then the version group, and the model is the model group |
| `VersionedModelMapper.NoMatchIff` | redfish-codegen/src/main/java/com/twardyece/dmtf/model/mapper/VersionedModelMapper.java:21-25 | `matches` returns `null` exactly when no substring has the shape `module_vD+_D+_D+_model` |
| `VersionedModelMapper.TailVersionShape` | redfish-codegen/src/main/java/com/twardyece/dmtf/model/mapper/VersionedModelMapper.java:17 | the version group is `v` and three non-empty digit runs joined by `_` |
| `VersionedModelMapper.MatchModulePath` | redfish-codegen/src/main/java/com/twardyece/dmtf/model/mapper/VersionedModelMapper.java:27-29 | on a match the module path has exactly two parts: the snake-cased module group, then a version of that shape |
| `VersionedModelMapper.MatchModel` | redfish-codegen/src/main/java/com/twardyece/dmtf/model/mapper/VersionedModelMapper.java:31-32 | the model is a non-empty run of ASCII letters and digits, and it is the longest such run at its place |
| `VersionedModelMapper.MatchOccurs` | redfish-codegen/src/main/java/com/twardyece/dmtf/model/mapper/VersionedModelMapper.java:22-23 | module group, version and model, joined by `_`, occur in the name where the match starts; the match is unanchored |
| `VersionedModelMapper.ChassisExample` | redfish-codegen/src/main/java/com/twardyece/dmtf/model/mapper/VersionedModelMapper.java:13-17 | `Chassis_v1_0_0_PowerState` gives the module path `[snake("Chassis"), "v1_0_0"]` and the model `PowerState` |
| `ODataTypeIdentifiers.Identify` | redfish-codegen/src/main/java/com/twardyece/dmtf/policies/ODataTypeIdentifier.java:11-20 | every result starts with `#`; it fails exactly when both parses of the path identifier fail, with the unversioned parse's error |
| `ODataTypeIdentifiers.IdentifyUsesPathIdentifier` | redfish-codegen/src/main/java/com/twardyece/dmtf/policies/ODataTypeIdentifier.java:12 | two paths with the same identifier get the same result |
| `ODataTypeIdentifiers.UnversionedFallback` | redfish-codegen/src/main/java/com/twardyece/dmtf/policies/ODataTypeIdentifier.java:16-19 | when the versioned parse fails and the identifier has a `_` followed by a letter or digit, the result is `#` + PascalCase(module) + `.` + PascalCase(model), where `module_model` is the leftmost occurrence of the unversioned pattern in the identifier, the module is the longest at that offset and the model run cannot be extended |
| `ODataTypeIdentifiers.IdentifyFailsIff` | redfish-codegen/src/main/java/com/twardyece/dmtf/policies/ODataTypeIdentifier.java:16-19 | `identify` throws exactly when the versioned parse fails and no `_` in the identifier is followed by a letter or digit; the message names the identifier |
| `Text.LessIsStrictTotalOrder` | redfish-generator/src/main/java/com/twardyece/dmtf/api/PathMap.java:27 | `String.compareTo` orders strings strictly and totally |
| `Sorting.SortSet` | redfish-generator/src/main/java/com/twardyece/dmtf/api/PathMap.java:27 | `sorted()` of a set lists each element once, in strictly ascending order |
| `Text.SplitEmptyIff` | redfish-generator/src/main/java/com/twardyece/dmtf/api/PathMap.java:53 | `split("/")` is empty exactly when the string is non-empty and made only of `/` |
| `Text.LastPiece` | redfish-generator/src/main/java/com/twardyece/dmtf/api/PathMap.java:53-54 | the last element of `split` follows the start or a separator, and only separators follow it |
| `LastIndex.LatestKeys` | redfish-generator/src/main/java/com/twardyece/dmtf/api/PathMap.java:74 | a loop of `put`s over a sequence records exactly the keys the sequence holds |
| `LastIndex.LatestIndex` | redfish-generator/src/main/java/com/twardyece/dmtf/api/PathMap.java:103 | the position recorded for a key holds the key, and no later position does: the last `put` wins |
| `Endpoints.Stripped` | redfish-generator/src/main/java/com/twardyece/dmtf/api/PathMap.java:44-49 | exactly one trailing `/` is removed when there is one; otherwise the path is unchanged |
| `Endpoints.StrippedUndoesSlash` | redfish-generator/src/main/java/com/twardyece/dmtf/api/PathMap.java:44-49 | stripping undoes one appended `/` |
| `Endpoints.Summarize` | redfish-generator/src/main/java/com/twardyece/dmtf/api/PathMap.java:53-54 | there is no summary exactly when the stripped path is non-empty and all `/`; a summary holds no `/` |
| `Endpoints.SummaryIsLastComponent` | redfish-generator/src/main/java/com/twardyece/dmtf/api/PathMap.java:53-54 | the summary is the path's last component: it follows the start or a `/`, and only `/`s follow it |
| `Endpoints.MakeEndpoint` | redfish-generator/src/main/java/com/twardyece/dmtf/api/PathMap.java:44-54 | fails exactly for the empty path and for paths of two or more `/` only; otherwise the endpoint has the translated stripped path as name, the item, and a summary without `/` |
| `Endpoints.EndpointSummary` | redfish-generator/src/main/java/com/twardyece/dmtf/api/PathMap.java:44-54 | the stripped path is `before + summary + after`, where `before` is empty or ends in `/` and `after` is only `/`s: the summary is the last component of the path |
| `Endpoints.ParentChoiceLength` | redfish-generator/src/main/java/com/twardyece/dmtf/api/PathMap.java:59-64 | every valid choice of `maxSubstring` has the same length, so only the map's iteration order can decide between paths |
| `Endpoints.ChooseParent` | redfish-generator/src/main/java/com/twardyece/dmtf/api/PathMap.java:59-64 | `maxSubstring` is `""` or a recorded path contained in, and different from, the current one; no such path is longer |
| `Endpoints.AddEndpoint` | redfish-generator/src/main/java/com/twardyece/dmtf/api/PathMap.java:42-76 | fails exactly when the path makes no endpoint; otherwise it adds one vertex, records the stripped path at it, and adds an edge from the parent's endpoint when that exists; the vertex is returned exactly when the map was empty; the table stays valid |
| `Endpoints.BuiltSnoc` | redfish-generator/src/main/java/com/twardyece/dmtf/api/PathMap.java:55-74 | one `addEndpoint` extends the built table by one path; it returns a root exactly on the first call |
| `Endpoints.SortedPaths` | redfish-generator/src/main/java/com/twardyece/dmtf/api/PathMap.java:27 | the paths, each once, in ascending `compareTo` order |
| `Endpoints.AddAt` | redfish-generator/src/main/java/com/twardyece/dmtf/api/PathMap.java:31-36 | one loop turn extends the graph built from the first `i` paths to the first `i + 1`; a failure is the path's own |
| `Endpoints.AddAll` | redfish-generator/src/main/java/com/twardyece/dmtf/api/PathMap.java:31-36 | the loop builds the graph from all given paths in order; it fails only for a path that makes no endpoint |
| `Endpoints.BuildEndpointGraph` | redfish-generator/src/main/java/com/twardyece/dmtf/api/PathMap.java:27-36 | fails exactly when some path makes no endpoint; vertex `j` is the endpoint of the `j`-th sorted path; edges follow the parent choices; the root is vertex 0, present exactly when there are paths |
| `Endpoints.NoCycle` | redfish-generator/src/main/java/com/twardyece/dmtf/api/PathMap.java:66-69 | edges go from earlier to later vertices, so no walk of two or more vertices returns to its start |
| `Graphs.Predecessors` | redfish-generator/src/main/java/com/twardyece/dmtf/api/PathMap.java:109 | the vertices with an edge into `v` |
| `Graphs.Traverse` | redfish-generator/src/main/java/com/twardyece/dmtf/api/PathMap.java:81-83 | the iterator visits the root first, then every vertex reachable from it exactly once, each through an edge from a vertex visited earlier |
| `Graphs.SimplePaths` | redfish-generator/src/main/java/com/twardyece/dmtf/api/PathMap.java:118 | `getAllPaths` with simple paths only is exactly the set of simple paths from `from` to `to` |
| `Graphs.PathsExtendingSound` | redfish-generator/src/main/java/com/twardyece/dmtf/api/PathMap.java:118 | every path listed is a simple path extending the prefix |
| `Graphs.PathsExtendingComplete` | redfish-generator/src/main/java/com/twardyece/dmtf/api/PathMap.java:118 | every simple path extending the prefix is listed |
| `Graphs.AscendingWalk` | redfish-generator/src/main/java/com/twardyece/dmtf/api/PathMap.java:66-69 | with edges only from lower to higher indices, every walk ascends |
| `EndpointPaths.GetPath` | redfish-generator/src/main/java/com/twardyece/dmtf/api/PathMap.java:117-130 | raises `MultiplePaths` exactly when two different simple paths lead to `v` and `NoPath` exactly when none does; otherwise it gives the summaries along the one path |
| `EndpointPaths.GetPathEnds` | redfish-generator/src/main/java/com/twardyece/dmtf/api/PathMap.java:118-129 | a path found starts with the root's summary and ends with the endpoint's |
| `EndpointPaths.GetPathOfRoot` | redfish-generator/src/main/java/com/twardyece/dmtf/api/PathMap.java:117-130 | the root's path is its summary alone |
| `EndpointPaths.SingleParentPathUnique` | redfish-generator/src/main/java/com/twardyece/dmtf/api/PathMap.java:117-127 | in a graph where every vertex has at most one predecessor and the root none, two simple paths to one vertex are equal |
| `EndpointPaths.SingleParentNoMultiplePaths` | redfish-generator/src/main/java/com/twardyece/dmtf/api/PathMap.java:125-127 | such a graph never makes `getPath` raise for multiple paths |
| `EndpointPaths.ShortenWalk` | redfish-generator/src/main/java/com/twardyece/dmtf/api/PathMap.java:118 | every walk contains a simple path between its ends |
| `EndpointPaths.SingleParentGetPath` | redfish-generator/src/main/java/com/twardyece/dmtf/api/PathMap.java:117-130 | in such a graph `getPath` succeeds exactly for the reachable vertices |
| `EndpointPaths.BuiltIsSingleParent` | redfish-generator/src/main/java/com/twardyece/dmtf/api/PathMap.java:66-74 | before normalization the endpoint graph is single-parent with its root at vertex 0 |
| `Normalization.MountedMembers` | redfish-generator/src/main/java/com/twardyece/dmtf/api/PathMap.java:81-87 | the collected list holds exactly the visited endpoints that `check` accepts |
| `Normalization.MountedNoDuplicates` | redfish-generator/src/main/java/com/twardyece/dmtf/api/PathMap.java:81-87 | the collected list has no repeats, so `perform` runs at most once per endpoint |
| `Normalization.PerformAll` | redfish-generator/src/main/java/com/twardyece/dmtf/api/PathMap.java:89-91 | the moves keep the vertex table |
| `Normalization.Normalize` | redfish-generator/src/main/java/com/twardyece/dmtf/api/PathMap.java:78-92 | collects the accepted endpoints in visit order on the unchanged graph, then applies `perform` to each in that order; without a root it does nothing |
| `Normalization.MountedAreReachableChecked` | redfish-generator/src/main/java/com/twardyece/dmtf/api/PathMap.java:79-87 | the endpoints moved are exactly the reachable ones `check` accepts on the graph before any move, each once |
| `Normalization.NothingMounted` | redfish-generator/src/main/java/com/twardyece/dmtf/api/PathMap.java:78-92 | when `check` accepts nothing, the graph is left as it was |
| `TraitGraphs.TraitContext.constructor` | redfish-generator/src/main/java/com/twardyece/dmtf/api/PathMap.java:102 | the trait `makeTraitContext` returns has the type, name and module path the factory decides; that its module context is new and empty is an assumption about the factory, listed under "Left out" |
| `TraitGraphs.PredecessorEdges` | redfish-generator/src/main/java/com/twardyece/dmtf/api/PathMap.java:109-113 | succeeds exactly when every predecessor's path and type resolve to a recorded trait; then it gives one edge from each such trait into trait `i`; a failure is one predecessor's own |
| `TraitGraphs.PassStuck` | redfish-generator/src/main/java/com/twardyece/dmtf/api/PathMap.java:99-114 | once an endpoint raises, the pass stays failed |
| `TraitGraphs.PassMeaning` | redfish-generator/src/main/java/com/twardyece/dmtf/api/PathMap.java:99-114 | the pass gets through `k` endpoints exactly when every path resolves and every predecessor's type has a trait by then; its state is the traits made and the edges from predecessors' latest traits |
| `TraitGraphs.TransformStep` | redfish-generator/src/main/java/com/twardyece/dmtf/api/PathMap.java:100-113 | one endpoint's trait, the updated `traits` map and the edges into it, exactly as the pass describes; a failure is its path's or a predecessor's |
| `TraitGraphs.TransformAll` | redfish-generator/src/main/java/com/twardyece/dmtf/api/PathMap.java:99-114 | succeeds exactly when the pass does; the trait graph has the pass's edges and traits, each with a fresh, empty module context of its own |
| `TraitGraphs.TransformToTraitContextGraph` | redfish-generator/src/main/java/com/twardyece/dmtf/api/PathMap.java:94-115 | visits every reachable endpoint once from the root; succeeds exactly when every visited endpoint makes its trait and finds each predecessor's trait; the root is the first trait |
| `PathMaps.NameTableMeaning` | redfish-generator/src/main/java/com/twardyece/dmtf/api/PathMap.java:141 | the `traits` map holds the names of the traits visited so far; with distinct names it maps each back to its trait |
| `PathMaps.RecordedTraits` | redfish-generator/src/main/java/com/twardyece/dmtf/api/PathMap.java:136-148 | with distinct names, the returned traits are exactly those visited |
| `PathMaps.ResolvedMeaning` | redfish-generator/src/main/java/com/twardyece/dmtf/api/PathMap.java:144-145 | a trait's lookups all succeed exactly when each of its predecessors was visited no later |
| `PathMaps.ContributionMeaning` | redfish-generator/src/main/java/com/twardyece/dmtf/api/PathMap.java:143-145 | the trait at position `k` gives its label to exactly those of its predecessors visited no later |
| `PathMaps.UpdatesMeaning` | redfish-generator/src/main/java/com/twardyece/dmtf/api/PathMap.java:138-146 | over the whole pass, trait `a` receives the label of trait `t` exactly when `a` precedes `t` and was visited no later |
| `PathMaps.AddNamesNames` | redfish-generator/src/main/java/com/twardyece/dmtf/api/PathMap.java:145 | the names after a run of `addNamedSubmodule` calls are the old names plus those added, in any order |
| `PathMaps.AllSetsValid` | redfish-generator/src/main/java/com/twardyece/dmtf/api/PathMap.java:143-145 | every module context stays valid and only gains entries |
| `PathMaps.PathMap.GetTraits` | redfish-generator/src/main/java/com/twardyece/dmtf/api/PathMap.java:135-149 | visits the reachable traits from the root; succeeds exactly when every lookup does; then each module holds its old entries plus a named entry per label the pass gives it, and the result is the recorded traits; no module loses an entry |
| `PathMaps.RecordTraits` | redfish-generator/src/main/java/com/twardyece/dmtf/api/PathMap.java:138-146 | the loop over the visit order leaves exactly the additions `Updates` describes and records every trait by name; it fails exactly when some lookup does |
| `PathMaps.RecordTrait` | redfish-generator/src/main/java/com/twardyece/dmtf/api/PathMap.java:140-145 | one trait recorded and added to its predecessors' modules |
| `PathMaps.AddToPredecessors` | redfish-generator/src/main/java/com/twardyece/dmtf/api/PathMap.java:144-145 | succeeds exactly when every predecessor's name is recorded, adding the label to each one's trait |
| `PathMaps.AddLabel` | redfish-generator/src/main/java/com/twardyece/dmtf/api/PathMap.java:145 | one `addNamedSubmodule` on the trait recorded under a predecessor's name |
| `PathMaps.NormalizedEndpoints` | redfish-generator/src/main/java/com/twardyece/dmtf/api/PathMap.java:27-38 | fails exactly when some path makes no endpoint; otherwise the graph built from the sorted paths is normalized |
| `PathMaps.FromEndpoints` | redfish-generator/src/main/java/com/twardyece/dmtf/api/PathMap.java:39 | the trait graph of the normalized graph, rooted exactly when there are endpoints, with fresh, empty module contexts |
| `PathMaps.Build` | redfish-generator/src/main/java/com/twardyece/dmtf/api/PathMap.java:23-40 | the constructor fails when a path makes no endpoint; otherwise it builds, normalizes and transforms as above; an empty API gives an empty map |

## Left out

- Visit orders: `DepthFirstIterator` and `BreadthFirstIterator` are both modelled by `Graphs.Traverse`. It promises what both promise: the root first, each reachable vertex once, and a discovery edge for each later one. Their exact orders are library internals.
- `AllDirectedPaths.getAllPaths` is modelled by its result, the set of simple paths, and not by its algorithm.
- Which exception is raised first: where several endpoints or predecessors could raise, the model says that the thrown one belongs to one of them, not which one. Predecessors and `endpoints.keySet()` are visited in an order the model does not fix, as with `HashMap`.
- `UnmountVertexTransformation.check` and `perform` are parameters. `perform` is taken to return the new edge set and never to add or remove vertices.
- `RustType` is its rendering as a string. `TraitContext.toString` is the trait's `name`, fixed when it is made.
- `CratePath` is the data the core reads: its components and the crate-local tag. `getLastComponent` is a parameter of `GetTraits`. The registry map of `ModuleContext.registerModel` is keyed by the `CratePath` value instead of its `toString`, which is taken to be injective.
- `ModuleFile` is not part of this model. It is represented by its file path and the components given to `addSubmodule`.
- The file system effects of `generate` (`File`, `mkdirs`, `createNewFile`) and the printing of its warning: `GeneratePath` returns the path and whether the warning is printed.
- `null` inputs: a `null` component list in `registerModel`, `null` paths and `null` names are not modelled. `VersionedModelMapper.Matches` returns `None` where the source returns `null`.
- Java strings are UTF-16; here they are sequences of characters compared by code point.
- `borrowGraph` and `getRoot` are the `graph` and `root` fields of `PathMaps.PathMap`.
- `PathMaps.Build`: the Java constructor assigns `graph` and `root` in place while it loops. The model builds the value and returns a new `PathMap`. A failure is a `Failure`, not a half-built object.
- `PathMaps.PathMap.GetTraits`: returns a set, not a list, because the order of `traits.values()` is unspecified. When it fails, the model does not describe which module contexts were already changed, beyond that they kept their old entries and stayed valid.
- `PathMaps.RecordedTraits`, `PathMaps.ResolvedMeaning`, `PathMaps.ContributionMeaning`, `PathMaps.UpdatesMeaning`: these assume that no two traits share a `toString` rendering. When two do, the `traits` map of `getTraits` keeps only the later one; `GetTraits` still describes that case through `NameTable`.
- `ODataTypeIdentifiers.Identify`: the `VersionedSchemaIdentifier` parse is a parameter, so the result in the versioned case is stated in terms of that parse's getters.
- `Endpoints.AddEndpoint`, `Endpoints.BuildEndpointGraph`, `TraitGraphs.TransformAll`: the graphs are arenas, so every added path and every visited endpoint becomes a vertex of its own, as if vertices were compared by reference. jgrapht's `addVertex` (PathMap.java lines 55 and 104) ignores a vertex equal to one already present, and the model does not capture that merging. For the same reason the guard `!previous.equals(current)` before `addEdge` (line 67) is taken to be always true. When `translate` gives two paths endpoints that compare equal, the source keeps one vertex and no edge between them, while the model keeps two vertices and the edge.
- `TraitGraphs.TraitContext.constructor`, `TraitGraphs.TransformAll`: `TraitContextFactory.makeTraitContext` is not part of this model. It is taken to give every trait a new, empty `ModuleContext` that no other trait shares. `PathMaps.PathMap.Valid` and the per-trait accounting of `PathMaps.PathMap.GetTraits` and `PathMaps.UpdatesMeaning` rest on this. A factory that shares one context between two traits would merge their submodule sets, and the model does not describe that case.
- `ModuleContexts.LessIsStrictTotalOrder`: `SnakeCaseName` is not part of this model. Its `compareTo`, `equals` and `hashCode` are taken to be those of `String` on the rendered names, so the order and the name-only equality of `Submodule` are stated over strings.
- The `SimpleModelMapper` and `NameMapper` patterns of `RedfishCodegen`, and the mapper priority order, are not part of this model.
