# OpenAPI plugin manager, modelled in Dafny

This project models `OpenPluginManager`, the component of the OpenAPI server
that finds plugin assemblies in a directory and loads them. It also resolves
their references, builds plugin instances with constructor injection, enables
them, and later unloads them again.

The manager keeps three tables, and the model keeps all three:

- `assemblyReferences` is the name cache (`AssemblyReferences`). It maps an
  assembly's simple name to the assembly loaded for it.
- `loadedAssemblies` is the plugin table (`LoadedAssemblies`). Each row holds a
  loaded plugin assembly, its plugin instances, the assemblies it depends on,
  and the directory it came from. Insertion order is kept as a sequence.
- `references` is the type registry (`References`). It maps a type to the one
  object registered for it.

The outside world is a value of type `World.Env`:

- `disk` maps each path to `Some(assembly)` when the file holds a readable
  module, and to `None` when it holds something else.
- `listing` gives the `*.dll` files found under each directory, recursively.
- `resolver` holds the answers of the dependency resolver.
- `executingDir` and `callingDir` are the directories of the executing and the
  calling assembly.
- `enableThrows` is the set of plugin types whose `Enabled` call throws.

Assemblies are values: a name, the names it references, and all of its types
(`GetTypes`). A flag on each type marks the ones it exports (`GetExportedTypes`).
The process's loaded assemblies are a sequence, `domain`. Calls into
plugins (`Enabled`, `Disabled`, `UnloadCommands`) are recorded as a log of
`events`.

The modules follow the program's structure:

- `World` holds the data model.
- `Lookup` holds the name checks and the path search.
- `Resolution` holds the two passes of `TryResolve`.
- `Injection` holds the constructor injection of `LoadAssembly`.
- `Pipeline` holds the per-file processing and the three stages of
  `DiscoverPlugins`.
- `Tables` holds the plugin table's operations and queries.
- `Manager` holds the `PluginManager` class. Its methods carry the source's
  loops and are proved against the functions in the other modules.

In a few places the code and its own comments disagree. The model always
follows the code:

- The unload cascade goes to the assemblies the unloaded one depends on, not to
  the ones that depend on it.
- A reference whose file is not found does not fail resolution. The early
  return is commented out.
- The executing-directory step of the path search only checks that the file
  exists. It does not check the assembly name.

## Model

| member | source | states |
|---|---|---|
| Lookup.IsLoaded | src/OpenAPI/Plugins/OpenPluginManager.cs:295-310 | The result is None exactly when no assembly of the process has the name, ignoring case. Otherwise it is the first one that has it. |
| Lookup.ReferencesHost | src/OpenAPI/Plugins/OpenPluginManager.cs:312-326 | True exactly when one of the assembly's references names the host assembly, ignoring case. The module and loaded-assembly overloads are one function, because both read the same reference names. |
| Lookup.CompareFileToAssemblyName | src/OpenAPI/Plugins/OpenPluginManager.cs:197-213 | Each of the four outcomes holds exactly when its condition holds. A missing file gives FileNotFound. An unreadable module throws. A readable one gives Match or NotEqual by a case-insensitive comparison of the names. |
| Lookup.TryFindAssemblyPath | src/OpenAPI/Plugins/OpenPluginManager.cs:111-188 | A found path is one of the candidate locations: the resolver's answer, or `name.dll` in the root, last, executing or calling directory. |
| Lookup.SearchIsFirstHit | src/OpenAPI/Plugins/OpenPluginManager.cs:111-188 | The nested search is the same as taking the first hit in one ordered list of steps. The order is: resolver, root, last directory (only when set and non-empty), executing directory, calling directory. |
| Lookup.FirstHitFound | src/OpenAPI/Plugins/OpenPluginManager.cs:111-188 | A path is returned exactly when some step yields it and every earlier step misses without throwing. Both directions are proved. |
| Lookup.FirstHitNotFound | src/OpenAPI/Plugins/OpenPluginManager.cs:178-182 | The search reports "not found" exactly when every step misses without throwing. |
| Lookup.ExecutingStepAcceptsAnyFile | src/OpenAPI/Plugins/OpenPluginManager.cs:144-154 | Suppose the resolver, the root and the last directory all miss. Then any file with the right file name in the executing directory is returned, whatever assembly it holds. |
| Resolution.PlanAbortsOnlyOnThrow | src/OpenAPI/Plugins/OpenPluginManager.cs:403-430 | The first pass aborts exactly when the path search throws for some reference that is neither loaded nor cached. |
| Resolution.PlanReused | src/OpenAPI/Plugins/OpenPluginManager.cs:403-409 | When the first pass completes, the reused assemblies are exactly those found for references that are already loaded or cached by name. |
| Resolution.PlanPaths | src/OpenAPI/Plugins/OpenPluginManager.cs:411-422 | When the first pass completes, `(r, p)` is a path to load exactly when `r` is a reference, is neither loaded nor cached, and its search finds `p`. References that are not found are dropped without failing. |
| Resolution.LoadPathsSpec | src/OpenAPI/Plugins/OpenPluginManager.cs:432-447 | The second pass fails exactly when some found path does not load. On success it has loaded every path in order, and every name is cached. No cache entry is ever overwritten, and the process's assemblies only grow, even on failure. |
| Manager.PluginManager.FirstPass | src/OpenAPI/Plugins/OpenPluginManager.cs:403-430 | The loop's result is the first-pass plan that the three lemmas above describe. |
| Manager.PluginManager.LoadFound | src/OpenAPI/Plugins/OpenPluginManager.cs:432-447 | The loop's new process assemblies, cache, success flag and loaded list are those of the second pass described by `LoadPathsSpec`. |
| Manager.PluginManager.TryResolve | src/OpenAPI/Plugins/OpenPluginManager.cs:396-451 | An abort changes nothing and returns failure. Otherwise the state is the second pass's state, and on success the result is the reused assemblies followed by the loaded ones. |
| Pipeline.HostFilterSpec | src/OpenAPI/Plugins/OpenPluginManager.cs:363-369 | The filtered list has no duplicates. It holds exactly the input's assemblies that reference the host. |
| Manager.PluginManager.KeepHostReferencing | src/OpenAPI/Plugins/OpenPluginManager.cs:363-369 | The loop computes the host filter whose properties `HostFilterSpec` proves. |
| Pipeline.ProcessSpecProperties | src/OpenAPI/Plugins/OpenPluginManager.cs:328-394 | A file is skipped exactly when its assembly is already loaded, already cached, or does not reference the host. A skip changes nothing, and a missing file is reported. A non-empty result ends with the file's own assembly, which is then loaded and cached. The elements before it are distinct, and every element references the host. The cache never loses or changes an entry. |
| Pipeline.ProcessLoads | src/OpenAPI/Plugins/OpenPluginManager.cs:361-375 | A readable file that is not skipped is loaded exactly when its references resolve and every found path loads. The result is then the resolved assemblies that reference the host, each once, with the reused ones before those loaded from disk, followed by the file's own assembly. |
| Manager.PluginManager.ProcessFile | src/OpenAPI/Plugins/OpenPluginManager.cs:328-394 | The result and the new state are those of the per-file function characterised by `ProcessSpecProperties` and `ProcessLoads`. |
| Pipeline.GatherSpec | src/OpenAPI/Plugins/OpenPluginManager.cs:226-255 | The processed count is the number of listed files that exist. The gathered assemblies are distinct and all reference the host. The recorded directory is that of the last listed file, or the root when there is none. |
| Pipeline.GatherComplete | src/OpenAPI/Plugins/OpenPluginManager.cs:226-244 | The gathered assemblies are exactly the union of what the loaded files yielded. Each file is processed in the state the files before it leave. |
| Manager.PluginManager.GatherFiles | src/OpenAPI/Plugins/OpenPluginManager.cs:226-255 | The file loop yields the count, the gathered list, the directory and the new state described by `GatherSpec`. |
| Injection.AddAll | src/OpenAPI/Plugins/OpenPluginManager.cs:532-538 | Adding only missing elements keeps a list free of duplicates. The result holds exactly the elements of both lists. The original list stays a prefix, and after it come the elements of the second list that it lacked, each at its first occurrence and in their order. |
| Manager.PluginManager.AppendMissing | src/OpenAPI/Plugins/OpenPluginManager.cs:240-244 | The loop computes the duplicate-free union described by `Injection.AddAll`. |
| Pipeline.RegisterSpec | src/OpenAPI/Plugins/OpenPluginManager.cs:259-272 | The table stays well formed and only grows at its end. Each new row holds a gathered assembly and the discovery's directory. The plugins collected are exactly those of the new rows, in order. A duplicate-key failure names a gathered assembly that was already in the table. |
| Pipeline.RegisterRows | src/OpenAPI/Plugins/OpenPluginManager.cs:259-272 | The table before is kept as a prefix. Each new row belongs to a gathered assembly. Its plugins and dependencies are exactly those `LoadAssembly` produced for it against the table at that assembly's turn, and that load succeeded. |
| Pipeline.RegisterComplete | src/OpenAPI/Plugins/OpenPluginManager.cs:259-272 | Suppose no duplicate key was hit. Then the tracked assemblies are exactly those tracked before, plus every gathered assembly whose `LoadAssembly` succeeded at its turn. |
| Pipeline.RegisterStops | src/OpenAPI/Plugins/OpenPluginManager.cs:259-272 | Registration stops on a duplicate key exactly when some gathered assembly loads successfully against the table built so far and that table already tracks it. The duplicate is the first such assembly. The table and plugins are those registered before it. |
| Manager.PluginManager.RegisterAll | src/OpenAPI/Plugins/OpenPluginManager.cs:259-272 | The registration loop produces the table, the duplicate and the plugin list characterised by `RegisterSpec`. |
| Pipeline.EnabledCountSpec | src/OpenAPI/Plugins/OpenPluginManager.cs:276-288 | The enabled count never exceeds the number of plugins. It equals it exactly when no plugin's `Enabled` throws. |
| Manager.PluginManager.EnableAll | src/OpenAPI/Plugins/OpenPluginManager.cs:276-288 | Every plugin's `Enabled` is called, in order, whether or not an earlier one threw. The count is the one `EnabledCountSpec` bounds. |
| Manager.PluginManager.DiscoverPlugins | src/OpenAPI/Plugins/OpenPluginManager.cs:216-293 | A missing directory changes nothing. Otherwise the last path becomes the directory and the files are gathered, then registered, then enabled. A duplicate key stops the call before anything is enabled. The report gives the processed count, the gathered assemblies, the new plugins and the enabled count. |
| Injection.Instance | src/OpenAPI/Plugins/OpenPluginManager.cs:464-482 | A type with a parameterless constructor uses only that one. If it throws, only that instance is lost. Otherwise the plugin has no arguments and no dependencies. |
| Injection.MatchPluginsSpec | src/OpenAPI/Plugins/OpenPluginManager.cs:511-525 | Scanning one row appends exactly its instances of the parameter's type. The dependencies stay distinct and grow by exactly those instances' providers. |
| Injection.MatchEntriesSpec | src/OpenAPI/Plugins/OpenPluginManager.cs:509-526 | Scanning the table appends every loaded instance of exactly the parameter's type, in table order. The dependencies grow by their assemblies, except the one being loaded. |
| Manager.PluginManager.MatchLoaded | src/OpenAPI/Plugins/OpenPluginManager.cs:509-526 | The nested loop over the table computes the scan that `MatchEntriesSpec` characterises. |
| Injection.FillByPriority | src/OpenAPI/Plugins/OpenPluginManager.cs:489-527 | The arguments are chosen by priority: the host for the host type, then the registered object, then every loaded instance of that type. The recorded dependencies are distinct. They are exactly the arguments' providing assemblies: a registered object's assembly always, and a plugin instance's assembly only when it is not the one being loaded. |
| Manager.PluginManager.FillArguments | src/OpenAPI/Plugins/OpenPluginManager.cs:489-527 | The parameter loop computes the arguments and dependencies characterised by `FillByPriority`. |
| Injection.FirstFit | src/OpenAPI/Plugins/OpenPluginManager.cs:485-548 | No instance is attempted exactly when no constructor gets one argument per parameter. Otherwise the outcome is that of the first such constructor, and no later one is tried. |
| Manager.PluginManager.TryConstructors | src/OpenAPI/Plugins/OpenPluginManager.cs:485-548 | The constructor loop, with its early exit, computes the first-fit outcome described by `FirstFit`. |
| Injection.CreatedSpec | src/OpenAPI/Plugins/OpenPluginManager.cs:464-548 | A created plugin belongs to the loaded assembly and has the candidate type's name. Its dependencies are distinct and are exactly its arguments' providers. |
| Injection.ScanComplete | src/OpenAPI/Plugins/OpenPluginManager.cs:461-550 | The type loop aborts exactly when some candidate type's instance throws out of it, as an injecting constructor's `Invoke` does at line 531. Otherwise it keeps the plugin of every candidate type whose instance was created, in type order, and no other. |
| Injection.ScanSpec | src/OpenAPI/Plugins/OpenPluginManager.cs:461-550 | After the type loop, the dependencies are distinct and are exactly the providers of all created plugins. Every plugin comes from an exported, non-abstract class assignable to `OpenPlugin`. |
| Injection.Instantiate | src/OpenAPI/Plugins/OpenPluginManager.cs:454-566 | Loading succeeds exactly when no candidate type's instance threw out of the type loop and at least one candidate type's instance was created. The plugins are then those of every such type, in type order. On failure, both outputs are empty. |
| Injection.InstantiateSpec | src/OpenAPI/Plugins/OpenPluginManager.cs:454-566 | A loaded assembly's recorded dependencies are distinct. They are exactly the assemblies that provide its plugins' injected arguments. Every plugin comes from a candidate type. |
| Manager.PluginManager.LoadAssembly | src/OpenAPI/Plugins/OpenPluginManager.cs:454-566 | The method returns the instantiation that `Instantiate` and `InstantiateSpec` characterise. It succeeds exactly when it returns at least one plugin. An exception from an injecting constructor aborts the whole assembly. |
| Injection.RegistrySelfDependency | src/OpenAPI/Plugins/OpenPluginManager.cs:497-505 | A registered object whose type belongs to the assembly being loaded makes that assembly depend on itself. The self-exclusion at line 517 covers only plugin instances. |
| Tables.Find | src/OpenAPI/Plugins/OpenPluginManager.cs:578 | The lookup gives the first row of the assembly. It gives None exactly when no row holds it. |
| Tables.RemoveFirst | src/OpenAPI/Plugins/OpenPluginManager.cs:620 | Removing an instance takes out its first occurrence, and the other instances keep their order. An absent instance leaves the list unchanged. |
| Tables.RemoveFirstCount | src/OpenAPI/Plugins/OpenPluginManager.cs:620 | Removing a present instance takes exactly one copy of it out of the list. |
| Tables.RemoveAtSpec | src/OpenAPI/Plugins/OpenPluginManager.cs:623-626 | Removing a row keeps the table well formed. It drops exactly the rows of that assembly and keeps every other row. |
| Tables.SetPluginsSpec | src/OpenAPI/Plugins/OpenPluginManager.cs:618-626 | Replacing a row's instances keeps the table well formed and every other row. The row stays exactly when its new list is not empty. |
| Tables.UnloadPluginSpec | src/OpenAPI/Plugins/OpenPluginManager.cs:610-633 | An instance of an untracked assembly leaves the table unchanged. Otherwise one occurrence of the instance leaves its row, and the row is removed exactly when it becomes empty. Every other row is kept. |
| Manager.PluginManager.UnloadPlugin | src/OpenAPI/Plugins/OpenPluginManager.cs:610-633 | `Disabled` is always called. The table changes as `UnloadPluginSpec` states. Commands are unloaded only for a tracked assembly. |
| Manager.PluginManager.UnloadInstances | src/OpenAPI/Plugins/OpenPluginManager.cs:603-606 | Unloading every instance of a row removes exactly that row. The instances are disabled in order and their commands are unloaded. |
| Manager.PluginManager.RemoveTypeReferences | src/OpenAPI/Plugins/OpenPluginManager.cs:594-600 | The registry loses exactly the entries for the assembly's types. |
| Manager.PluginManager.UnloadDependencies | src/OpenAPI/Plugins/OpenPluginManager.cs:584-591 | No row is added. The rows of assemblies being unloaded further up, and the assembly's own row, are kept. Every dependency is gone unless it is being unloaded further up. The rows removed are all reachable from the assembly, and every tracked dependency of a removed row is removed too. The registry loses exactly the removed assemblies' types. |
| Manager.PluginManager.UnloadGuarded | src/OpenAPI/Plugins/OpenPluginManager.cs:574-608 | No row is added. The rows removed are exactly those of the assemblies reachable from the assembly through recorded dependencies, without passing through one being unloaded further up. Every other row is kept unchanged. The registry loses exactly those assemblies' types. An untracked assembly changes nothing. Otherwise the assembly's own instances' events come last. |
| Manager.PluginManager.UnloadPluginAssembly | src/OpenAPI/Plugins/OpenPluginManager.cs:574-608 | The cascade terminates, and no row is added. The rows removed are exactly those of the assembly and of every assembly reachable from it through recorded dependencies. Every other row is kept unchanged. The registry loses exactly the removed assemblies' types. An untracked assembly changes nothing. Otherwise the events end with the disabling of the assembly's own instances. |
| Tables.ReachClosed | src/OpenAPI/Plugins/OpenPluginManager.cs:584-591 | What a cascade reaches holds every tracked dependency of each assembly in it, except those it stops at. |
| Tables.ClosedHoldsReach | src/OpenAPI/Plugins/OpenPluginManager.cs:584-591 | Any set that holds the assembly and every tracked dependency of its members holds all that the cascade reaches. So the reach is the least such set. |
| Manager.PluginManager.UnloadIfTracked | src/OpenAPI/Plugins/OpenPluginManager.cs:641-648 | A tracked assembly's row leaves the table, and its instances are disabled in order. An untracked one changes nothing. |
| Manager.PluginManager.UnloadAll | src/OpenAPI/Plugins/OpenPluginManager.cs:635-653 | The name cache ends empty. Exactly the rows of assemblies that were cached values are removed, and every other row is kept. The events are, name by name in enumeration order, the disabling and command unloading of each instance of the cached assembly's row, for the first name under which that assembly is cached. |
| Manager.PluginManager.SetReference | src/OpenAPI/Plugins/OpenPluginManager.cs:655-661 | Registration succeeds exactly when the type was not registered. Only then is the object stored, and a later lookup returns the stored object. |
| Manager.PluginManager.TryGetReference | src/OpenAPI/Plugins/OpenPluginManager.cs:663-678 | The lookup finds a value exactly when the type is registered, and then returns that type's object. |
| Manager.PluginManager.constructor | src/OpenAPI/Plugins/OpenPluginManager.cs:27-53 | A new manager has an empty plugin table and registry, no last path, and the given process assemblies and cache. |
| Tables.ReferencedPluginsSpec | src/OpenAPI/Plugins/OpenPluginManager.cs:697-713 | A type is listed as a dependency exactly when some tracked row of one of the dependencies holds an instance of it. |
| Tables.ReportSpec | src/OpenAPI/Plugins/OpenPluginManager.cs:680-695 | The report has one entry per instance of the rows given. Each entry holds its instance, `enabled = true`, and the types of the instances in the rows its row depends on. |
| Tables.GetLoadedPluginsSpec | src/OpenAPI/Plugins/OpenPluginManager.cs:680-695 | The loaded-plugins report has one entry per plugin instance in the table, with that row's dependency types. |
| Tables.SelfLoopNeverReturns | src/OpenAPI/Plugins/OpenPluginManager.cs:584-591 | As written, the cascade never returns, whatever the recursion depth, for a tracked assembly whose row lists it among its own dependencies. |

## Left out

- Reflection, file IO, module reading and the dependency resolver are data in `World.Env`, not computations. The resolver is assumed never to throw.
- Case-insensitive comparison folds ASCII letters only. Invariant-culture folding of other characters is not modelled.
- `Path.Combine` and `Path.GetDirectoryName` are reduced to joining with a separator, and to the directory stored with each listed file.
- Assembly versions, cultures and strong names are ignored. References match by simple name only.
- The constructor's seeding of the name cache from the process's assemblies (lines 36-50) is not modelled. The process's assemblies and the initial cache are parameters.
- The `AssemblyResolve` handler (lines 56-109) is not part of this model.
- Locks, logging and `FindRequiredAssemblies` (lines 569-572, an empty body) are left out.
- `Enabled`, `Disabled` and `UnloadCommands` are recorded as events. Only `Enabled` may throw, and its effect on the plugin is not modelled.
- `OpenPluginInfo` (the `Info` of a report entry) is not modelled.
- The `LoadedAssembly` and `LoadedPlugin` classes, the example plugins and the event and attribute types are not part of this model.
- Dictionary enumeration order is modelled as insertion order. `UnloadAll`'s enumeration order is a parameter.
- `GetTypes` (line 594) is the assembly's list of types. `GetExportedTypes` (line 461) is that list filtered by each type's `isPublic` flag. Each type is reduced to its flags and its constructors. A constructor's success depends only on its arguments' types.
- Loading the file's own assembly (line 372) always succeeds in the model, because a file that reads as a module is taken to be loadable.
- The last file's directory is recorded as each new row's origin. The source uses the reassigned `path` variable at line 265.
- The name cache is keyed case-sensitively, while `IsLoaded` compares ignoring case. The model keeps both as written.
- Manager.PluginManager.UnloadPluginAssembly: models the cascade with a set of assemblies being unloaded. That set stops the recursion the source lacks (see Findings), so the contract describes the intended behaviour. The events of nested unloads are stated as a prefix, not listed one by one.
- Manager.PluginManager.UnloadGuarded: the events of the nested unloads of its dependencies are a ghost prefix `cascade`. Its contract states that the assembly's own instances' events follow it, but not which events the prefix holds.
- Manager.PluginManager.UnloadInstances: the source removes instances from the list it is enumerating. The model iterates over a snapshot of the row and does not model the enumerator's behaviour under modification.
- Pipeline.ProcessSpecProperties: proves that the elements before the file's own assembly are distinct. It does not prove that the file's own assembly is absent from them.
- Manager.PluginManager.DiscoverPlugins: the exception from a duplicate key in `LoadedAssemblies.Add` (line 265) is modelled as a `DuplicateKey` result with the rows before it kept. The exception's propagation to the caller is not modelled.

## Findings

| source | as written | input that shows it | evidently intended | confidence | as-written member | corrected member |
|---|---|---|---|---|---|---|
| src/OpenAPI/Plugins/OpenPluginManager.cs:584-591 | `UnloadPluginAssembly` recurses into every dependency that is still in `LoadedAssemblies`. The assembly being unloaded stays in that table until its own instances are unloaded, after the recursion. | A tracked assembly whose recorded dependencies contain itself. That arises when a plugin's constructor takes a registered object whose type is in the same assembly (lines 497-505; see `Injection.RegistrySelfDependency`). `SelfLoopNeverReturns` covers this self-dependency only; longer cycles are not stated. | The cascade skips assemblies already being unloaded and terminates. | not executed; medium: the self-dependency needs a registered object typed in the assembly being loaded | Tables.SelfLoopNeverReturns | Manager.PluginManager.UnloadPluginAssembly |
