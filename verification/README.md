# ExplicitAssemblyLoader — a Dafny model

This project models `ExplicitAssemblyLoader` from UtilPack. The class loads an
assembly from a file path and then eagerly loads everything that assembly
transitively references. It memoises every load by the assembly's original
path, so each path is loaded at most once.

The model is purely functional. A `State` value stands for the loader's mutable
fields:

- the map from original path to `LoadedAssemblyInfo`;
- the set of discovered dependencies;
- the current load context, which is `None` for null;
- whether the `Resolving` handler is registered.

Each operation takes a state and returns the next one. An `Env` value stands for
the read-only fields: the runtime and file system (`Host.Runtime`), the optional
path processor, and the candidate path getter. The runtime and file system are
oracles:

- `File.Exists` is membership in a finite set of files.
- `Path.GetFullPath`, `Path.GetDirectoryName` and `Path.Combine` are arbitrary functions.
- `LoadFromAssemblyPath` is a partial function from paths to assemblies.
- `LoadFromAssemblyName` first asks what the runtime resolves on its own. If
  that gives nothing and the handler is still registered, it raises `Resolving`.
- `GetReferencedAssemblies` returns a sequence of names.

An exception is a `Result.Err`.

The model is built around the one re-entrant path in the class. The walk loads a
reference by name. The runtime calls back into the `Resolving` hook. The hook
loads the file through the cache, and that load is a load by path. In the model,
`LoadAssemblyReference`, `HostLoad`, `Resolving`, `LoadLibraryAssembly`,
`GetOrAdd` and `CreateInfo` are mutually recursive functions. They terminate
because a name load may call a path load, but never the other way round.

The walk's result is stated as a fixed point. A reference of a loaded assembly
is *settled* (`Walk.Settled`) when nothing more can be loaded for it:

- the hook would not resolve it (empty context, no existing candidate, or the handler is gone);
- the runtime resolves it on its own;
- its file is already a key; or
- a fresh load of that file throws.

The walk ends with every reference of every record it is responsible for settled.
It also loads nothing else: every key it adds is *reachable* from the root
(`Walk.Reachable`). There is a chain of keys from the root to it, and each key
on the chain is the first existing candidate of a reference declared by the
key before it.
Together with the loader's other invariants, every state between two public calls
is dependency-closed (`Facade.Valid`). This holds for one `Env` used by every
call over the loader's lifetime; see "## Left out".

`State.attempts` logs the runs of the get-or-add factory. Each run calls the
path processor if there is one, then makes one runtime path load unless the
processor threw, and the log records whether the run produced a record. The class keeps no such log. It plays the part of a call
counter and lets the at-most-once promise be stated as a
property of states.

Files:

- `wrappers.dfy`: `Option` and `Result`.
- `host.dfy`: the runtime oracles and the assembly name, assembly and failure types.
- `candidates.dfy`: `DefaultGetAssemblyCandidatePaths` and the first-existing search.
- `loader.dfy`: the state, the cache, the load context and the resolution hook.
- `walk.dfy`: `LoadDependenciesRecursively`.
- `facade.dfy`: `LoadAssemblyFrom`, `IsAssemblyLoaded`, `Dispose` and the class invariant.
- `scenario.dfy`: a worked configuration. root references B and C, B references
  D, and C references D and E, whose file is missing. F's file exists, but
  nothing references it.

Where the code and its documentation disagree, the model follows the code:

- `LoadAssemblyFrom` does not set the load context itself. Only
  `LoadAssemblyReference` sets it (Source/UtilPack/Loading.cs:242-257), and only
  for the duration of one runtime call. While the walk runs between those
  calls, the context keeps the caller's value.
- `_allDiscoveredDependencies` is written but never read. The model keeps it.
  `Walk.ProcessReference` states exactly what each reference adds to it, and
  `Walk.ProcessAssembly` states that every processed record's path is in it. No
  decision depends on it.
- The constructor's documentation (Source/UtilPack/Loading.cs:70) says the path
  processor is only invoked when the file exists. For the root passed to
  `LoadAssemblyFrom`, no existence check is made. The model calls the processor
  for the root whether or not its file exists, as the code does.
- `IsAssemblyLoaded` does not canonicalise its argument, while `LoadAssemblyFrom`
  does. A relative location can therefore be loaded and still not count as
  loaded. `LoadAssemblyFrom`'s contract states membership of the canonical path.
- The walk's new records are detected by growth of the map. The walk's own
  `File.Exists` check is made on the candidate computed before the load, so
  "exists" means the candidate getter's output before any path processing.

## Model

| member | source | states |
|---|---|---|
| Candidates.DefaultCandidatePaths | Source/UtilPack/Loading.cs:259-268 | The default getter yields exactly one candidate: the referencing file's directory joined with the simple name, ending in ".dll". |
| Candidates.FirstExisting | Source/UtilPack/Loading.cs:270-276 | The search answers none exactly when no candidate exists. Otherwise it answers an existing candidate that comes before every other existing candidate. `Loader.GetFirstExistingAssemblyPath` applies this search to the candidate getter's output and the runtime's files. |
| Candidates.EmptyCandidateSkipped | Source/UtilPack/Loading.cs:270-276 | An empty candidate never counts as existing, even when the file set lists "". The search then answers the next candidate if that one exists. |
| Candidates.DefaultFirstExisting | Source/UtilPack/Loading.cs:259-276 | With the default getter, the search finds a path exactly when the one ".dll" candidate exists, and the path it finds is that candidate. |
| Loader.Construct | Source/UtilPack/Loading.cs:77-89 | The getter defaults to the ".dll" getter when none is given. The map and the discovered set start empty, there is no context, and the hook is registered. |
| Loader.ProcessPath | Source/UtilPack/Loading.cs:225-229 | With no processor, or when it answers null or "", the path to load is the original path. A non-empty answer is used as given, and a throw is an error. |
| Loader.Resolving | Source/UtilPack/Loading.cs:91-108 | With an empty context the hook answers null and changes nothing. It does the same when no candidate exists. A candidate that is already a key gives that record's assembly. A new candidate is loaded through the cache and inserted exactly when it is loadable. |
| Loader.HostLoad | Source/UtilPack/Loading.cs:251 | A path load changes no state. A name load returns what the runtime resolves on its own. Failing that, it throws when the handler is gone, or defers to the hook and throws when the hook answers null. |
| Loader.LoadAssemblyReference | Source/UtilPack/Loading.cs:242-257 | The context after the call equals the context before it, on success and on failure alike. During the call, the runtime sees the referencing assembly's original path as context. |
| Loader.CreateInfo | Source/UtilPack/Loading.cs:223-236 | The factory succeeds exactly when the processed path loads. Its record holds the original path, the processed path and the assembly the runtime returned for the processed path. |
| Loader.GetOrAdd | Source/UtilPack/Loading.cs:221-237 | A present key returns its record and changes nothing. An absent key runs the factory once and logs the run. The record is inserted on success, and the map is left unchanged on failure. |
| Loader.LoadLibraryAssembly | Source/UtilPack/Loading.cs:216-240 | Processor and path load run only for a path that is not yet a key, and success inserts exactly that key. `actuallyLoaded` is true exactly when the path was new, and exactly when the map grew. A repeat call returns the existing record with no state change. |
| Loader.LoadedOnce | Source/UtilPack/Loading.cs:216-240 | Under the cache discipline, a path is a key exactly when exactly one factory run for it succeeded. It is absent exactly when none did. |
| Loader.ProcessorRedirects | Source/UtilPack/Loading.cs:225-235 | When the processor answers a non-empty path, the runtime is asked to load that path. The record stays keyed by the original path and remembers the processed path. |
| Loader.ProcessorFallsBack | Source/UtilPack/Loading.cs:225-235 | With no processor, or a null or "" answer, the runtime loads the original path and the record's loaded path is the original path. |
| Walk.LoadByName | Source/UtilPack/Loading.cs:175-192 | A name load with the referencing path as context either leaves the map alone or adds exactly the reference's first existing candidate. When it adds the candidate, the load returned an assembly. Afterwards the reference is settled. |
| Walk.ProcessReference | Source/UtilPack/Loading.cs:173-206 | A failed reference load is swallowed. A record goes to the next round exactly when the map grew, and it is the record of the reference's first existing candidate. The reference ends settled. The candidate becomes discovered exactly when the name load returned an assembly and the candidate file exists, whether or not the map grew; otherwise the discovered set is unchanged. |
| Walk.ProcessAssembly | Source/UtilPack/Loading.cs:169-207 | The record's path becomes discovered. Every declared reference ends settled. The returned records are exactly the new keys. Each is an existing, discovered file and the first existing candidate of one of the record's declared references. |
| Walk.ProcessRound | Source/UtilPack/Loading.cs:165-211 | Every worklist record ends with all references settled and its path discovered. The next worklist is exactly the set of keys the round added, each the file of a reference of a worklist record. |
| Walk.RoundKeepsInvariant | Source/UtilPack/Loading.cs:165-212 | After a round, every key the walk answers for is either in the next worklist, or settled and discovered. |
| Walk.RoundKeepsReach | Source/UtilPack/Loading.cs:165-212 | After a round, every key the walk added, and every record of the next worklist, is reachable from the root through a chain of declared references. |
| Walk.ReachableStep | Source/UtilPack/Loading.cs:173-201 | A loaded file of a reference of a key reachable from the root is itself reachable from the root. |
| Walk.RoundShrinks | Source/UtilPack/Loading.cs:199-212 | A round that added nothing leaves the keys as they were, so the walk stops. A round that added a record lowers the number of existing files that are not keys. This bounds the number of rounds. |
| Walk.LoadDependenciesRecursively | Source/UtilPack/Loading.cs:154-214 | The walk terminates, and the map only grows. Every key the walk added is an existing file, is discovered, and is reachable from the root through a chain of declared references, each link the first existing candidate of a reference. The root and every added key have all their references settled. |
| Facade.ConstructValid | Source/UtilPack/Loading.cs:77-89 | A new loader satisfies the class invariant and has the hook registered. |
| Facade.IsAssemblyLoaded | Source/UtilPack/Loading.cs:137-140 | A location counts as loaded exactly when a factory run for that exact path succeeded. |
| Facade.Dispose | Source/UtilPack/Loading.cs:146-152 | Disposing unregisters the hook. The map, the discovered set and the context stay as they are. |
| Facade.DisposeKeepsValid | Source/UtilPack/Loading.cs:146-152 | Disposal keeps the class invariant. |
| Facade.DisposedLoaderResolvesNothing | Source/UtilPack/Loading.cs:146-152 | After disposal, a name the runtime cannot resolve on its own fails to load and changes nothing. |
| Facade.HookIdleBetweenLoads | Source/UtilPack/Loading.cs:96-107 | When the runtime raises `Resolving` between two public calls, the hook answers null and changes nothing. |
| Facade.LoadAssemblyFrom | Source/UtilPack/Loading.cs:117-130 | When the canonical path is already a key, the call returns its assembly and changes nothing. Otherwise it succeeds exactly when that path is loadable. On success the path is a key holding the returned assembly, loaded from the processed path. From a valid state, the cache ends dependency-closed. Every key the call added is reachable from that path through declared references. A failure leaves the map alone. The context is restored and the invariant is kept. |
| Facade.LoadTwice | Source/UtilPack/Loading.cs:117-130 | Loading the same location twice returns the same assembly, and the second call changes nothing: no processor run, no runtime load and no walk. |
| Scenario.RootClosure | Source/UtilPack/Loading.cs:154-214 | In the worked configuration, a valid state with the hook registered that holds the root, and whose keys are all reachable from the root, holds exactly root, B, C and D. The existing but unreferenced F is not among them. |
| Scenario.ChainInClosure | Source/UtilPack/Loading.cs:165-212 | In the worked configuration, a chain of declared references from the root through a valid state stays within root, B, C and D. |
| Scenario.RootScenario | Source/UtilPack/Loading.cs:117-130 | Loading the worked root into a fresh loader succeeds. The closure is exactly root, B, C and D. E, whose file is missing, is not loaded, and neither is F, whose file exists but which nothing references. |

## Left out

- The real `AssemblyLoadContext`: loading, the `Resolving` event's delegate list and its invocation. The subscription is a flag, and the runtime's own name resolution is an oracle.
- The runtime's own name resolution (`Host.Runtime.platform`) depends on the name alone. It does not see the assemblies this loader has already loaded into the context. In the real runtime, a name that matches an assembly already in the context resolves to it; that is why the walk loads by name (Source/UtilPack/Loading.cs:180). So the model may load two files with the same simple name, from two referencing directories, where the program would load only one.
- Re-entrant `Resolving` calls during a path load. `LoadFromAssemblyPath` is modelled as never raising the event; only name loads do.
- The runtime checking the assembly the hook returns against the requested name. The model takes the hook's answer as the result of the name load. It also assumes the runtime passes the hook the very name that was asked for.
- Exceptions from `Path.GetFullPath`, `Path.GetDirectoryName`, `Path.Combine`, from a custom candidate getter, or from `GetReferencedAssemblies`. These oracles are total functions here. A null directory name is not modelled.
- One `Env` serves the loader for its whole lifetime. The file system, the path processor's answers and the runtime's answers stay fixed, and the processor writes no file. A processor that copies the file and returns the copy's path (Source/UtilPack/Loading.cs:75) is covered only when it answers the same for the same path every time. So a load that failed once fails again; `Walk.Settled` and `Facade.Valid` rely on this. A file that appears between two public calls, or a processor that answers differently on a retry, is outside the model.
- The candidate getter returns a finite sequence rather than a lazy enumerable.
- The source of `GetOrAdd_NotThreadSafe` is not part of this model; `Loader.GetOrAdd` stands for it as a lookup, then one factory run on a missing key, then an insert on success.
- The idempotence of the public `Dispose()` is not claimed, because `AbstractDisposable` is not part of this model. Only `Dispose(disposing)` is modelled.
- Concurrency: the class is documented as not safe for concurrent use, and the model is sequential.
- NuGet deployment, async utilities, IL generation and the process runner. They are outside the loader.
