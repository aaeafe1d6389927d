/** The state of an `ExplicitAssemblyLoader` and the mutually re-entrant core of
    its loading: the get-or-add cache (`LoadLibraryAssembly`), the scoped load
    context (`LoadAssemblyReference`), the runtime's load call, and the
    `Resolving` hook the runtime calls back into. */
module Loader {
  import opened Wrappers
  import opened Host
  import opened Candidates

  /** `LoadedAssemblyInfo`: created once per original path, never changed. */
  datatype LoadedAssemblyInfo = LoadedAssemblyInfo(originalPath: string, loadedPath: string, assembly: Assembly)

  /** What the path processor callback did: threw, or returned a path that may be null. */
  datatype Processed = Threw | Returned(path: Option<string>)

  /** The loader's read-only fields: the runtime, the optional path processor and
      the candidate path getter (already defaulted by the constructor). */
  datatype Env = Env(
    runtime: Runtime,
    processor: Option<string -> Processed>,
    candidateGetter: (string, AssemblyName) -> seq<string>
  )

  /** One run of the get-or-add factory, that is a call of the path processor
      if there is one, then one runtime path load unless the processor threw,
      and whether the run produced a record. The loader keeps no such log; it
      is an observer that counts the runs. */
  datatype Attempt = Attempt(originalPath: string, succeeded: bool)

  /** The loader's mutable fields.
      - `assemblies`: `_assembliesByOriginalPath`
      - `discovered`: `_allDiscoveredDependencies`
      - `currentPath`: `_currentAssemblyPath`, `None` for null
      - `subscribed`: whether the `Resolving` handler is registered */
  datatype State = State(
    assemblies: map<string, LoadedAssemblyInfo>,
    discovered: set<string>,
    currentPath: Option<string>,
    subscribed: bool,
    attempts: seq<Attempt>
  )

  /** The constructor: the getter defaults to `DefaultCandidatePaths`, the
      maps start empty and the hook is registered right away. */
  function Construct(
    runtime: Runtime,
    processor: Option<string -> Processed>,
    candidateGetter: Option<(string, AssemblyName) -> seq<string>>
  ): (r: (Env, State))
    ensures r.0.runtime == runtime && r.0.processor == processor
    ensures candidateGetter.Some? ==> r.0.candidateGetter == candidateGetter.value
    ensures candidateGetter.None? ==>
      forall p, n :: r.0.candidateGetter(p, n) == DefaultCandidatePaths(runtime, p, n)
    ensures r.1.assemblies == map[] && r.1.discovered == {} && r.1.attempts == []
    ensures r.1.currentPath.None? && r.1.subscribed
  {
    var getter := if candidateGetter.Some? then candidateGetter.value
                  else (p, n) => DefaultCandidatePaths(runtime, p, n);
    (Env(runtime, processor, getter), State(map[], {}, None, true, []))
  }

  /** `GetFirstExistingAssemblyPath`. */
  function GetFirstExistingAssemblyPath(env: Env, referencingPath: string, name: AssemblyName): (r: Option<string>)
  {
    FirstExisting(env.candidateGetter(referencingPath, name), env.runtime.files)
  }

  /** The path the factory loads from: the processor's answer, falling back to
      the original path when there is no processor or it answers null or "". */
  function ProcessPath(env: Env, originalPath: string): (r: Result<string, LoadFailure>)
    ensures env.processor.None? ==> r == Ok(originalPath)
    ensures env.processor.Some? ==>
      match env.processor.value(originalPath)
      case Threw => r.Err?
      case Returned(p) =>
        r.Ok? && (r.value == originalPath || (p == Some(r.value) && r.value != ""))
        && (p.Some? && p.value != "" ==> r.value == p.value)
  {
    match env.processor
    case None => Ok(originalPath)
    case Some(f) =>
      match f(originalPath)
      case Threw => Err(ProcessorThrew(originalPath))
      case Returned(processed) =>
        if processed.None? || processed.value == "" then Ok(originalPath) else Ok(processed.value)
  }

  /** A fresh load of `path` would succeed: the processor does not throw and
      the runtime accepts the processed path. */
  ghost predicate Loadable(env: Env, path: string)
  {
    var processed := ProcessPath(env, path);
    processed.Ok? && env.runtime.loadFromPath(processed.value).Some?
  }

  /** The map only grows: every old key stays, bound to the same record. */
  ghost predicate Grows(st: State, st': State)
  {
    && st.assemblies.Keys <= st'.assemblies.Keys
    && forall k | k in st.assemblies :: st'.assemblies[k] == st.assemblies[k]
  }

  /** `st'` is `st` with exactly one new key `p` added to the map. */
  ghost predicate InsertedOnly(st: State, st': State, p: string)
  {
    && p !in st.assemblies
    && p in st'.assemblies
    && st'.assemblies == st.assemblies[p := st'.assemblies[p]]
    && st'.assemblies[p].originalPath == p
  }

  ghost predicate SucceededFor(attempts: seq<Attempt>, path: string)
  {
    exists i :: 0 <= i < |attempts| && attempts[i].succeeded && attempts[i].originalPath == path
  }

  /** The cache discipline: every record sits under its own original path; a
      path is a key exactly when a factory run for it succeeded; and after a
      successful run no other run for the same path ever happens. */
  ghost predicate Consistent(st: State)
  {
    CacheDiscipline(st.assemblies, st.attempts)
  }

  ghost predicate CacheDiscipline(assemblies: map<string, LoadedAssemblyInfo>, attempts: seq<Attempt>)
  {
    && (forall k | k in assemblies :: assemblies[k].originalPath == k)
    && (forall k | k in assemblies :: SucceededFor(attempts, k))
    && (forall i | 0 <= i < |attempts| && attempts[i].succeeded :: attempts[i].originalPath in assemblies)
    && (forall i, j | 0 <= i < j < |attempts| && attempts[i].succeeded ::
          attempts[j].originalPath != attempts[i].originalPath)
  }

  /** The indices of the successful factory runs for `path`. */
  function SuccessfulRuns(attempts: seq<Attempt>, path: string): (r: set<nat>)
  {
    set i: nat | i < |attempts| && attempts[i].succeeded && attempts[i].originalPath == path
  }

  /** At most once: under the cache discipline a path is a key exactly when
      one, and only one, factory run for it succeeded. */
  lemma {:induction false} LoadedOnce(st: State, path: string)
    requires Consistent(st)
    ensures path in st.assemblies <==> |SuccessfulRuns(st.attempts, path)| == 1
    ensures path !in st.assemblies <==> SuccessfulRuns(st.attempts, path) == {}
  {
    var runs := SuccessfulRuns(st.attempts, path);
    if path in st.assemblies {
      var i :| 0 <= i < |st.attempts| && st.attempts[i].succeeded && st.attempts[i].originalPath == path;
      assert i in runs;
      forall j | j in runs ensures j == i {
        assert st.attempts[j].succeeded && st.attempts[j].originalPath == st.attempts[i].originalPath;
      }
      assert runs == {i};
    } else {
      forall j | 0 <= j < |st.attempts| && st.attempts[j].succeeded
        ensures st.attempts[j].originalPath != path
      {
        assert st.attempts[j].originalPath in st.assemblies;
      }
      assert runs == {};
    }
  }

  /** Every record holds what loading it produced: its loaded path is the
      processed original path and its assembly is what the runtime returned
      for that path. */
  ghost predicate Recorded(env: Env, st: State)
  {
    RecordsLoaded(env, st.assemblies)
  }

  ghost predicate RecordsLoaded(env: Env, assemblies: map<string, LoadedAssemblyInfo>)
  {
    forall k | k in assemblies ::
      && ProcessPath(env, assemblies[k].originalPath) == Ok(assemblies[k].loadedPath)
      && env.runtime.loadFromPath(assemblies[k].loadedPath) == Some(assemblies[k].assembly)
  }

  /** Rank of a reference kind, for the termination of the re-entrant calls:
      a name load can call back into a path load, never the other way round. */
  function RefRank(ref: AssemblyRef): (r: nat)
  {
    if ref.ByName? then 2 else 0
  }

  /** What a name load that reaches the `Resolving` hook does, with `context`
      as the load context: without a context or an existing candidate it
      throws and changes nothing; a candidate that is already a key gives that
      record's assembly; a new candidate is loaded through the cache, inserted
      exactly when it is loadable, and its assembly returned. */
  ghost predicate HookOutcome(env: Env, st: State, st': State, context: Option<string>,
                              name: AssemblyName, r: Result<Assembly, LoadFailure>)
  {
    var c := if context.Some? && context.value != ""
             then GetFirstExistingAssemblyPath(env, context.value, name) else None;
    && (c.None? || c.value == "" ==>
          st'.assemblies == st.assemblies && st'.attempts == st.attempts && r.Err?)
    && (c.Some? && c.value != "" && c.value in st.assemblies ==>
          && st'.assemblies == st.assemblies && st'.attempts == st.attempts
          && r == Ok(st.assemblies[c.value].assembly))
    && (c.Some? && c.value != "" && c.value !in st.assemblies ==>
          && (r.Ok? <==> Loadable(env, c.value))
          && (r.Ok? ==> InsertedOnly(st, st', c.value) && r.value == st'.assemblies[c.value].assembly)
          && (r.Err? ==> st'.assemblies == st.assemblies))
  }

  /** `Resolving` handler (`_assemblyLoader_Resolving`): only resolves while a
      load context is set, and then loads the first existing candidate beside
      the context's assembly through the cache. An exception from that load
      leaves the handler. */
  function Resolving(env: Env, st: State, name: AssemblyName): (r: (State, Result<Option<Assembly>, LoadFailure>))
    decreases 1, 3
    ensures r.0.currentPath == st.currentPath && r.0.subscribed == st.subscribed
    ensures r.0.discovered == st.discovered
    ensures Consistent(st) ==> Consistent(r.0)
    ensures Recorded(env, st) ==> Recorded(env, r.0)
    ensures st.currentPath.None? || st.currentPath.value == "" ==> r == (st, Ok(None))
    ensures st.currentPath.Some? && st.currentPath.value != "" ==>
      var c := GetFirstExistingAssemblyPath(env, st.currentPath.value, name);
      && (c.None? || c.value == "" ==> r == (st, Ok(None)))
      && (c.Some? && c.value != "" && c.value in st.assemblies ==>
            r == (st, Ok(Some(st.assemblies[c.value].assembly))))
      && (c.Some? && c.value != "" && c.value !in st.assemblies ==>
            && (r.1.Ok? <==> Loadable(env, c.value))
            && (r.1.Ok? ==> InsertedOnly(st, r.0, c.value)
                            && r.1.value == Some(r.0.assemblies[c.value].assembly))
            && (r.1.Err? ==> r.0.assemblies == st.assemblies))
  {
    if st.currentPath.None? || st.currentPath.value == "" then (st, Ok(None))
    else
      var assemblyPath := GetFirstExistingAssemblyPath(env, st.currentPath.value, name);
      if assemblyPath.None? || assemblyPath.value == "" then (st, Ok(None))
      else
        var (st1, loaded) := LoadLibraryAssembly(env, st, assemblyPath.value);
        match loaded
        case Err(e) => (st1, Err(e))
        case Ok((info, _)) => (st1, Ok(Some(info.assembly)))
  }

  /** The runtime's own load call. A path load never re-enters the loader. A
      name load first tries what the runtime resolves on its own; failing that
      it raises `Resolving` if the handler is still registered, and throws
      when nothing resolved the name. */
  function HostLoad(env: Env, st: State, ref: AssemblyRef): (r: (State, Result<Assembly, LoadFailure>))
    decreases RefRank(ref), 0
    ensures r.0.currentPath == st.currentPath && r.0.subscribed == st.subscribed
    ensures r.0.discovered == st.discovered
    ensures Consistent(st) ==> Consistent(r.0)
    ensures Recorded(env, st) ==> Recorded(env, r.0)
    ensures ref.ByPath? ==>
      r.0 == st && (r.1.Ok? <==> env.runtime.loadFromPath(ref.path).Some?)
      && (r.1.Ok? ==> env.runtime.loadFromPath(ref.path) == Some(r.1.value))
    ensures ref.ByName? && env.runtime.platform(ref.name).Some? ==>
      r == (st, Ok(env.runtime.platform(ref.name).value))
    ensures ref.ByName? && env.runtime.platform(ref.name).None? && !st.subscribed ==>
      r.0 == st && r.1.Err?
    ensures ref.ByName? && env.runtime.platform(ref.name).None? && st.subscribed ==>
      HookOutcome(env, st, r.0, st.currentPath, ref.name, r.1)
  {
    match ref
    case ByPath(path) =>
      var loaded := env.runtime.loadFromPath(path);
      (st, if loaded.Some? then Ok(loaded.value) else Err(BadImage(path)))
    case ByName(name) =>
      match env.runtime.platform(name)
      case Some(a) => (st, Ok(a))
      case None =>
        if !st.subscribed then (st, Err(Unresolved(name)))
        else
          var (st1, resolved) := Resolving(env, st, name);
          match resolved
          case Err(e) => (st1, Err(e))
          case Ok(None) => (st1, Err(Unresolved(name)))
          case Ok(Some(a)) => (st1, Ok(a))
  }

  /** `LoadAssemblyReference`: sets the load context to the referencing
      assembly's original path for the duration of the runtime call, and puts
      the previous value back afterwards, on success and on exception alike. */
  function LoadAssemblyReference(env: Env, st: State, referencingPath: string, ref: AssemblyRef)
    : (r: (State, Result<Assembly, LoadFailure>))
    decreases RefRank(ref), 1
    ensures r.0.currentPath == st.currentPath
    ensures r.0.subscribed == st.subscribed && r.0.discovered == st.discovered
    ensures Consistent(st) ==> Consistent(r.0)
    ensures Recorded(env, st) ==> Recorded(env, r.0)
    ensures ref.ByPath? ==>
      r.0 == st && (r.1.Ok? <==> env.runtime.loadFromPath(ref.path).Some?)
      && (r.1.Ok? ==> env.runtime.loadFromPath(ref.path) == Some(r.1.value))
    ensures ref.ByName? && env.runtime.platform(ref.name).Some? ==>
      r == (st, Ok(env.runtime.platform(ref.name).value))
    ensures ref.ByName? && env.runtime.platform(ref.name).None? && !st.subscribed ==>
      r.0 == st && r.1.Err?
    ensures ref.ByName? && env.runtime.platform(ref.name).None? && st.subscribed ==>
      HookOutcome(env, st, r.0, Some(referencingPath), ref.name, r.1)
  {
    var oldVal := st.currentPath;
    var (st1, loaded) := HostLoad(env, st.(currentPath := Some(referencingPath)), ref);
    (st1.(currentPath := oldVal), loaded)
  }

  /** The factory handed to get-or-add: process the path, then load the
      processed path with the original path as load context. */
  function CreateInfo(env: Env, st: State, originalPath: string): (r: (State, Result<LoadedAssemblyInfo, LoadFailure>))
    decreases 1, 0
    ensures r.0 == st
    ensures r.1.Ok? <==> Loadable(env, originalPath)
    ensures r.1.Ok? ==>
      && r.1.value.originalPath == originalPath
      && r.1.value.loadedPath == ProcessPath(env, originalPath).value
      && env.runtime.loadFromPath(r.1.value.loadedPath) == Some(r.1.value.assembly)
  {
    match ProcessPath(env, originalPath)
    case Err(e) => (st, Err(e))
    case Ok(processed) =>
      var (st1, loaded) := LoadAssemblyReference(env, st, originalPath, ByPath(processed));
      match loaded
      case Err(e) => (st1, Err(e))
      case Ok(a) => (st1, Ok(LoadedAssemblyInfo(originalPath, processed, a)))
  }

  /** `LoadLibraryAssembly`: get-or-add keyed by the original path, reporting
      whether the map grew (`actuallyLoaded`). The processor and the runtime path
      load run only when the path is not yet a key; a repeat call returns the
      existing record and changes nothing. */
  function LoadLibraryAssembly(env: Env, st: State, originalPath: string)
    : (r: (State, Result<(LoadedAssemblyInfo, bool), LoadFailure>))
    decreases 1, 2
    ensures r.0.currentPath == st.currentPath && r.0.subscribed == st.subscribed
    ensures r.0.discovered == st.discovered
    ensures Consistent(st) ==> Consistent(r.0)
    ensures Recorded(env, st) ==> Recorded(env, r.0)
    ensures originalPath in st.assemblies ==> r == (st, Ok((st.assemblies[originalPath], false)))
    ensures originalPath !in st.assemblies ==>
      && (r.1.Ok? <==> Loadable(env, originalPath))
      && r.0.attempts == st.attempts + [Attempt(originalPath, r.1.Ok?)]
    ensures r.1.Err? ==> r.0.assemblies == st.assemblies
    ensures r.1.Ok? ==>
      && (r.1.value.1 <==> originalPath !in st.assemblies)
      && (r.1.value.1 <==> |r.0.assemblies| > |st.assemblies|)
    ensures r.1.Ok? && r.1.value.1 ==>
      && InsertedOnly(st, r.0, originalPath)
      && r.0.assemblies[originalPath] == r.1.value.0
      && r.1.value.0.loadedPath == ProcessPath(env, originalPath).value
      && env.runtime.loadFromPath(r.1.value.0.loadedPath) == Some(r.1.value.0.assembly)
  {
    var assemblies := st.assemblies;
    var oldCount := |assemblies|;
    var (st1, got) := GetOrAdd(env, st, originalPath);
    match got
    case Err(e) => (st1, Err(e))
    case Ok(info) =>
      var actuallyLoaded := |st1.assemblies| > oldCount;
      (st1, Ok((info, actuallyLoaded)))
  }

  /** `GetOrAdd_NotThreadSafe` with the factory of `LoadLibraryAssembly`: the
      existing record when the key is present; otherwise one factory run, whose
      record is inserted when it succeeds and whose exception leaves the map
      as it was. */
  function GetOrAdd(env: Env, st: State, originalPath: string): (r: (State, Result<LoadedAssemblyInfo, LoadFailure>))
    decreases 1, 1
    ensures r.0.currentPath == st.currentPath && r.0.subscribed == st.subscribed
    ensures r.0.discovered == st.discovered
    ensures Consistent(st) ==> Consistent(r.0)
    ensures Recorded(env, st) ==> Recorded(env, r.0)
    ensures originalPath in st.assemblies ==> r == (st, Ok(st.assemblies[originalPath]))
    ensures originalPath !in st.assemblies ==>
      && (r.1.Ok? <==> Loadable(env, originalPath))
      && r.0.attempts == st.attempts + [Attempt(originalPath, r.1.Ok?)]
      && (r.1.Err? ==> r.0.assemblies == st.assemblies)
      && (r.1.Ok? ==> r.0.assemblies == st.assemblies[originalPath := r.1.value])
    ensures r.1.Ok? && originalPath !in st.assemblies ==>
      && r.1.value.originalPath == originalPath
      && r.1.value.loadedPath == ProcessPath(env, originalPath).value
      && env.runtime.loadFromPath(r.1.value.loadedPath) == Some(r.1.value.assembly)
  {
    if originalPath in st.assemblies then (st, Ok(st.assemblies[originalPath]))
    else
      var (s, created) := CreateInfo(env, st, originalPath);
      match created
      case Err(e) =>
        RecordAttempt(s, originalPath, false, LoadedAssemblyInfo(originalPath, originalPath, Assembly(originalPath)));
        (s.(attempts := s.attempts + [Attempt(originalPath, false)]), Err(e))
      case Ok(info) =>
        RecordAttempt(s, originalPath, true, info);
        (s.(assemblies := s.assemblies[originalPath := info],
            attempts := s.attempts + [Attempt(originalPath, true)]), Ok(info))
  }

  /** Shadow copy: when the processor answers a non-empty path for a path
      that is not yet a key, the runtime is asked to load the answered path,
      and the record, still keyed by the original path, remembers it. */
  lemma ProcessorRedirects(env: Env, st: State, originalPath: string, shadowPath: string)
    requires originalPath !in st.assemblies
    requires env.processor.Some? && env.processor.value(originalPath) == Returned(Some(shadowPath))
    requires shadowPath != ""
    ensures var r := LoadLibraryAssembly(env, st, originalPath);
            && (r.1.Ok? <==> env.runtime.loadFromPath(shadowPath).Some?)
            && (r.1.Ok? ==>
                  && originalPath in r.0.assemblies
                  && r.0.assemblies[originalPath].originalPath == originalPath
                  && r.0.assemblies[originalPath].loadedPath == shadowPath
                  && env.runtime.loadFromPath(shadowPath) == Some(r.0.assemblies[originalPath].assembly))
  {
  }

  /** Without a processor, or when it answers null or "", the record's loaded
      path is the original path. */
  lemma ProcessorFallsBack(env: Env, st: State, originalPath: string)
    requires originalPath !in st.assemblies
    requires env.processor.None?
             || env.processor.value(originalPath) == Returned(None)
             || env.processor.value(originalPath) == Returned(Some(""))
    ensures var r := LoadLibraryAssembly(env, st, originalPath);
            && (r.1.Ok? <==> env.runtime.loadFromPath(originalPath).Some?)
            && (r.1.Ok? ==> r.0.assemblies[originalPath].loadedPath == originalPath)
  {
  }

  /** One factory run for a path that is not yet a key keeps the cache
      discipline, whether the run failed or inserted its record. */
  lemma RecordAttempt(st: State, p: string, ok: bool, info: LoadedAssemblyInfo)
    requires p !in st.assemblies && info.originalPath == p
    ensures Consistent(st) ==>
      var st' := st.(assemblies := if ok then st.assemblies[p := info] else st.assemblies,
                     attempts := st.attempts + [Attempt(p, ok)]);
      Consistent(st')
  {
    if Consistent(st) {
      var attempts' := st.attempts + [Attempt(p, ok)];
      var assemblies' := if ok then st.assemblies[p := info] else st.assemblies;
      forall k | k in assemblies' ensures SucceededFor(attempts', k) {
        if k == p {
          assert attempts'[|st.attempts|] == Attempt(p, true);
        } else {
          var i :| 0 <= i < |st.attempts| && st.attempts[i].succeeded && st.attempts[i].originalPath == k;
          assert attempts'[i] == st.attempts[i];
        }
      }
    }
  }
}
