/** The public face of `ExplicitAssemblyLoader`: `LoadAssemblyFrom`,
    `IsAssemblyLoaded`, `Dispose`, and the invariant every state between two
    public calls satisfies. */
module Facade {
  import opened Wrappers
  import opened Host
  import opened Loader
  import opened Walk

  /** The invariant of a loader between public calls: the cache discipline
      holds, the cache is dependency-closed, no load context is set, and every
      discovered path is a key or an existing file. */
  ghost predicate Valid(env: Env, st: State)
  {
    && Consistent(st)
    && Recorded(env, st)
    && Closed(env, st)
    && st.currentPath.None?
    && forall p | p in st.discovered :: p in env.runtime.files || p in st.assemblies
  }

  /** A freshly constructed loader satisfies the invariant. */
  lemma ConstructValid(runtime: Runtime, processor: Option<string -> Processed>,
                       candidateGetter: Option<(string, AssemblyName) -> seq<string>>)
    ensures var (env, st) := Construct(runtime, processor, candidateGetter);
            Valid(env, st) && st.subscribed
  {
  }

  /** `IsAssemblyLoaded`: a membership test on the original paths, without
      canonicalising `location`. A path counts as loaded exactly when a load of
      that very path succeeded. */
  function IsAssemblyLoaded(st: State, location: string): (r: bool)
    ensures Consistent(st) ==> (r <==> SucceededFor(st.attempts, location))
  {
    location in st.assemblies
  }

  /** `Dispose(disposing)`: unregisters the `Resolving` handler when
      `disposing`; loaded assemblies stay loaded. */
  function Dispose(st: State, disposing: bool): (r: State)
    ensures r.subscribed == (st.subscribed && !disposing)
    ensures r.assemblies == st.assemblies && r.discovered == st.discovered
    ensures r.currentPath == st.currentPath && r.attempts == st.attempts
  {
    if disposing then st.(subscribed := false) else st
  }

  /** Disposing keeps the invariant: with the handler gone nothing is left
      for a walk to load. */
  lemma DisposeKeepsValid(env: Env, st: State, disposing: bool)
    requires Valid(env, st)
    ensures Valid(env, Dispose(st, disposing))
  {
    var st' := Dispose(st, disposing);
    forall k | k in st'.assemblies ensures RefsSettled(env, st', st'.assemblies[k]) {
      var refs := env.runtime.referencesOf(st'.assemblies[k].assembly);
      forall j | 0 <= j < |refs| ensures Settled(env, st', k, refs[j]) {
        assert st.assemblies[k].originalPath == k;
        assert Settled(env, st, k, refs[j]);
      }
    }
  }

  /** After disposal a load by name that the runtime cannot satisfy on its
      own throws and loads nothing: the hook no longer takes part. */
  lemma DisposedLoaderResolvesNothing(env: Env, st: State, referencingPath: string, name: AssemblyName)
    requires env.runtime.platform(name).None?
    ensures var r := LoadAssemblyReference(env, Dispose(st, true), referencingPath, ByName(name));
            r.1.Err? && r.0 == Dispose(st, true)
  {
  }

  /** The runtime raising `Resolving` between two public calls: with no load
      context set, the hook resolves nothing and changes nothing. */
  lemma HookIdleBetweenLoads(env: Env, st: State, name: AssemblyName)
    requires Valid(env, st)
    ensures Resolving(env, st, name) == (st, Ok(None))
  {
  }

  /** Keys other than `root` keep their settled references when the map grows. */
  lemma ClosedExceptRoot(env: Env, st: State, s1: State, root: string)
    requires Closed(env, st)
    requires Grows(st, s1) && s1.subscribed == st.subscribed
    requires s1.assemblies.Keys <= st.assemblies.Keys + {root}
    ensures forall k | k in s1.assemblies && k != root :: RefsSettled(env, s1, s1.assemblies[k])
  {
    forall k | k in s1.assemblies && k != root ensures RefsSettled(env, s1, s1.assemblies[k]) {
      RefsSettledPersists(env, st, s1, st.assemblies[k]);
    }
  }

  /** After the walk the whole cache is closed: the keys the walk answers for
      are settled by the walk, the others were settled before it. */
  lemma ClosedAfterWalk(env: Env, s1: State, st': State, root: string)
    requires forall k | k in s1.assemblies && k != root :: RefsSettled(env, s1, s1.assemblies[k])
    requires Grows(s1, st') && st'.subscribed == s1.subscribed
    requires forall k | k in st'.assemblies && (k !in s1.assemblies || k == root) ::
      RefsSettled(env, st', st'.assemblies[k])
    ensures Closed(env, st')
  {
    forall k | k in st'.assemblies ensures RefsSettled(env, st', st'.assemblies[k]) {
      if k in s1.assemblies && k != root {
        RefsSettledPersists(env, s1, st', s1.assemblies[k]);
      }
    }
  }

  /** The root's insertion followed by the walk from the root adds only keys
      reachable from the root. */
  lemma NewKeysReachable(env: Env, st: State, s1: State, st': State, root: string)
    requires InsertedOnly(st, s1, root) && Grows(s1, st')
    requires forall k | k in st'.assemblies && k !in s1.assemblies :: Reachable(env, st', root, k)
    ensures forall k | k in st'.assemblies && k !in st.assemblies :: Reachable(env, st', root, k)
  {
    ReachableRoot(env, st', root);
  }

  /** `LoadAssemblyFrom`: canonicalise the location, get-or-add it, and walk
      its dependencies only when it was actually loaded now. An exception from
      the root load propagates; the walk never throws. */
  method LoadAssemblyFrom(env: Env, st: State, location: string)
    returns (st': State, r: Result<Assembly, LoadFailure>)
    ensures st'.currentPath == st.currentPath && st'.subscribed == st.subscribed
    ensures Grows(st, st') && st.discovered <= st'.discovered
    ensures Valid(env, st) ==> Valid(env, st')
    ensures var p := env.runtime.fullPath(location);
      && (p in st.assemblies ==> st' == st && r == Ok(st.assemblies[p].assembly))
      && (p !in st.assemblies ==> (r.Ok? <==> Loadable(env, p)))
      && (r.Ok? ==> IsAssemblyLoaded(st', p) && r.value == st'.assemblies[p].assembly)
      && (r.Err? ==> st'.assemblies == st.assemblies && st'.discovered == st.discovered)
      && (r.Ok? && p !in st.assemblies ==>
            && st'.assemblies[p].loadedPath == ProcessPath(env, p).value
            && env.runtime.loadFromPath(st'.assemblies[p].loadedPath) == Some(r.value)
            && p in st'.discovered
            && RefsSettled(env, st', st'.assemblies[p]))
    ensures forall k | k in st'.assemblies && k !in st.assemblies ::
      || k == env.runtime.fullPath(location)
      || (k in env.runtime.files && k in st'.discovered && RefsSettled(env, st', st'.assemblies[k]))
    ensures forall k | k in st'.assemblies && k !in st.assemblies ::
      Reachable(env, st', env.runtime.fullPath(location), k)
  {
    var assemblyPath := env.runtime.fullPath(location);
    var (s1, loaded) := LoadLibraryAssembly(env, st, assemblyPath);
    if loaded.Err? {
      st' := s1;
      r := Err(loaded.error);
      if Valid(env, st) {
        ClosedExceptRoot(env, st, s1, assemblyPath);
      }
      return;
    }
    var (assembly, actuallyLoaded) := loaded.value;
    st' := s1;
    if actuallyLoaded {
      if Valid(env, st) {
        ClosedExceptRoot(env, st, s1, assemblyPath);
      }
      st' := LoadDependenciesRecursively(env, s1, assembly);
      GrowsTransitive(st, s1, st');
      NewKeysReachable(env, st, s1, st', assemblyPath);
      if Valid(env, st) {
        ClosedAfterWalk(env, s1, st', assemblyPath);
      }
    }
    r := Ok(assembly.assembly);
  }

  /** Loading the same location twice: the second call returns the same
      assembly and changes nothing, so neither the processor nor the runtime
      path load nor the walk runs again. */
  method LoadTwice(env: Env, st: State, location: string)
    returns (first: Result<Assembly, LoadFailure>, second: Result<Assembly, LoadFailure>,
             afterFirst: State, afterSecond: State)
    ensures first.Ok? ==> second == first && afterSecond == afterFirst
    ensures first.Err? ==> afterFirst.assemblies == st.assemblies
  {
    afterFirst, first := LoadAssemblyFrom(env, st, location);
    afterSecond, second := LoadAssemblyFrom(env, afterFirst, location);
  }
}
