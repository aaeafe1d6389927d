/** `LoadDependenciesRecursively`: the round-based closure walk that loads,
    through the `Resolving` hook, everything a freshly loaded assembly
    transitively references. */
module Walk {
  import opened Wrappers
  import opened Host
  import opened Candidates
  import opened Loader

  /** Nothing more can be loaded for reference `name` of the assembly at
      `referencingPath`: the hook would not resolve it (empty context, no
      candidate, handler gone), the runtime resolves it on its own, its file is
      already a key, or a fresh load of its file throws. */
  ghost predicate Settled(env: Env, st: State, referencingPath: string, name: AssemblyName)
  {
    var c := GetFirstExistingAssemblyPath(env, referencingPath, name);
    || referencingPath == ""
    || c.None? || c.value == ""
    || env.runtime.platform(name).Some?
    || !st.subscribed
    || c.value in st.assemblies
    || !Loadable(env, c.value)
  }

  /** Every reference declared by `info`'s assembly is settled. */
  ghost predicate RefsSettled(env: Env, st: State, info: LoadedAssemblyInfo)
  {
    var refs := env.runtime.referencesOf(info.assembly);
    forall j | 0 <= j < |refs| :: Settled(env, st, info.originalPath, refs[j])
  }

  /** The cache is dependency-closed: no record has a reference left that the
      walk could still load. */
  ghost predicate Closed(env: Env, st: State)
  {
    forall k | k in st.assemblies :: RefsSettled(env, st, st.assemblies[k])
  }

  /** The original paths of a list of records. */
  function Originals(infos: seq<LoadedAssemblyInfo>): (r: set<string>)
    ensures forall i | 0 <= i < |infos| :: infos[i].originalPath in r
    ensures forall p | p in r :: exists i :: 0 <= i < |infos| && infos[i].originalPath == p
  {
    set i | 0 <= i < |infos| :: infos[i].originalPath
  }

  /** `k` is the file the hook loads for one of the references declared by
      `info`'s assembly, with `info`'s original path as load context. */
  ghost predicate ChildOf(env: Env, info: LoadedAssemblyInfo, k: string)
  {
    var refs := env.runtime.referencesOf(info.assembly);
    exists j | 0 <= j < |refs| :: GetFirstExistingAssemblyPath(env, info.originalPath, refs[j]) == Some(k)
  }

  /** Every record of `added` is the file of a reference of some record of
      `parents`. */
  ghost predicate ChildrenOf(env: Env, parents: seq<LoadedAssemblyInfo>, added: seq<LoadedAssemblyInfo>)
  {
    forall m | 0 <= m < |added| :: HasParent(env, parents, added[m].originalPath)
  }

  /** `k` is the file of a reference of some record of `parents`. */
  ghost predicate HasParent(env: Env, parents: seq<LoadedAssemblyInfo>, k: string)
  {
    exists i | 0 <= i < |parents| :: ChildOf(env, parents[i], k)
  }

  /** `p` is a non-empty chain of keys of `s` in which every key is the file
      of a reference of the record before it. */
  ghost predicate Chain(env: Env, s: State, p: seq<string>)
  {
    && |p| > 0
    && (forall i | 0 <= i < |p| :: p[i] in s.assemblies)
    && (forall i | 0 <= i < |p| - 1 :: Link(env, s, p[i], p[i + 1]))
  }

  /** Key `k` is the file of a reference of key `q`'s record. */
  ghost predicate Link(env: Env, s: State, q: string, k: string)
  {
    q in s.assemblies && ChildOf(env, s.assemblies[q], k)
  }

  /** Key `k` of `s` is reached from key `root` by following declared
      references through records of `s`. */
  ghost predicate Reachable(env: Env, s: State, root: string, k: string)
  {
    exists p :: Chain(env, s, p) && p[0] == root && p[|p| - 1] == k
  }

  lemma ReachableRoot(env: Env, s: State, root: string)
    requires root in s.assemblies
    ensures Reachable(env, s, root, root)
  {
    assert Chain(env, s, [root]);
  }

  /** Reachability survives growth of the map: the records along a chain stay. */
  lemma ReachablePersists(env: Env, s: State, s': State, root: string, k: string)
    requires Reachable(env, s, root, k) && Grows(s, s')
    ensures Reachable(env, s', root, k)
  {
    var p :| Chain(env, s, p) && p[0] == root && p[|p| - 1] == k;
    forall i | 0 <= i < |p| - 1 ensures Link(env, s', p[i], p[i + 1]) {
      assert s'.assemblies[p[i]] == s.assemblies[p[i]];
    }
    assert Chain(env, s', p);
  }

  /** A loaded file of a reference of a reachable key is reachable. */
  lemma ReachableStep(env: Env, s: State, root: string, q: string, k: string)
    requires Reachable(env, s, root, q) && q in s.assemblies
    requires k in s.assemblies && ChildOf(env, s.assemblies[q], k)
    ensures Reachable(env, s, root, k)
  {
    var p :| Chain(env, s, p) && p[0] == root && p[|p| - 1] == q;
    var p' := p + [k];
    forall i | 0 <= i < |p'| - 1 ensures Link(env, s, p'[i], p'[i + 1]) {
      if i < |p| - 1 {
        assert p'[i] == p[i] && p'[i + 1] == p[i + 1];
      } else {
        assert p'[i] == q && p'[i + 1] == k;
      }
    }
    assert Chain(env, s, p');
    assert p'[0] == root && p'[|p'| - 1] == k;
  }

  /** Children of `parents` followed by children of `parents[i]` are children
      of `parents`. */
  lemma ChildrenConcat(env: Env, parents: seq<LoadedAssemblyInfo>, i: nat,
                       a: seq<LoadedAssemblyInfo>, b: seq<LoadedAssemblyInfo>)
    requires ChildrenOf(env, parents, a) && i < |parents|
    requires forall m | 0 <= m < |b| :: ChildOf(env, parents[i], b[m].originalPath)
    ensures ChildrenOf(env, parents, a + b)
  {
    forall m | 0 <= m < |a + b| ensures HasParent(env, parents, (a + b)[m].originalPath) {
      if m < |a| {
        assert (a + b)[m] == a[m];
      } else {
        assert (a + b)[m] == b[m - |a|];
        assert ChildOf(env, parents[i], (a + b)[m].originalPath);
      }
    }
  }

  lemma SettledPersists(env: Env, st: State, st': State, referencingPath: string, name: AssemblyName)
    requires Settled(env, st, referencingPath, name)
    requires st.assemblies.Keys <= st'.assemblies.Keys && st'.subscribed == st.subscribed
    ensures Settled(env, st', referencingPath, name)
  {
  }

  lemma RefsSettledPersists(env: Env, st: State, st': State, info: LoadedAssemblyInfo)
    requires RefsSettled(env, st, info)
    requires st.assemblies.Keys <= st'.assemblies.Keys && st'.subscribed == st.subscribed
    ensures RefsSettled(env, st', info)
  {
    var refs := env.runtime.referencesOf(info.assembly);
    forall j | 0 <= j < |refs| ensures Settled(env, st', info.originalPath, refs[j]) {
      SettledPersists(env, st, st', info.originalPath, refs[j]);
    }
  }

  /** Loading a reference by name with the referencing assembly's path as load
      context: the map either stays as it is or gains exactly the reference's
      first existing candidate, in which case the load returned an assembly;
      afterwards the reference is settled. */
  lemma LoadByName(env: Env, st: State, referencingPath: string, name: AssemblyName)
    ensures var r := LoadAssemblyReference(env, st, referencingPath, ByName(name));
            var c := GetFirstExistingAssemblyPath(env, referencingPath, name);
            && Grows(st, r.0)
            && (r.0.assemblies == st.assemblies
                || (c.Some? && c.value in env.runtime.files && InsertedOnly(st, r.0, c.value) && r.1.Ok?))
            && Settled(env, r.0, referencingPath, name)
  {
  }

  lemma OriginalsConcat(a: seq<LoadedAssemblyInfo>, b: seq<LoadedAssemblyInfo>)
    ensures Originals(a + b) == Originals(a) + Originals(b)
  {
    forall p | p in Originals(a + b) ensures p in Originals(a) + Originals(b) {
      var i :| 0 <= i < |a + b| && (a + b)[i].originalPath == p;
      if i >= |a| { assert b[i - |a|] == (a + b)[i]; }
    }
    forall p | p in Originals(a) + Originals(b) ensures p in Originals(a + b) {
      if p in Originals(a) {
        var i :| 0 <= i < |a| && a[i].originalPath == p;
        assert (a + b)[i] == a[i];
      } else {
        var i :| 0 <= i < |b| && b[i].originalPath == p;
        assert (a + b)[|a| + i] == b[i];
      }
    }
  }

  /** The records in `added` are exactly the keys `st'` has beyond `st`: each
      one an existing file that was not a key before, now discovered and
      stored unchanged in the map. */
  ghost predicate Additions(env: Env, st: State, st': State, added: seq<LoadedAssemblyInfo>)
  {
    && st'.assemblies.Keys == st.assemblies.Keys + Originals(added)
    && forall k | 0 <= k < |added| ::
      && added[k].originalPath !in st.assemblies
      && added[k].originalPath in env.runtime.files
      && added[k].originalPath in st'.assemblies
      && st'.assemblies[added[k].originalPath] == added[k]
      && added[k].originalPath in st'.discovered
  }

  lemma GrowsTransitive(st: State, mid: State, st': State)
    requires Grows(st, mid) && Grows(mid, st')
    ensures Grows(st, st')
  {
  }

  /** Two consecutive stretches of additions make one. */
  lemma AdditionsConcat(env: Env, st: State, mid: State, st': State,
                        a: seq<LoadedAssemblyInfo>, b: seq<LoadedAssemblyInfo>)
    requires Additions(env, st, mid, a) && Additions(env, mid, st', b)
    requires Grows(mid, st') && mid.discovered <= st'.discovered
    ensures Additions(env, st, st', a + b)
  {
    OriginalsConcat(a, b);
    forall k | 0 <= k < |a + b|
      ensures (a + b)[k].originalPath !in st.assemblies
      ensures (a + b)[k].originalPath in st'.assemblies
      ensures st'.assemblies[(a + b)[k].originalPath] == (a + b)[k]
    {
      if k < |a| {
        assert (a + b)[k] == a[k];
      } else {
        assert (a + b)[k] == b[k - |a|];
      }
    }
  }

  /** Loading reference `name` by name, with `referencingPath` as context, throws. */
  ghost predicate LoadThrows(env: Env, st: State, referencingPath: string, name: AssemblyName)
  {
    LoadAssemblyReference(env, st, referencingPath, ByName(name)).1.Err?
  }

  /** The body of the inner loop for one reference `aRef` of `info`. A failure
      while loading the reference is swallowed. The record enters the next
      round only when the map grew during the load and the candidate file
      exists; the candidate is marked discovered whenever the load returned an
      assembly and the file exists. */
  method ProcessReference(env: Env, st: State, info: LoadedAssemblyInfo, aRef: AssemblyName)
    returns (st': State, added: seq<LoadedAssemblyInfo>)
    ensures st'.currentPath == st.currentPath && st'.subscribed == st.subscribed
    ensures Grows(st, st')
    ensures Consistent(st) ==> Consistent(st')
    ensures Recorded(env, st) ==> Recorded(env, st')
    ensures Settled(env, st', info.originalPath, aRef)
    ensures |added| <= 1
    ensures added != [] <==> st'.assemblies.Keys != st.assemblies.Keys
    ensures Additions(env, st, st', added)
    ensures st.discovered <= st'.discovered
    ensures forall p | p in st'.discovered - st.discovered :: p in env.runtime.files
    ensures LoadThrows(env, st, info.originalPath, aRef) ==> added == [] && st'.discovered == st.discovered
    ensures forall m | 0 <= m < |added| ::
      GetFirstExistingAssemblyPath(env, info.originalPath, aRef) == Some(added[m].originalPath)
    ensures var c := GetFirstExistingAssemblyPath(env, info.originalPath, aRef);
      && (!LoadThrows(env, st, info.originalPath, aRef) && env.runtime.FileExists(c) ==>
            st'.discovered == st.discovered + {c.value})
      && (!env.runtime.FileExists(c) ==> st'.discovered == st.discovered)
  {
    var assemblies := st.assemblies;
    var oldCount := |assemblies|;
    var originalPath := info.originalPath;
    var assemblyPath := GetFirstExistingAssemblyPath(env, originalPath, aRef);
    var (st1, curAssembly) := LoadAssemblyReference(env, st, originalPath, ByName(aRef));
    LoadByName(env, st, originalPath, aRef);
    assert st1.discovered == st.discovered;
    assert curAssembly.Ok? <==> !LoadThrows(env, st, originalPath, aRef);
    st' := st1;
    added := [];
    if curAssembly.Ok? && env.runtime.FileExists(assemblyPath) {
      var newCount := |st1.assemblies|;
      if newCount > oldCount {
        added := [st1.assemblies[assemblyPath.value]];
      }
      st' := st1.(discovered := st1.discovered + {assemblyPath.value});
    }
    if added == [] {
      NoAddition(env, st, st');
    } else {
      OneAddition(env, st, st', added[0]);
    }
  }

  lemma NoAddition(env: Env, st: State, st': State)
    requires st'.assemblies.Keys == st.assemblies.Keys
    ensures Additions(env, st, st', [])
  {
    assert Originals([]) == {};
  }

  lemma OneAddition(env: Env, st: State, st': State, info: LoadedAssemblyInfo)
    requires info.originalPath in env.runtime.files && info.originalPath in st'.discovered
    requires InsertedOnly(st, st', info.originalPath) && st'.assemblies[info.originalPath] == info
    ensures Additions(env, st, st', [info])
  {
    assert [info][0] == info;
    assert Originals([info]) == {info.originalPath};
  }

  /** The middle loop's invariant after the first `i` references of `info`,
      for a loop that started in `st` and is now in `s` having collected
      `added`. */
  ghost predicate AssemblyProgress(env: Env, st: State, s: State, info: LoadedAssemblyInfo,
                                   i: nat, added: seq<LoadedAssemblyInfo>)
  {
    var refs := env.runtime.referencesOf(info.assembly);
    && i <= |refs|
    && s.currentPath == st.currentPath && s.subscribed == st.subscribed
    && Grows(st, s)
    && (Consistent(st) ==> Consistent(s))
    && (Recorded(env, st) ==> Recorded(env, s))
    && (forall j | 0 <= j < i :: Settled(env, s, info.originalPath, refs[j]))
    && info.originalPath in s.discovered && st.discovered <= s.discovered
    && (forall p | p in s.discovered - st.discovered :: p in env.runtime.files || p == info.originalPath)
    && Additions(env, st, s, added)
    && (forall m | 0 <= m < |added| :: ChildOf(env, info, added[m].originalPath))
  }

  /** Processing reference `i` advances the middle loop's invariant. */
  lemma AssemblyStep(env: Env, st: State, s: State, next: State, info: LoadedAssemblyInfo,
                     i: nat, added: seq<LoadedAssemblyInfo>, step: seq<LoadedAssemblyInfo>)
    requires AssemblyProgress(env, st, s, info, i, added)
    requires i < |env.runtime.referencesOf(info.assembly)|
    requires next.currentPath == s.currentPath && next.subscribed == s.subscribed
    requires Grows(s, next)
    requires Consistent(s) ==> Consistent(next)
    requires Recorded(env, s) ==> Recorded(env, next)
    requires Settled(env, next, info.originalPath, env.runtime.referencesOf(info.assembly)[i])
    requires Additions(env, s, next, step)
    requires s.discovered <= next.discovered
    requires forall p | p in next.discovered - s.discovered :: p in env.runtime.files
    requires forall m | 0 <= m < |step| ::
      GetFirstExistingAssemblyPath(env, info.originalPath, env.runtime.referencesOf(info.assembly)[i])
        == Some(step[m].originalPath)
    ensures AssemblyProgress(env, st, next, info, i + 1, added + step)
  {
    var refs := env.runtime.referencesOf(info.assembly);
    forall m | 0 <= m < |added + step| ensures ChildOf(env, info, (added + step)[m].originalPath) {
      if m < |added| {
        assert (added + step)[m] == added[m];
      } else {
        assert (added + step)[m] == step[m - |added|];
        assert GetFirstExistingAssemblyPath(env, info.originalPath, refs[i]) == Some(step[m - |added|].originalPath);
      }
    }
    forall j | 0 <= j < i ensures Settled(env, next, info.originalPath, refs[j]) {
      SettledPersists(env, s, next, info.originalPath, refs[j]);
    }
    AdditionsConcat(env, st, s, next, added, step);
    GrowsTransitive(st, s, next);
  }

  /** The middle loop's body for one record: mark it discovered, then process
      each of its references in declaration order. Returns the records newly
      loaded on the way, in order. */
  method ProcessAssembly(env: Env, st: State, info: LoadedAssemblyInfo)
    returns (st': State, added: seq<LoadedAssemblyInfo>)
    ensures st'.currentPath == st.currentPath && st'.subscribed == st.subscribed
    ensures Grows(st, st')
    ensures Consistent(st) ==> Consistent(st')
    ensures Recorded(env, st) ==> Recorded(env, st')
    ensures RefsSettled(env, st', info)
    ensures info.originalPath in st'.discovered && st.discovered <= st'.discovered
    ensures forall p | p in st'.discovered - st.discovered :: p in env.runtime.files || p == info.originalPath
    ensures Additions(env, st, st', added)
    ensures forall m | 0 <= m < |added| :: ChildOf(env, info, added[m].originalPath)
  {
    st' := st.(discovered := st.discovered + {info.originalPath});
    added := [];
    assert Originals([]) == {};
    var refs := env.runtime.referencesOf(info.assembly);
    for i := 0 to |refs|
      invariant AssemblyProgress(env, st, st', info, i, added)
    {
      var next, step := ProcessReference(env, st', info, refs[i]);
      AssemblyStep(env, st, st', next, info, i, added, step);
      added := added + step;
      st' := next;
    }
  }

  /** The outer loop's invariant after the first `i` records of the worklist,
      for a round that started in `st` and is now in `s` having collected
      `added`. */
  ghost predicate RoundProgress(env: Env, st: State, s: State, toProcess: seq<LoadedAssemblyInfo>,
                                i: nat, added: seq<LoadedAssemblyInfo>)
  {
    && i <= |toProcess|
    && s.currentPath == st.currentPath && s.subscribed == st.subscribed
    && Grows(st, s)
    && (Consistent(st) ==> Consistent(s))
    && (Recorded(env, st) ==> Recorded(env, s))
    && (forall j | 0 <= j < i :: RefsSettled(env, s, toProcess[j]) && toProcess[j].originalPath in s.discovered)
    && st.discovered <= s.discovered
    && (forall p | p in s.discovered - st.discovered :: p in env.runtime.files || p in Originals(toProcess))
    && Additions(env, st, s, added)
    && ChildrenOf(env, toProcess, added)
  }

  /** Processing record `i` of the worklist advances the outer loop's invariant. */
  lemma RoundStep(env: Env, st: State, s: State, next: State, toProcess: seq<LoadedAssemblyInfo>,
                  i: nat, added: seq<LoadedAssemblyInfo>, step: seq<LoadedAssemblyInfo>)
    requires RoundProgress(env, st, s, toProcess, i, added) && i < |toProcess|
    requires next.currentPath == s.currentPath && next.subscribed == s.subscribed
    requires Grows(s, next)
    requires Consistent(s) ==> Consistent(next)
    requires Recorded(env, s) ==> Recorded(env, next)
    requires RefsSettled(env, next, toProcess[i])
    requires toProcess[i].originalPath in next.discovered && s.discovered <= next.discovered
    requires forall p | p in next.discovered - s.discovered :: p in env.runtime.files || p == toProcess[i].originalPath
    requires Additions(env, s, next, step)
    requires forall m | 0 <= m < |step| :: ChildOf(env, toProcess[i], step[m].originalPath)
    ensures RoundProgress(env, st, next, toProcess, i + 1, added + step)
  {
    forall j | 0 <= j < i ensures RefsSettled(env, next, toProcess[j]) {
      RefsSettledPersists(env, s, next, toProcess[j]);
    }
    assert toProcess[i].originalPath in Originals(toProcess);
    AdditionsConcat(env, st, s, next, added, step);
    ChildrenConcat(env, toProcess, i, added, step);
    GrowsTransitive(st, s, next);
  }

  /** One round: process every record of the worklist in order and collect the
      records newly loaded during the round, which form the next worklist. */
  method ProcessRound(env: Env, st: State, toProcess: seq<LoadedAssemblyInfo>)
    returns (st': State, addedThisRound: seq<LoadedAssemblyInfo>)
    ensures st'.currentPath == st.currentPath && st'.subscribed == st.subscribed
    ensures Grows(st, st')
    ensures Consistent(st) ==> Consistent(st')
    ensures Recorded(env, st) ==> Recorded(env, st')
    ensures forall i | 0 <= i < |toProcess| ::
      RefsSettled(env, st', toProcess[i]) && toProcess[i].originalPath in st'.discovered
    ensures st.discovered <= st'.discovered
    ensures forall p | p in st'.discovered - st.discovered :: p in env.runtime.files || p in Originals(toProcess)
    ensures Additions(env, st, st', addedThisRound)
    ensures ChildrenOf(env, toProcess, addedThisRound)
  {
    st' := st;
    addedThisRound := [];
    assert Originals([]) == {};
    for i := 0 to |toProcess|
      invariant RoundProgress(env, st, st', toProcess, i, addedThisRound)
    {
      var next, added := ProcessAssembly(env, st', toProcess[i]);
      RoundStep(env, st, st', next, toProcess, i, addedThisRound, added);
      addedThisRound := addedThisRound + added;
      st' := next;
    }
  }

  /** The walk's loop invariant, for a walk that started in `st` from the
      record at `root` and is now in `s` with `toProcess` as the worklist:
      the worklist's records sit in the map; every key the walk is answerable
      for (the root and every key it added) is either still waiting in the
      worklist or has all references settled and is discovered; the walk only
      added existing files; the discovered set only grew, by keys or files. */
  ghost predicate WalkInvariant(env: Env, st: State, s: State, root: string, toProcess: seq<LoadedAssemblyInfo>)
  {
    && (forall i | 0 <= i < |toProcess| ::
          && toProcess[i].originalPath in s.assemblies
          && s.assemblies[toProcess[i].originalPath] == toProcess[i])
    && (forall k | k in s.assemblies && (k !in st.assemblies || k == root) ::
          || k in Originals(toProcess)
          || (RefsSettled(env, s, s.assemblies[k]) && k in s.discovered))
    && st.discovered <= s.discovered
    && (forall k | k in s.assemblies && k !in st.assemblies :: k in env.runtime.files)
    && (forall p | p in s.discovered - st.discovered :: p in env.runtime.files || p in s.assemblies)
  }

  /** The walk's provenance invariant: every worklist record and every key the
      walk added is reachable from the root through declared references. */
  ghost predicate WalkReaches(env: Env, st: State, s: State, root: string, toProcess: seq<LoadedAssemblyInfo>)
  {
    && (forall i | 0 <= i < |toProcess| :: Reachable(env, s, root, toProcess[i].originalPath))
    && (forall k | k in s.assemblies && k !in st.assemblies :: Reachable(env, s, root, k))
  }

  /** A round only loads files of references of worklist records, so the keys
      it adds are reachable from the root. */
  lemma RoundKeepsReach(env: Env, st: State, s: State, next: State, root: string,
                        toProcess: seq<LoadedAssemblyInfo>, added: seq<LoadedAssemblyInfo>)
    requires WalkInvariant(env, st, s, root, toProcess) && WalkReaches(env, st, s, root, toProcess)
    requires Grows(st, s) && Grows(s, next)
    requires Additions(env, s, next, added) && ChildrenOf(env, toProcess, added)
    ensures WalkReaches(env, st, next, root, added)
  {
    forall k | k in next.assemblies && k !in st.assemblies ensures Reachable(env, next, root, k) {
      if k in s.assemblies {
        ReachablePersists(env, s, next, root, k);
      } else {
        var m :| 0 <= m < |added| && added[m].originalPath == k;
        assert HasParent(env, toProcess, k);
        var i :| 0 <= i < |toProcess| && ChildOf(env, toProcess[i], k);
        var q := toProcess[i].originalPath;
        ReachablePersists(env, s, next, root, q);
        assert next.assemblies[q] == toProcess[i];
        ReachableStep(env, next, root, q, k);
      }
    }
    forall m | 0 <= m < |added| ensures Reachable(env, next, root, added[m].originalPath) {
      assert added[m].originalPath !in st.assemblies;
    }
  }

  /** A round moves every worklist record to the settled side and puts the
      records it loaded into the next worklist. */
  lemma RoundKeepsInvariant(env: Env, st: State, s: State, next: State, root: string,
                            toProcess: seq<LoadedAssemblyInfo>, added: seq<LoadedAssemblyInfo>)
    requires WalkInvariant(env, st, s, root, toProcess)
    requires Grows(st, s) && Grows(s, next) && next.subscribed == s.subscribed
    requires forall i | 0 <= i < |toProcess| ::
      RefsSettled(env, next, toProcess[i]) && toProcess[i].originalPath in next.discovered
    requires s.discovered <= next.discovered
    requires forall p | p in next.discovered - s.discovered :: p in env.runtime.files || p in Originals(toProcess)
    requires Additions(env, s, next, added)
    ensures WalkInvariant(env, st, next, root, added)
  {
    forall k | k in next.assemblies && (k !in st.assemblies || k == root)
      ensures || k in Originals(added)
              || (RefsSettled(env, next, next.assemblies[k]) && k in next.discovered)
    {
      if k !in Originals(added) {
        assert k in s.assemblies;
        if k in Originals(toProcess) {
          var i :| 0 <= i < |toProcess| && toProcess[i].originalPath == k;
          assert next.assemblies[k] == toProcess[i];
        } else {
          RefsSettledPersists(env, s, next, s.assemblies[k]);
        }
      }
    }
    forall p | p in next.discovered - st.discovered ensures p in env.runtime.files || p in next.assemblies {
      if p in Originals(toProcess) {
        var i :| 0 <= i < |toProcess| && toProcess[i].originalPath == p;
      }
    }
  }

  /** The invariant holds with the root alone in the worklist. */
  lemma WalkStarts(env: Env, st: State, loadedAssembly: LoadedAssemblyInfo)
    requires loadedAssembly.originalPath in st.assemblies
    requires st.assemblies[loadedAssembly.originalPath] == loadedAssembly
    ensures WalkInvariant(env, st, st, loadedAssembly.originalPath, [loadedAssembly])
    ensures WalkReaches(env, st, st, loadedAssembly.originalPath, [loadedAssembly])
  {
    assert [loadedAssembly][0] == loadedAssembly;
    ReachableRoot(env, st, loadedAssembly.originalPath);
    assert loadedAssembly.originalPath in Originals([loadedAssembly]);
  }

  /** With the worklist empty, the invariant says every key the walk answers
      for is settled and discovered. */
  lemma WalkEnds(env: Env, st: State, s: State, root: string)
    requires WalkInvariant(env, st, s, root, []) && WalkReaches(env, st, s, root, [])
    requires root in s.assemblies
    ensures root in s.discovered
    ensures forall k | k in s.assemblies && k !in st.assemblies :: k in env.runtime.files && k in s.discovered
    ensures forall k | k in s.assemblies && (k !in st.assemblies || k == root) ::
      RefsSettled(env, s, s.assemblies[k])
    ensures forall k | k in s.assemblies && k !in st.assemblies :: Reachable(env, s, root, k)
  {
    assert Originals([]) == {};
  }

  lemma SmallerSet<T>(a: set<T>, b: set<T>, x: T)
    requires a <= b && x in b && x !in a
    ensures |a| < |b|
    decreases a
  {
    if a == {} {
      assert x in b;
    } else {
      var y :| y in a;
      SmallerSet(a - {y}, b - {y}, x);
      assert |a - {y}| == |a| - 1;
      assert |b - {y}| == |b| - 1;
    }
  }

  /** A round that loaded something lowers the number of existing files that
      are not keys. */
  lemma RoundShrinks(env: Env, s: State, next: State, added: seq<LoadedAssemblyInfo>)
    requires Additions(env, s, next, added)
    ensures added == [] ==> next.assemblies.Keys == s.assemblies.Keys
    ensures added != [] ==> |env.runtime.files - next.assemblies.Keys| < |env.runtime.files - s.assemblies.Keys|
  {
    if added == [] {
      assert Originals(added) == {};
      return;
    }
    var p := added[0].originalPath;
    assert p in env.runtime.files && p !in s.assemblies && p in next.assemblies;
    SmallerSet(env.runtime.files - next.assemblies.Keys, env.runtime.files - s.assemblies.Keys, p);
  }

  /** `LoadDependenciesRecursively`. The source's do-while over rounds is the
      loop below: the first worklist is the one-element list of the root, and
      each later worklist is the previous round's additions, so "a round added
      nothing" and "the worklist is empty" coincide. Every round that goes on
      loaded a file that was not a key, so the number of existing files not yet
      loaded bounds the number of rounds. */
  method LoadDependenciesRecursively(env: Env, st: State, loadedAssembly: LoadedAssemblyInfo)
    returns (st': State)
    requires loadedAssembly.originalPath in st.assemblies
    requires st.assemblies[loadedAssembly.originalPath] == loadedAssembly
    ensures st'.currentPath == st.currentPath && st'.subscribed == st.subscribed
    ensures Grows(st, st')
    ensures Consistent(st) ==> Consistent(st')
    ensures Recorded(env, st) ==> Recorded(env, st')
    ensures loadedAssembly.originalPath in st'.discovered && st.discovered <= st'.discovered
    ensures forall k | k in st'.assemblies && k !in st.assemblies ::
      k in env.runtime.files && k in st'.discovered
    ensures forall p | p in st'.discovered - st.discovered :: p in env.runtime.files || p in st'.assemblies
    ensures forall k | k in st'.assemblies && (k !in st.assemblies || k == loadedAssembly.originalPath) ::
      RefsSettled(env, st', st'.assemblies[k])
    ensures forall k | k in st'.assemblies && k !in st.assemblies ::
      Reachable(env, st', loadedAssembly.originalPath, k)
  {
    var root := loadedAssembly.originalPath;
    st' := st;
    var assembliesToProcess := [loadedAssembly];
    WalkStarts(env, st, loadedAssembly);
    while assembliesToProcess != []
      invariant st'.currentPath == st.currentPath && st'.subscribed == st.subscribed
      invariant Grows(st, st')
      invariant Consistent(st) ==> Consistent(st')
      invariant Recorded(env, st) ==> Recorded(env, st')
      invariant WalkInvariant(env, st, st', root, assembliesToProcess)
      invariant WalkReaches(env, st, st', root, assembliesToProcess)
      decreases |env.runtime.files - st'.assemblies.Keys|, |assembliesToProcess|
    {
      var next, addedThisRound := ProcessRound(env, st', assembliesToProcess);
      RoundKeepsInvariant(env, st, st', next, root, assembliesToProcess, addedThisRound);
      RoundKeepsReach(env, st, st', next, root, assembliesToProcess, addedThisRound);
      RoundShrinks(env, st', next, addedThisRound);
      GrowsTransitive(st, st', next);
      st' := next;
      assembliesToProcess := addedThisRound;
    }
    WalkEnds(env, st, st', root);
  }
}
