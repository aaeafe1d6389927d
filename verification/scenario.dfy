/** A worked configuration: "root.dll" references pluginB and pluginC, pluginB
    references pluginD, pluginC references pluginD and pluginE, the file of
    pluginE is missing, and pluginF exists but nothing references it. Loading
    the root loads exactly root, B, C and D. */
module Scenario {
  import opened Wrappers
  import opened Host
  import opened Candidates
  import opened Loader
  import opened Walk
  import opened Facade

  const RootPath: string := "/app/root.dll"
  const PathB: string := "/app/pluginB.dll"
  const PathC: string := "/app/pluginC.dll"
  const PathD: string := "/app/pluginD.dll"
  const PathE: string := "/app/pluginE.dll"
  const PathF: string := "/app/pluginF.dll"

  function Ref(name: string): (r: AssemblyName)
  {
    AssemblyName(name, "1.0.0.0")
  }

  /** The declared references of each assembly of the configuration. */
  function ReferencesOf(a: Assembly): (r: seq<AssemblyName>)
  {
    if a.identity == RootPath then [Ref("pluginB"), Ref("pluginC")]
    else if a.identity == PathB then [Ref("pluginD")]
    else if a.identity == PathC then [Ref("pluginD"), Ref("pluginE")]
    else []
  }

  /** Every file lives in "/app"; the runtime loads any existing file and
      resolves no name on its own. */
  function AppRuntime(): (r: Runtime)
  {
    var files := {RootPath, PathB, PathC, PathD, PathF};
    Runtime(
      files,
      p => p,
      p => "/app",
      (dir, name) => dir + "/" + name,
      p => if p in files then Some(Assembly(p)) else None,
      n => None,
      ReferencesOf)
  }

  /** The loader built over the configuration, with no processor and the
      default candidate getter. */
  ghost predicate AppEnv(env: Env)
  {
    && env.runtime == AppRuntime()
    && env.processor.None?
    && forall p, n :: env.candidateGetter(p, n) == DefaultCandidatePaths(env.runtime, p, n)
  }

  /** In the configuration, with the hook registered, a loaded key whose
      references are all settled has pulled in the existing file of each of
      its references. */
  lemma ReferencePulledIn(env: Env, st: State, k: string, simpleName: string)
    requires AppEnv(env) && st.subscribed && k != ""
    requires k in st.assemblies && st.assemblies[k] == LoadedAssemblyInfo(k, k, Assembly(k))
    requires RefsSettled(env, st, st.assemblies[k])
    requires Ref(simpleName) in ReferencesOf(Assembly(k))
    requires "/app/" + simpleName + ".dll" in AppRuntime().files
    ensures "/app/" + simpleName + ".dll" in st.assemblies
  {
    var target := "/app/" + simpleName + ".dll";
    var j :| 0 <= j < |ReferencesOf(Assembly(k))| && ReferencesOf(Assembly(k))[j] == Ref(simpleName);
    assert Settled(env, st, k, Ref(simpleName));
    DefaultFirstExisting(env.runtime, k, Ref(simpleName));
    assert "/app" + "/" + simpleName + ".dll" == target;
    assert ProcessPath(env, target) == Ok(target);
  }

  /** The literal facts of the configuration the scenario relies on. */
  lemma ConfigurationFacts()
    ensures ReferencesOf(Assembly(RootPath)) == [Ref("pluginB"), Ref("pluginC")]
    ensures ReferencesOf(Assembly(PathB)) == [Ref("pluginD")]
    ensures PathB == "/app/" + "pluginB" + ".dll" && PathC == "/app/" + "pluginC" + ".dll"
    ensures PathD == "/app/" + "pluginD" + ".dll"
    ensures AppRuntime().files == {RootPath, PathB, PathC, PathD, PathF} && PathE !in AppRuntime().files
    ensures RootPath != "" && PathB != ""
    ensures PathE !in {RootPath, PathB, PathC, PathD} && PathF !in {RootPath, PathB, PathC, PathD}
  {
    assert PathB != RootPath;
  }

  /** Without a processor, a key of the configuration was loaded from its own
      path, and the runtime's assembly for it carries that path. */
  lemma RecordOfExistingFile(env: Env, st: State, k: string)
    requires AppEnv(env) && Valid(env, st) && k in st.assemblies
    ensures st.assemblies[k] == LoadedAssemblyInfo(k, k, Assembly(k))
    ensures RefsSettled(env, st, st.assemblies[k])
  {
    assert ProcessPath(env, k) == Ok(k);
  }

  /** The file of a reference of a record of root, B, C or D is B, C, D or
      the missing E. */
  lemma ChildInClosure(env: Env, q: string, k: string)
    requires AppEnv(env) && q in {RootPath, PathB, PathC, PathD}
    requires ChildOf(env, LoadedAssemblyInfo(q, q, Assembly(q)), k)
    ensures k in {PathB, PathC, PathD, PathE}
  {
    var refs := ReferencesOf(Assembly(q));
    var j :| 0 <= j < |refs| && GetFirstExistingAssemblyPath(env, q, refs[j]) == Some(k);
    var n := refs[j];
    DefaultFirstExisting(env.runtime, q, n);
    assert k == AppCandidate(n.name);
    assert n.name in {"pluginB", "pluginC", "pluginD", "pluginE"};
    AppCandidates();
  }

  /** The default candidate of a simple name for an assembly in "/app". */
  function AppCandidate(name: string): (r: string)
  {
    "/app" + "/" + name + ".dll"
  }

  lemma AppCandidates()
    ensures AppCandidate("pluginB") == PathB && AppCandidate("pluginC") == PathC
    ensures AppCandidate("pluginD") == PathD && AppCandidate("pluginE") == PathE
  {
  }

  /** Every key on a chain from the root in a valid state of the
      configuration is root, B, C or D. */
  lemma {:induction false} ChainInClosure(env: Env, st: State, p: seq<string>)
    requires AppEnv(env) && Valid(env, st) && Chain(env, st, p) && p[0] == RootPath
    ensures p[|p| - 1] in {RootPath, PathB, PathC, PathD}
    decreases |p|
  {
    if |p| > 1 {
      var p' := p[..|p| - 1];
      assert Chain(env, st, p') by {
        forall i | 0 <= i < |p'| - 1 ensures Link(env, st, p'[i], p'[i + 1]) {
          assert p'[i] == p[i] && p'[i + 1] == p[i + 1];
        }
      }
      ChainInClosure(env, st, p');
      var q := p[|p| - 2];
      assert Link(env, st, q, p[|p| - 1]);
      RecordOfExistingFile(env, st, q);
      ChildInClosure(env, q, p[|p| - 1]);
      ConfigurationFacts();
    }
  }

  /** A valid state of the configuration with the hook registered, in which
      the root is a key and every key is reachable from the root, holds
      exactly root, B, C and D. */
  lemma RootClosure(env: Env, st: State)
    requires AppEnv(env) && Valid(env, st) && st.subscribed && RootPath in st.assemblies
    requires forall k | k in st.assemblies :: Reachable(env, st, RootPath, k)
    ensures st.assemblies.Keys == {RootPath, PathB, PathC, PathD}
    ensures st.assemblies[RootPath].assembly == Assembly(RootPath)
  {
    RootPullsIn(env, st);
    forall k | k in st.assemblies ensures k in {RootPath, PathB, PathC, PathD} {
      var p :| Chain(env, st, p) && p[0] == RootPath && p[|p| - 1] == k;
      ChainInClosure(env, st, p);
    }
  }

  /** A valid state of the configuration with the hook registered that holds
      the root holds B, C and D as well. */
  lemma RootPullsIn(env: Env, st: State)
    requires AppEnv(env) && Valid(env, st) && st.subscribed && RootPath in st.assemblies
    ensures {RootPath, PathB, PathC, PathD} <= st.assemblies.Keys
    ensures st.assemblies[RootPath].assembly == Assembly(RootPath)
  {
    ConfigurationFacts();
    RecordOfExistingFile(env, st, RootPath);
    assert Ref("pluginB") == ReferencesOf(Assembly(RootPath))[0];
    assert Ref("pluginC") == ReferencesOf(Assembly(RootPath))[1];
    ReferencePulledIn(env, st, RootPath, "pluginB");
    ReferencePulledIn(env, st, RootPath, "pluginC");
    RecordOfExistingFile(env, st, PathB);
    assert Ref("pluginD") == ReferencesOf(Assembly(PathB))[0];
    ReferencePulledIn(env, st, PathB, "pluginD");
  }

  /** After loading the root into an empty loader, every key was added by
      that load, so the keys are exactly root, B, C and D; neither E nor F
      is among them. */
  lemma FreshLoadClosure(env: Env, st: State, st': State)
    requires AppEnv(env) && Valid(env, st') && st'.subscribed && RootPath in st'.assemblies
    requires st.assemblies == map[]
    requires forall k | k in st'.assemblies && k !in st.assemblies ::
      Reachable(env, st', env.runtime.fullPath(RootPath), k)
    ensures st'.assemblies.Keys == {RootPath, PathB, PathC, PathD}
    ensures st'.assemblies[RootPath].assembly == Assembly(RootPath)
    ensures PathE !in st'.assemblies && PathF !in st'.assemblies
  {
    assert env.runtime.fullPath(RootPath) == RootPath;
    RootClosure(env, st');
    OutsideClosure(st'.assemblies);
  }

  lemma OutsideClosure(m: map<string, LoadedAssemblyInfo>)
    requires m.Keys == {RootPath, PathB, PathC, PathD}
    ensures PathE !in m && PathF !in m
  {
    ConfigurationFacts();
  }

  /** Loading "/app/root.dll" into a fresh loader without a path processor:
      the load succeeds, the closure is exactly root, B, C and D, the missing
      pluginE is never a key, and neither is pluginF, whose file exists but
      which nothing references. */
  method RootScenario() returns (r: Result<Assembly, LoadFailure>, closure: set<string>,
                                 eLoaded: bool, fLoaded: bool)
    ensures r == Ok(Assembly(RootPath))
    ensures closure == {RootPath, PathB, PathC, PathD}
    ensures !eLoaded && !fLoaded
  {
    var (env, st) := Construct(AppRuntime(), None, None);
    ConstructValid(AppRuntime(), None, None);
    assert AppEnv(env);
    assert ProcessPath(env, RootPath) == Ok(RootPath);
    var st';
    st', r := LoadAssemblyFrom(env, st, RootPath);
    FreshLoadClosure(env, st, st');
    closure := st'.assemblies.Keys;
    ConfigurationFacts();
    eLoaded := IsAssemblyLoaded(st', PathE);
    fLoaded := IsAssemblyLoaded(st', PathF);
  }
}
