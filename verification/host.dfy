/** The parts of the .NET runtime and the file system that `ExplicitAssemblyLoader`
    talks to, reduced to uninterpreted oracles. Nothing in this module is
    implemented by the loader itself. */
module Host {
  import opened Wrappers

  /** An assembly reference as declared by a loaded assembly (`AssemblyName`):
      a simple name plus version metadata the loader never inspects. */
  datatype AssemblyName = AssemblyName(name: string, version: string)

  /** The opaque handle the runtime hands out for a loaded assembly. */
  datatype Assembly = Assembly(identity: string)

  /** The `EitherOr<String, AssemblyName>` argument of `LoadAssemblyReference`:
      load from a file path, or load by assembly name. */
  datatype AssemblyRef = ByPath(path: string) | ByName(name: AssemblyName)

  /** Why a load threw. */
  datatype LoadFailure =
    | BadImage(path: string)          // LoadFromAssemblyPath threw
    | Unresolved(name: AssemblyName)  // LoadFromAssemblyName found nothing
    | ProcessorThrew(path: string)    // the path processor callback threw

  /** The runtime and file system as oracles.
      - `files`: the files that exist (`File.Exists`); finite, like any file system
      - `fullPath`, `directoryName`, `combine`: `Path.GetFullPath`, `Path.GetDirectoryName`, `Path.Combine`
      - `loadFromPath`: `AssemblyLoadContext.LoadFromAssemblyPath`, `None` when it throws
      - `platform`: what `LoadFromAssemblyName` finds on its own, before it raises `Resolving`
      - `referencesOf`: `Assembly.GetReferencedAssemblies`, in declaration order */
  /** `File.Exists(p)` on a file system whose files are `files`: the empty
      path never names a file. */
  predicate IsFile(files: set<string>, p: string)
  {
    p != "" && p in files
  }

  datatype Runtime = Runtime(
    files: set<string>,
    fullPath: string -> string,
    directoryName: string -> string,
    combine: (string, string) -> string,
    loadFromPath: string -> Option<Assembly>,
    platform: AssemblyName -> Option<Assembly>,
    referencesOf: Assembly -> seq<AssemblyName>
  )
  {
    /** `File.Exists`, which answers false for a null path. */
    predicate FileExists(path: Option<string>)
    {
      path.Some? && IsFile(files, path.value)
    }
  }
}
