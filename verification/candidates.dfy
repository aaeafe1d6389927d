/** Choosing the file a referenced assembly is loaded from: the default candidate
    getter and the first-existing-candidate search. */
module Candidates {
  import opened Wrappers
  import opened Host

  /** The native module suffix the default candidate getter appends. */
  const DllSuffix: string := ".dll"

  /** `DefaultGetAssemblyCandidatePaths`: the single candidate is the referencing
      file's directory joined with the referenced simple name, plus ".dll". */
  function DefaultCandidatePaths(rt: Runtime, referencingPath: string, name: AssemblyName): (r: seq<string>)
    ensures |r| == 1
    ensures |r[0]| >= |DllSuffix| && r[0][|r[0]| - |DllSuffix|..] == DllSuffix
    ensures r[0][..|r[0]| - |DllSuffix|] == rt.combine(rt.directoryName(referencingPath), name.name)
  {
    var basePath := rt.combine(rt.directoryName(referencingPath), name.name);
    [basePath + DllSuffix]
  }

  /** `FirstOrDefault(File.Exists)` over a candidate sequence: the earliest
      candidate that exists, or none when no candidate exists. */
  function FirstExisting(paths: seq<string>, files: set<string>): (r: Option<string>)
    ensures r.None? <==> forall i :: 0 <= i < |paths| ==> !IsFile(files, paths[i])
    ensures r.Some? ==> IsFile(files, r.value)
    ensures r.Some? ==> exists i :: 0 <= i < |paths| && paths[i] == r.value
                                   && forall j :: 0 <= j < i ==> !IsFile(files, paths[j])
  {
    if paths == [] then None
    else if IsFile(files, paths[0]) then Some(paths[0])
    else
      var rest := FirstExisting(paths[1..], files);
      assert forall i :: 1 <= i < |paths| ==> paths[i] == paths[1..][i - 1];
      if rest.Some? then
        var k :| 0 <= k < |paths[1..]| && paths[1..][k] == rest.value
                 && forall j :: 0 <= j < k ==> !IsFile(files, paths[1..][j]);
        assert paths[k + 1] == rest.value;
        assert forall j :: 0 <= j < k + 1 ==> !IsFile(files, paths[j]) by {
          forall j | 0 <= j < k + 1 ensures !IsFile(files, paths[j]) {
            if j > 0 { assert paths[j] == paths[1..][j - 1]; }
          }
        }
        rest
      else
        rest
  }

  /** An empty candidate is passed over even when `files` lists "", because
      `File.Exists("")` is false. */
  lemma EmptyCandidateSkipped(files: set<string>, p: string)
    ensures FirstExisting(["", p], files) == (if p != "" && p in files then Some(p) else None)
  {
    assert ["", p][1..] == [p];
  }

  /** With the default getter the search succeeds exactly when the one
      ".dll" candidate exists, and then yields that candidate. */
  lemma DefaultFirstExisting(rt: Runtime, referencingPath: string, name: AssemblyName)
    ensures var p := rt.combine(rt.directoryName(referencingPath), name.name) + DllSuffix;
            FirstExisting(DefaultCandidatePaths(rt, referencingPath, name), rt.files)
              == (if p in rt.files then Some(p) else None)
  {
  }
}
