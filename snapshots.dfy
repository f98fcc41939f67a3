/**
 * What the two enumerators produce, how `main` merges the per-project Azure
 * DevOps results, and how `compare_and_log_differences` lays both out as
 * the snapshot that is written to disk.
 */
module Snapshots {
  import opened Wrappers
  import opened OrderedMaps

  /** One element of a repository's branch list: the single-entry dict `{branch_name: commit_count}`. */
  type BranchRecord = (string, nat)

  /** An enumerator's result: repository name -> branch records in fetch order. */
  type RepoBranches = OrderedMap<string, seq<BranchRecord>>

  /** `{"repository": repo, "branches": branches}`. */
  datatype RepoRecord = RepoRecord(repository: string, branches: seq<BranchRecord>)

  /** `{"github": [...], "azure": [...]}`, as written to the JSON file. */
  datatype Snapshot = Snapshot(github: seq<RepoRecord>, azure: seq<RepoRecord>)

  /** One record per entry of `m`, in the map's order. */
  function Records(m: RepoBranches): seq<RepoRecord> {
    seq(|m|, i requires 0 <= i < |m| => RepoRecord(m[i].0, m[i].1))
  }

  /** The loop `for repo, branches in m.items(): records.append(...)`. */
  method RecordList(m: RepoBranches) returns (records: seq<RepoRecord>)
    ensures |records| == |m|
    ensures forall i :: 0 <= i < |m| ==> records[i].repository == m[i].0 && records[i].branches == m[i].1
    ensures records == Records(m)
  {
    records := [];
    for i := 0 to |m|
      invariant records == Records(m[..i])
    {
      assert Records(m[..i + 1]) == Records(m[..i]) + [RepoRecord(m[i].0, m[i].1)];
      records := records + [RepoRecord(m[i].0, m[i].1)];
    }
    assert m[..|m|] == m;
  }

  /** `compare_and_log_differences` without the file write. */
  method AssembleSnapshot(github: RepoBranches, azure: RepoBranches) returns (s: Snapshot)
    ensures s.github == Records(github) && s.azure == Records(azure)
    ensures |s.github| == |github| && |s.azure| == |azure|
    ensures forall i :: 0 <= i < |github| ==> s.github[i] == RepoRecord(github[i].0, github[i].1)
    ensures forall i :: 0 <= i < |azure| ==> s.azure[i] == RepoRecord(azure[i].0, azure[i].1)
  {
    var githubRecords := RecordList(github);
    var azureRecords := RecordList(azure);
    s := Snapshot(githubRecords, azureRecords);
  }

  /** The value a repository ends up with when the projects are merged in order: the last project that has it wins. */
  function LastProjectValue(projects: seq<RepoBranches>, repo: string): Option<seq<BranchRecord>>
    decreases |projects|
  {
    if projects == [] then None
    else
      var last := projects[|projects| - 1];
      if repo in Keys(last) then Get(last, repo)
      else LastProjectValue(projects[..|projects| - 1], repo)
  }

  /** The repository names of all projects, project after project. */
  function AllKeys(projects: seq<RepoBranches>): seq<string>
    decreases |projects|
  {
    if projects == [] then []
    else AllKeys(projects[..|projects| - 1]) + Keys(projects[|projects| - 1])
  }

  /**
   * `main`'s loop `azure_repos_and_branches.update(project_repos_and_branches)`
   * over the projects. A repository name met in a later project replaces the
   * earlier value but keeps the earlier position.
   */
  method MergeProjects(projects: seq<RepoBranches>) returns (merged: RepoBranches)
    ensures Valid(merged)
    ensures forall repo :: Get(merged, repo) == LastProjectValue(projects, repo)
    ensures Keys(merged) == Dedup(AllKeys(projects))
  {
    merged := [];
    DedupOfDistinct(AllKeys([]));
    for i := 0 to |projects|
      invariant Valid(merged)
      invariant forall repo :: Get(merged, repo) == LastProjectValue(projects[..i], repo)
      invariant Keys(merged) == Dedup(AllKeys(projects[..i]))
    {
      var p := projects[i];
      var before := merged;
      merged := PutAll(merged, p);
      assert projects[..i + 1][..i] == projects[..i];
      assert projects[..i + 1][i] == p;
      forall repo
        ensures Get(merged, repo) == LastProjectValue(projects[..i + 1], repo)
      {
        PutAllGet(before, p, repo);
      }
      PutAllKeys(before, p);
      DedupAppend(AllKeys(projects[..i]), Keys(p));
    }
    assert projects[..|projects|] == projects;
  }
}
