/**
 * `compare_repos`: reads the snapshot back, flattens each side into
 * repository -> (branch -> commit count), and reports one row per GitHub
 * branch followed by one row per branch of each repository that only Azure
 * DevOps has.
 */
module Reconcile {
  import opened Wrappers
  import opened OrderedMaps
  import opened Snapshots

  /** One repository's branches: branch name -> commit count. */
  type BranchCounts = OrderedMap<string, nat>

  /** What `create_repo_dict` builds: repository name -> branch counts. */
  type RepoDict = OrderedMap<string, BranchCounts>

  /** A report line: repository, branch, GitHub value, Azure value, Equal. */
  datatype Row = Row(repository: string, branch: string, github: Option<nat>, azure: Option<nat>, equal: bool)

  /** A dict of dicts, as Python has it: no repository twice, no branch twice within a repository. */
  predicate WellFormed(d: RepoDict) {
    Valid(d) && forall i :: 0 <= i < |d| ==> Valid(d[i].1)
  }

  /** A repository's branch list merged into one dict; a later record for the same branch wins. */
  function Flatten(branches: seq<BranchRecord>): BranchCounts {
    PutAll([], branches)
  }

  /** The assignments `repo_dict[repo_name] = {...}` in record order. */
  function RepoEntries(records: seq<RepoRecord>): seq<(string, BranchCounts)> {
    seq(|records|, i requires 0 <= i < |records| => (records[i].repository, Flatten(records[i].branches)))
  }

  function RepoDictOf(records: seq<RepoRecord>): RepoDict {
    PutAll([], RepoEntries(records))
  }

  /**
   * An enumerator's dict with each repository's branch list merged into one
   * dict. Two refs that end in the same piece (`refs/heads/a/fix` and
   * `refs/heads/b/fix`) both become `fix`, and the later one wins here.
   */
  function FlattenEach(m: RepoBranches): RepoDict {
    seq(|m|, i requires 0 <= i < |m| => (m[i].0, Flatten(m[i].1)))
  }

  /** Lines 227-228: `repo_dict[repo_name].update(branch)` for each branch record. */
  method BranchDict(branches: seq<BranchRecord>) returns (counts: BranchCounts)
    ensures counts == Flatten(branches)
  {
    counts := [];
    for j := 0 to |branches|
      invariant counts == PutAll([], branches[..j])
    {
      assert branches[..j + 1][..j] == branches[..j];
      counts := Put(counts, branches[j].0, branches[j].1);
    }
    assert branches[..|branches|] == branches;
  }

  lemma RepoEntriesStep(records: seq<RepoRecord>, i: nat)
    requires i < |records|
    ensures PutAll([], RepoEntries(records[..i + 1]))
         == Put(PutAll([], RepoEntries(records[..i])), records[i].repository, Flatten(records[i].branches))
  {
    var es := RepoEntries(records[..i]);
    var e := (records[i].repository, Flatten(records[i].branches));
    assert RepoEntries(records[..i + 1]) == es + [e];
    assert (es + [e])[..|es|] == es;
  }

  /** `create_repo_dict` (Github-Azure_Devops-Diff_Check.py lines 222-229). */
  method CreateRepoDict(records: seq<RepoRecord>) returns (repoDict: RepoDict)
    ensures repoDict == RepoDictOf(records)
  {
    repoDict := [];
    for i := 0 to |records|
      invariant repoDict == PutAll([], RepoEntries(records[..i]))
    {
      var branches := BranchDict(records[i].branches);
      RepoEntriesStep(records, i);
      repoDict := Put(repoDict, records[i].repository, branches);
    }
    assert records[..|records|] == records;
  }

  /** `azure_dict.get(repo, {}).get(branch, None)`. */
  function AzureValue(azure: RepoDict, repo: string, branch: string): Option<nat> {
    match Get(azure, repo)
    case None => None
    case Some(branches) => Get(branches, branch)
  }

  /** The row for a GitHub branch: `equal = github_value == azure_value`, never true against `None`. */
  function GitHubRow(azure: RepoDict, repo: string, branch: string, count: nat): Row {
    var azureValue := AzureValue(azure, repo, branch);
    Row(repo, branch, Some(count), azureValue, azureValue == Some(count))
  }

  /** The inner loop of lines 243-249 for one GitHub repository. */
  function GitHubBranchRows(azure: RepoDict, repo: string, branches: BranchCounts): seq<Row>
    decreases |branches|
  {
    if branches == [] then []
    else
      var last := branches[|branches| - 1];
      GitHubBranchRows(azure, repo, branches[..|branches| - 1]) + [GitHubRow(azure, repo, last.0, last.1)]
  }

  /** Lines 242-249: the GitHub-side rows, in the GitHub dict's order. */
  function GitHubRows(github: RepoDict, azure: RepoDict): seq<Row>
    decreases |github|
  {
    if github == [] then []
    else
      var last := github[|github| - 1];
      GitHubRows(github[..|github| - 1], azure) + GitHubBranchRows(azure, last.0, last.1)
  }

  /** The inner loop of lines 253-257 for one Azure-only repository. */
  function AzureBranchRows(repo: string, branches: BranchCounts): seq<Row>
    decreases |branches|
  {
    if branches == [] then []
    else
      var last := branches[|branches| - 1];
      AzureBranchRows(repo, branches[..|branches| - 1]) + [Row(repo, last.0, None, Some(last.1), false)]
  }

  /** Lines 251-257: rows for the repositories GitHub does not have, in the Azure dict's order. */
  function AzureOnlyRows(github: RepoDict, azure: RepoDict): seq<Row>
    decreases |azure|
  {
    if azure == [] then []
    else
      var last := azure[|azure| - 1];
      AzureOnlyRows(github, azure[..|azure| - 1])
        + (if last.0 in Keys(github) then [] else AzureBranchRows(last.0, last.1))
  }

  function Report(github: RepoDict, azure: RepoDict): seq<Row> {
    GitHubRows(github, azure) + AzureOnlyRows(github, azure)
  }

  /** One pass of the inner loop of lines 243-249. */
  method EmitGitHubBranchRows(azure: RepoDict, repo: string, branches: BranchCounts) returns (rows: seq<Row>)
    ensures rows == GitHubBranchRows(azure, repo, branches)
  {
    rows := [];
    for j := 0 to |branches|
      invariant rows == GitHubBranchRows(azure, repo, branches[..j])
    {
      assert branches[..j + 1][..j] == branches[..j];
      rows := rows + [GitHubRow(azure, repo, branches[j].0, branches[j].1)];
    }
    assert branches[..|branches|] == branches;
  }

  /** One pass of the inner loop of lines 253-257. */
  method EmitAzureBranchRows(repo: string, branches: BranchCounts) returns (rows: seq<Row>)
    ensures rows == AzureBranchRows(repo, branches)
  {
    rows := [];
    for j := 0 to |branches|
      invariant rows == AzureBranchRows(repo, branches[..j])
    {
      assert branches[..j + 1][..j] == branches[..j];
      rows := rows + [Row(repo, branches[j].0, None, Some(branches[j].1), false)];
    }
    assert branches[..|branches|] == branches;
  }

  /** Lines 242-249: the outer loop over the GitHub repositories. */
  method EmitGitHubRows(github: RepoDict, azure: RepoDict) returns (rows: seq<Row>)
    ensures rows == GitHubRows(github, azure)
  {
    rows := [];
    for i := 0 to |github|
      invariant rows == GitHubRows(github[..i], azure)
    {
      assert github[..i + 1][..i] == github[..i];
      var branchRows := EmitGitHubBranchRows(azure, github[i].0, github[i].1);
      rows := rows + branchRows;
    }
    assert github[..|github|] == github;
  }

  /** Lines 251-257: the outer loop over the Azure DevOps repositories, skipping those GitHub has. */
  method EmitAzureOnlyRows(github: RepoDict, azure: RepoDict) returns (rows: seq<Row>)
    ensures rows == AzureOnlyRows(github, azure)
  {
    rows := [];
    for i := 0 to |azure|
      invariant rows == AzureOnlyRows(github, azure[..i])
    {
      assert azure[..i + 1][..i] == azure[..i];
      if azure[i].0 !in Keys(github) {
        var branchRows := EmitAzureBranchRows(azure[i].0, azure[i].1);
        rows := rows + branchRows;
      }
    }
    assert azure[..|azure|] == azure;
  }

  /**
   * The two row-emitting loops of `compare_repos`. `report` is every row
   * printed; `logged` is the rows also written to the log, which are the
   * GitHub-side rows only.
   */
  method CompareRepos(github: RepoDict, azure: RepoDict) returns (report: seq<Row>, logged: seq<Row>)
    ensures report == Report(github, azure)
    ensures logged == GitHubRows(github, azure)
    ensures logged <= report
  {
    logged := EmitGitHubRows(github, azure);
    var azureOnly := EmitAzureOnlyRows(github, azure);
    report := logged + azureOnly;
  }
}
