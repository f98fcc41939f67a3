/**
 * What the report of `compare_repos` says about the two snapshots: an outer
 * join keyed by (repository, branch) that is complete on the GitHub side,
 * covers only the repositories GitHub lacks on the Azure DevOps side, and
 * lists every GitHub-side row before every Azure-only row.
 */
module ReportProperties {
  import opened Wrappers
  import opened OrderedMaps
  import opened Snapshots
  import opened Reconcile

  predicate HasRow(rows: seq<Row>, repo: string, branch: string) {
    exists k :: 0 <= k < |rows| && rows[k].repository == repo && rows[k].branch == branch
  }

  /**
   * A GitHub-side row: its GitHub value is the GitHub dict's, its Azure value
   * the Azure lookup, and it is equal exactly when both values are present
   * and the same.
   */
  predicate GitHubSideRow(github: RepoDict, azure: RepoDict, row: Row) {
    && row.github.Some?
    && Get(github, row.repository).Some?
    && Get(Get(github, row.repository).value, row.branch) == row.github
    && row.azure == AzureValue(azure, row.repository, row.branch)
    && (row.equal <==> row.azure.Some? && row.azure == row.github)
  }

  /** An Azure-only row: a repository GitHub lacks, no GitHub value, never equal. */
  predicate AzureSideRow(github: RepoDict, azure: RepoDict, row: Row) {
    && row.repository !in Keys(github)
    && row.github.None?
    && row.azure.Some?
    && row.azure == AzureValue(azure, row.repository, row.branch)
    && !row.equal
  }

  // ----- the GitHub-side rows -----

  lemma {:induction false} GitHubBranchRowsSound(azure: RepoDict, repo: string, branches: BranchCounts)
    requires Valid(branches)
    ensures forall k :: 0 <= k < |GitHubBranchRows(azure, repo, branches)| ==>
      var row := GitHubBranchRows(azure, repo, branches)[k];
      && row.repository == repo && row.github.Some?
      && Get(branches, row.branch) == row.github
      && row.azure == AzureValue(azure, repo, row.branch)
      && (row.equal <==> row.azure.Some? && row.azure == row.github)
    decreases |branches|
  {
    if branches != [] {
      var init := branches[..|branches| - 1];
      ValidPrefix(branches);
      GitHubBranchRowsSound(azure, repo, init);
      var rows := GitHubBranchRows(azure, repo, init);
      forall k | 0 <= k < |rows|
        ensures Get(branches, rows[k].branch) == Get(init, rows[k].branch)
      {
        assert rows[k].branch in Keys(init);
      }
    }
  }

  lemma {:induction false} GitHubRowsSound(github: RepoDict, azure: RepoDict)
    requires WellFormed(github)
    ensures forall k :: 0 <= k < |GitHubRows(github, azure)| ==> GitHubSideRow(github, azure, GitHubRows(github, azure)[k])
    decreases |github|
  {
    if github != [] {
      var init, last := github[..|github| - 1], github[|github| - 1];
      ValidPrefix(github);
      GitHubRowsSound(init, azure);
      GitHubBranchRowsSound(azure, last.0, last.1);
      var before := GitHubRows(init, azure);
      var after := GitHubBranchRows(azure, last.0, last.1);
      assert GitHubRows(github, azure) == before + after;
      forall k | 0 <= k < |before|
        ensures GitHubSideRow(github, azure, before[k])
      {
        assert GitHubSideRow(init, azure, before[k]);
        assert before[k].repository in Keys(init);
      }
    }
  }

  lemma {:induction false} GitHubBranchRowsComplete(azure: RepoDict, repo: string, branches: BranchCounts, branch: string)
    requires branch in Keys(branches)
    ensures HasRow(GitHubBranchRows(azure, repo, branches), repo, branch)
    decreases |branches|
  {
    var init, last := branches[..|branches| - 1], branches[|branches| - 1];
    var rows := GitHubBranchRows(azure, repo, branches);
    if last.0 == branch {
      assert rows[|rows| - 1].branch == branch;
    } else {
      KeysPrefix(branches);
      GitHubBranchRowsComplete(azure, repo, init, branch);
      var k :| 0 <= k < |GitHubBranchRows(azure, repo, init)|
        && GitHubBranchRows(azure, repo, init)[k].repository == repo
        && GitHubBranchRows(azure, repo, init)[k].branch == branch;
      assert rows[k] == GitHubBranchRows(azure, repo, init)[k];
    }
  }

  /** Every branch of every GitHub repository gets a row. */
  lemma {:induction false} GitHubRowsComplete(github: RepoDict, azure: RepoDict, repo: string, branch: string)
    requires Get(github, repo).Some? && branch in Keys(Get(github, repo).value)
    ensures HasRow(GitHubRows(github, azure), repo, branch)
    decreases |github|
  {
    var init, last := github[..|github| - 1], github[|github| - 1];
    var before := GitHubRows(init, azure);
    var after := GitHubBranchRows(azure, last.0, last.1);
    assert GitHubRows(github, azure) == before + after;
    if last.0 == repo {
      GitHubBranchRowsComplete(azure, repo, last.1, branch);
      var k :| 0 <= k < |after| && after[k].repository == repo && after[k].branch == branch;
      assert (before + after)[|before| + k] == after[k];
    } else {
      GitHubRowsComplete(init, azure, repo, branch);
      var k :| 0 <= k < |before| && before[k].repository == repo && before[k].branch == branch;
      assert (before + after)[k] == before[k];
    }
  }

  // ----- the Azure-only rows -----

  lemma {:induction false} AzureBranchRowsSound(repo: string, branches: BranchCounts)
    requires Valid(branches)
    ensures forall k :: 0 <= k < |AzureBranchRows(repo, branches)| ==>
      var row := AzureBranchRows(repo, branches)[k];
      && row.repository == repo && row.github.None? && !row.equal
      && row.azure.Some? && Get(branches, row.branch) == row.azure
    decreases |branches|
  {
    if branches != [] {
      var init := branches[..|branches| - 1];
      ValidPrefix(branches);
      AzureBranchRowsSound(repo, init);
      var rows := AzureBranchRows(repo, init);
      forall k | 0 <= k < |rows|
        ensures Get(branches, rows[k].branch) == Get(init, rows[k].branch)
      {
        assert rows[k].branch in Keys(init);
      }
    }
  }

  lemma {:induction false} AzureOnlyRowsSound(github: RepoDict, azure: RepoDict)
    requires WellFormed(azure)
    ensures forall k :: 0 <= k < |AzureOnlyRows(github, azure)| ==> AzureSideRow(github, azure, AzureOnlyRows(github, azure)[k])
    decreases |azure|
  {
    if azure != [] {
      var init, last := azure[..|azure| - 1], azure[|azure| - 1];
      ValidPrefix(azure);
      AzureOnlyRowsSound(github, init);
      var before := AzureOnlyRows(github, init);
      forall k | 0 <= k < |before|
        ensures AzureSideRow(github, azure, before[k])
      {
        assert AzureSideRow(github, init, before[k]);
        assert before[k].repository in Keys(init);
      }
      if last.0 !in Keys(github) {
        AzureBranchRowsSound(last.0, last.1);
      }
    }
  }

  lemma {:induction false} AzureBranchRowsComplete(repo: string, branches: BranchCounts, branch: string)
    requires branch in Keys(branches)
    ensures HasRow(AzureBranchRows(repo, branches), repo, branch)
    decreases |branches|
  {
    var init, last := branches[..|branches| - 1], branches[|branches| - 1];
    var rows := AzureBranchRows(repo, branches);
    if last.0 == branch {
      assert rows[|rows| - 1].branch == branch;
    } else {
      KeysPrefix(branches);
      AzureBranchRowsComplete(repo, init, branch);
      var k :| 0 <= k < |AzureBranchRows(repo, init)|
        && AzureBranchRows(repo, init)[k].repository == repo
        && AzureBranchRows(repo, init)[k].branch == branch;
      assert rows[k] == AzureBranchRows(repo, init)[k];
    }
  }

  /** Every branch of every repository that only Azure DevOps has gets a row. */
  lemma {:induction false} AzureOnlyRowsComplete(github: RepoDict, azure: RepoDict, repo: string, branch: string)
    requires repo !in Keys(github)
    requires Get(azure, repo).Some? && branch in Keys(Get(azure, repo).value)
    ensures HasRow(AzureOnlyRows(github, azure), repo, branch)
    decreases |azure|
  {
    var init, last := azure[..|azure| - 1], azure[|azure| - 1];
    var before := AzureOnlyRows(github, init);
    if last.0 == repo {
      var after := AzureBranchRows(repo, last.1);
      assert AzureOnlyRows(github, azure) == before + after;
      AzureBranchRowsComplete(repo, last.1, branch);
      var k :| 0 <= k < |after| && after[k].repository == repo && after[k].branch == branch;
      assert (before + after)[|before| + k] == after[k];
    } else {
      AzureOnlyRowsComplete(github, init, repo, branch);
      var k :| 0 <= k < |before| && before[k].repository == repo && before[k].branch == branch;
      assert AzureOnlyRows(github, azure)[k] == before[k];
    }
  }

  // ----- the whole report -----

  /**
   * The report is the GitHub-side rows followed by the Azure-only rows: the
   * first ones all carry a GitHub value, the others none, so every row with a
   * GitHub value comes before every row without one.
   */
  lemma ReportRows(github: RepoDict, azure: RepoDict)
    requires WellFormed(github) && WellFormed(azure)
    ensures var report, n := Report(github, azure), |GitHubRows(github, azure)|;
      && n <= |report|
      && (forall k :: 0 <= k < n ==> GitHubSideRow(github, azure, report[k]))
      && (forall k :: n <= k < |report| ==> AzureSideRow(github, azure, report[k]))
      && (forall i, j :: 0 <= i < j < |report| && report[i].github.None? ==> report[j].github.None?)
  {
    GitHubRowsSound(github, azure);
    AzureOnlyRowsSound(github, azure);
    var report, n := Report(github, azure), |GitHubRows(github, azure)|;
    forall k | n <= k < |report|
      ensures AzureSideRow(github, azure, report[k])
    {
      assert report[k] == AzureOnlyRows(github, azure)[k - n];
    }
  }

  /** A GitHub branch missing on the Azure DevOps side (repository or branch) is reported unequal. */
  lemma MissingOnAzureIsUnequal(github: RepoDict, azure: RepoDict, row: Row)
    requires GitHubSideRow(github, azure, row)
    requires Get(azure, row.repository).None? || row.branch !in Keys(Get(azure, row.repository).value)
    ensures row.azure.None? && !row.equal
  {
  }

  /**
   * A branch that only Azure DevOps has, in a repository GitHub also has,
   * gets no row at all.
   */
  lemma NoRowForAzureBranchOfSharedRepo(github: RepoDict, azure: RepoDict, repo: string, branch: string)
    requires WellFormed(github) && WellFormed(azure)
    requires Get(github, repo).Some? && branch !in Keys(Get(github, repo).value)
    ensures !HasRow(Report(github, azure), repo, branch)
  {
    ReportRows(github, azure);
    var report, n := Report(github, azure), |GitHubRows(github, azure)|;
    forall k | 0 <= k < |report|
      ensures !(report[k].repository == repo && report[k].branch == branch)
    {
      if k < n {
        assert GitHubSideRow(github, azure, report[k]);
      } else {
        assert AzureSideRow(github, azure, report[k]);
      }
    }
  }

  /** The number of branch entries of a repository dict. */
  function BranchTotal(d: RepoDict): nat
    decreases |d|
  {
    if d == [] then 0 else BranchTotal(d[..|d| - 1]) + |d[|d| - 1].1|
  }

  /** The entries of `azure` whose repository GitHub does not have. */
  function OnlyIn(azure: RepoDict, github: RepoDict): RepoDict
    decreases |azure|
  {
    if azure == [] then []
    else
      var last := azure[|azure| - 1];
      OnlyIn(azure[..|azure| - 1], github) + (if last.0 in Keys(github) then [] else [last])
  }

  lemma {:induction false} GitHubBranchRowsSize(azure: RepoDict, repo: string, branches: BranchCounts)
    ensures |GitHubBranchRows(azure, repo, branches)| == |branches|
    decreases |branches|
  {
    if branches != [] {
      GitHubBranchRowsSize(azure, repo, branches[..|branches| - 1]);
    }
  }

  lemma {:induction false} AzureBranchRowsSize(repo: string, branches: BranchCounts)
    ensures |AzureBranchRows(repo, branches)| == |branches|
    decreases |branches|
  {
    if branches != [] {
      AzureBranchRowsSize(repo, branches[..|branches| - 1]);
    }
  }

  lemma {:induction false} GitHubRowsSize(github: RepoDict, azure: RepoDict)
    ensures |GitHubRows(github, azure)| == BranchTotal(github)
    decreases |github|
  {
    if github != [] {
      var last := github[|github| - 1];
      GitHubRowsSize(github[..|github| - 1], azure);
      GitHubBranchRowsSize(azure, last.0, last.1);
    }
  }

  lemma {:induction false} AzureOnlyRowsSize(github: RepoDict, azure: RepoDict)
    ensures |AzureOnlyRows(github, azure)| == BranchTotal(OnlyIn(azure, github))
    decreases |azure|
  {
    if azure != [] {
      var init, last := azure[..|azure| - 1], azure[|azure| - 1];
      AzureOnlyRowsSize(github, init);
      var rest := OnlyIn(init, github);
      if last.0 !in Keys(github) {
        AzureBranchRowsSize(last.0, last.1);
        assert (rest + [last])[..|rest|] == rest;
      } else {
        assert rest + [] == rest;
      }
    }
  }

  /** One row per GitHub branch plus one per branch of an Azure-only repository, and no others. */
  lemma ReportSize(github: RepoDict, azure: RepoDict)
    ensures |Report(github, azure)| == BranchTotal(github) + BranchTotal(OnlyIn(azure, github))
  {
    GitHubRowsSize(github, azure);
    AzureOnlyRowsSize(github, azure);
  }

  /**
   * Matching branches are equal, differing ones are not:
   * {repo1: {main: 10, dev: 5}} against {repo1: {main: 10, dev: 7}}.
   */
  lemma TwoBranchExample()
    ensures var github: RepoDict := [("repo1", [("main", 10), ("dev", 5)])];
      var azure: RepoDict := [("repo1", [("main", 10), ("dev", 7)])];
      Report(github, azure) == [Row("repo1", "main", Some(10), Some(10), true), Row("repo1", "dev", Some(5), Some(7), false)]
  {
    var github: RepoDict := [("repo1", [("main", 10), ("dev", 5)])];
    var azure: RepoDict := [("repo1", [("main", 10), ("dev", 7)])];
    var branches := azure[0].1;
    assert branches[..1] == [("main", 10)];
    assert Get(branches, "dev") == Some(7);
    assert Get(branches, "main") == Some(10);
    assert Get(azure, "repo1") == Some(branches);
    var ghBranches := github[0].1;
    assert ghBranches[..1] == [("main", 10)];
    var mainRow := Row("repo1", "main", Some(10), Some(10), true);
    var devRow := Row("repo1", "dev", Some(5), Some(7), false);
    assert GitHubBranchRows(azure, "repo1", ghBranches[..1]) == [mainRow];
    assert GitHubBranchRows(azure, "repo1", ghBranches) == [mainRow, devRow];
    assert github[..0] == [];
    assert GitHubRows(github, azure) == [mainRow, devRow];
    assert azure[..0] == [];
    assert Keys(github) == ["repo1"];
    assert AzureOnlyRows(github, azure[..0]) == [];
    assert AzureOnlyRows(github, azure) == [];
  }
}
