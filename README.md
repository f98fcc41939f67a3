# GitHub / Azure DevOps diff check, modelled in Dafny

The tool `Tools/Github-Azure_Devops-Diff_Check.py` lists every repository
and branch on GitHub and on Azure DevOps and counts the commits of each
branch. It writes both sides to a JSON snapshot, reads the snapshot back and
prints one row per (repository, branch) saying whether the two commit counts
agree.

This project models the logic of that script with the network and the files
taken out:

- `pagination.dfy` (module `Pagination`) models the two commit counters.
  GitHub is paged by page number (`page = 1, 2, ...`) and Azure DevOps by
  offset (`$skip = 0, 100, 200, ...`). Both add up page sizes until a page
  holds fewer than 100 commits, and both return 0 when any request fails. The
  server is a sequence of responses: `None` for a failed request, otherwise
  the number of commits on the page. Each counter is a loop that returns the
  total and the page or skip parameters it sent.
- `branch_names.dfy` (module `BranchNames`) models how an Azure DevOps ref
  (`refs/heads/x`) is cut down to what follows its last `/`.
- `ordered_maps.dfy` (module `OrderedMaps`) models Python's `dict` as an
  association list in insertion order. Assigning to a key that is already
  present replaces its value in place. A new key is appended. `update`
  assigns entries one after another.
- `snapshots.dfy` (module `Snapshots`) models three steps. `main` merges the
  per-project Azure DevOps dicts. `compare_and_log_differences` turns both
  sides into ordered record lists. Those lists form the snapshot.
- `reconcile.dfy` (module `Reconcile`) models `create_repo_dict` and the two
  row-emitting loops of `compare_repos`, as methods with loops. Each method
  is proved equal to a specification function.
- `report_properties.dfy` (module `ReportProperties`) proves what the
  report means. The GitHub-side rows are sound and complete, and the
  Azure-only rows are sound and complete. All GitHub-side rows come first.
  Row counts are stated, and the two cases that get no row at all are proved
  to get none.
- `repo_dict_properties.dfy` (module `RepoDictProperties`) proves what
  `create_repo_dict` makes of a record list. It also proves that reading back
  a snapshot gives the enumerators' dicts with each branch list merged into
  one dict. Two Azure DevOps refs cut to the same branch name keep only the
  later count. Without such repeats, the dicts come back unchanged.
- `wrappers.dfy` (module `Wrappers`) holds the `Option` type.

The counts are `nat`. Python's integers do not wrap, so none of the
arithmetic here has a width.

## Model

| member | source | states |
|---|---|---|
| `Pagination.FirstStop` | Tools/Github-Azure_Devops-Diff_Check.py:97-98 | The index of the last page requested is the first page that failed or held fewer than 100 commits. Every earlier page was full. |
| `Pagination.GitHubCommitCount` | Tools/Github-Azure_Devops-Diff_Check.py:78-104 | Returns the commits on all fetched pages, or 0 if a fetch failed. The `page` parameters sent are exactly 1, 2, ..., k with no gaps, where k is the number of pages fetched. |
| `Pagination.AzureCommitCount` | Tools/Github-Azure_Devops-Diff_Check.py:107-129 | Returns the same total as the GitHub counter on the same responses. The `$skip` parameters sent are exactly 0, 100, ..., 100·(k−1). |
| `Pagination.OnlyLastFetchedCanFail` | Tools/Github-Azure_Devops-Diff_Check.py:102-104 | Every fetch succeeded exactly when the last one did. When the last fetch failed, the count is 0. |
| `Pagination.SumOfFullPages` | Tools/Github-Azure_Devops-Diff_Check.py:96-99 | Full pages contribute at least 100 commits each. |
| `Pagination.TotalBounds` | Tools/Github-Azure_Devops-Diff_Check.py:91-101 | A successful count is the sum of the full pages plus a last page of fewer than 100. It is at least 100 × (number of full pages). |
| `Pagination.SameWindows` | Tools/Github-Azure_Devops-Diff_Check.py:109-123 | Request i of both styles reads the same window of history: `$skip` 100·i is where page i+1 begins. |
| `Pagination.ThreeFullPagesAndOneShort` | Tools/Github-Azure_Devops-Diff_Check.py:91-101 | Pages of 100, 100, 100 and 47 give 347 commits after 4 requests. |
| `Pagination.FullPageThenHalf` | Tools/Github-Azure_Devops-Diff_Check.py:110-125 | Pages of 100 and 50 give 150 commits after 2 requests. Those requests are pages 1 and 2, or skips 0 and 100. |
| `Pagination.FailureOnSecondPage` | Tools/Github-Azure_Devops-Diff_Check.py:93-104 | A failure on page 2 makes the count 0 and stops the requests there. |
| `BranchNames.Split` | Tools/Github-Azure_Devops-Diff_Check.py:173 | `split('/')` gives at least one piece, and no piece contains `/`. It gives exactly one piece iff the string has no `/`. |
| `BranchNames.JoinSplit` | Tools/Github-Azure_Devops-Diff_Check.py:173 | Joining the pieces of a split with `/` gives back the string. |
| `BranchNames.LastPiece` | Tools/Github-Azure_Devops-Diff_Check.py:173 | The last piece of a split is the longest suffix that contains no separator. |
| `BranchNames.StripRefSpec` | Tools/Github-Azure_Devops-Diff_Check.py:173 | A stripped branch name has no `/` and is a suffix of the ref. It is the whole ref when the ref has no `/`, and otherwise it starts right after the last `/`. |
| `OrderedMaps.Get` | Tools/Github-Azure_Devops-Diff_Check.py:245 | `get` finds a value iff the key is present. |
| `OrderedMaps.Put` | Tools/Github-Azure_Devops-Diff_Check.py:226 | A dict assignment sets the key and leaves every other key's value alone. An existing key keeps its place; a new key is appended at the end. |
| `OrderedMaps.PutAllGet` | Tools/Github-Azure_Devops-Diff_Check.py:283 | After `update`, a key holds its last value in the argument, or its old value if the argument lacks it. |
| `OrderedMaps.PutAllKeys` | Tools/Github-Azure_Devops-Diff_Check.py:281-283 | After `update`, the old keys keep their order and new keys follow in the order first seen. The result is still a dict. |
| `OrderedMaps.PutAllOfDistinct` | Tools/Github-Azure_Devops-Diff_Check.py:222-229 | Building a dict from entries with distinct keys gives back those entries. |
| `OrderedMaps.GetLastMatch` | Tools/Github-Azure_Devops-Diff_Check.py:228 | The last entry with a given key decides the lookup, duplicates or not. |
| `OrderedMaps.GetEntry` | Tools/Github-Azure_Devops-Diff_Check.py:244 | In a dict, looking up an entry's key gives that entry's value. |
| `OrderedMaps.DedupAppend` | Tools/Github-Azure_Devops-Diff_Check.py:281-283 | Keeping first occurrences of a prefix and then of the whole gives the same order as keeping first occurrences of the whole at once. |
| `Snapshots.RecordList` | Tools/Github-Azure_Devops-Diff_Check.py:192-197 | There is one `{repository, branches}` record per dict entry, in the dict's order, with the branch list unchanged. |
| `Snapshots.AssembleSnapshot` | Tools/Github-Azure_Devops-Diff_Check.py:184-203 | The snapshot's `github` and `azure` lists are the record lists of the two dicts. |
| `Snapshots.MergeProjects` | Tools/Github-Azure_Devops-Diff_Check.py:280-283 | The merged Azure DevOps dict is a dict. Each repository holds the value from the last project that has it. Repositories are ordered by first appearance across the projects. |
| `Reconcile.BranchDict` | Tools/Github-Azure_Devops-Diff_Check.py:227-228 | The loop of `update(branch)` calls builds the flattened branch dict of the records. |
| `Reconcile.CreateRepoDict` | Tools/Github-Azure_Devops-Diff_Check.py:222-229 | The loop builds the dict of flattened branch dicts, assigned in record order. |
| `Reconcile.EmitGitHubBranchRows` | Tools/Github-Azure_Devops-Diff_Check.py:243-249 | Emits one row per branch of a GitHub repository, in branch order. |
| `Reconcile.EmitAzureBranchRows` | Tools/Github-Azure_Devops-Diff_Check.py:253-257 | Emits one row per branch of an Azure-only repository, with no GitHub value and `equal = False`. |
| `Reconcile.EmitGitHubRows` | Tools/Github-Azure_Devops-Diff_Check.py:242-249 | The outer GitHub loop emits the rows of every GitHub repository, in dict order. |
| `Reconcile.EmitAzureOnlyRows` | Tools/Github-Azure_Devops-Diff_Check.py:251-257 | The outer Azure DevOps loop emits rows only for repositories GitHub lacks, in dict order. |
| `Reconcile.CompareRepos` | Tools/Github-Azure_Devops-Diff_Check.py:242-257 | The printed rows are the GitHub-side rows followed by the Azure-only rows. The logged rows are the GitHub-side rows only, a prefix of the printed ones. |
| `ReportProperties.GitHubRowsSound` | Tools/Github-Azure_Devops-Diff_Check.py:242-249 | Every GitHub-side row has its GitHub dict count and the Azure lookup result, which is None when the repository or branch is missing. `equal` holds iff both are present and equal. |
| `ReportProperties.GitHubRowsComplete` | Tools/Github-Azure_Devops-Diff_Check.py:242-244 | Every branch of every GitHub repository has a row. |
| `ReportProperties.AzureOnlyRowsSound` | Tools/Github-Azure_Devops-Diff_Check.py:251-257 | Every Azure-only row belongs to a repository GitHub lacks. It has no GitHub value, has its Azure dict count, and is never equal. |
| `ReportProperties.AzureOnlyRowsComplete` | Tools/Github-Azure_Devops-Diff_Check.py:251-253 | Every branch of every repository that only Azure DevOps has gets a row. |
| `ReportProperties.ReportRows` | Tools/Github-Azure_Devops-Diff_Check.py:242-257 | The report is the GitHub-side rows and then the Azure-only rows. No row without a GitHub value comes before a row with one. |
| `ReportProperties.MissingOnAzureIsUnequal` | Tools/Github-Azure_Devops-Diff_Check.py:245-246 | A GitHub branch whose repository or branch is missing on Azure DevOps has no Azure value and `equal = False`. |
| `ReportProperties.NoRowForAzureBranchOfSharedRepo` | Tools/Github-Azure_Devops-Diff_Check.py:242-257 | A branch that only Azure DevOps has, in a repository GitHub also has, gets no row. |
| `ReportProperties.GitHubRowsSize` | Tools/Github-Azure_Devops-Diff_Check.py:242-249 | The number of GitHub-side rows is the total number of GitHub branches. |
| `ReportProperties.AzureOnlyRowsSize` | Tools/Github-Azure_Devops-Diff_Check.py:251-257 | The number of Azure-only rows is the total number of branches of the repositories GitHub lacks. |
| `ReportProperties.ReportSize` | Tools/Github-Azure_Devops-Diff_Check.py:242-257 | The report has Σ GitHub branches + Σ branches of Azure-only repositories rows. |
| `ReportProperties.TwoBranchExample` | Tools/Github-Azure_Devops-Diff_Check.py:242-257 | `{repo1: {main: 10, dev: 5}}` against `{repo1: {main: 10, dev: 7}}` gives exactly (repo1, main, 10, 10, True) and (repo1, dev, 5, 7, False). |
| `RepoDictProperties.FlattenLookup` | Tools/Github-Azure_Devops-Diff_Check.py:227-228 | Within a repository, the last record for a branch gives its count. |
| `RepoDictProperties.FlattenMissing` | Tools/Github-Azure_Devops-Diff_Check.py:227-228 | A branch that no record names is absent. |
| `RepoDictProperties.RepoDictLookup` | Tools/Github-Azure_Devops-Diff_Check.py:224-228 | A repository's branches are those of its last record alone. Line 226 discards earlier records with the same name. |
| `RepoDictProperties.RepoDictMissing` | Tools/Github-Azure_Devops-Diff_Check.py:222-229 | A repository that no record names is absent. |
| `RepoDictProperties.RepoDictShape` | Tools/Github-Azure_Devops-Diff_Check.py:222-229 | The result is a dict of dicts, with repositories in the order of their first record. |
| `RepoDictProperties.SnapshotRoundTrip` | Tools/Github-Azure_Devops-Diff_Check.py:184-233 | Reading back, with `create_repo_dict`, a snapshot written from an enumerator's dict gives that dict with each repository's branch list merged into one dict, where a repeated branch name keeps its last count. Nothing else changes. When no branch list repeats a name, the dicts come back unchanged. |
| `RepoDictProperties.ReportThroughSnapshot` | Tools/Github-Azure_Devops-Diff_Check.py:184-257 | The report printed from the snapshot is the report of the enumerators' dicts with each branch list merged. Nothing is lost or reordered through the file. |
| `RepoDictProperties.RepeatedBranchNameExample` | Tools/Github-Azure_Devops-Diff_Check.py:173-176 | Two Azure DevOps refs cut to the same name `fix`, with counts 3 and 5, read back as the single branch `fix: 5`. |
| `RepoDictProperties.RepeatedRepositoryExample` | Tools/Github-Azure_Devops-Diff_Check.py:224-228 | A repository listed twice keeps only its second branch list. |

## Left out

- HTTP requests, authentication headers, base64 credentials, disabled
  certificate checks and environment variables (lines 9-19, 48-75). They are
  network and process configuration. The counters receive the responses as a
  sequence instead.
- `get_github_repos`, `get_azure_projects` and the repository and branch
  listing loops of `get_github_repos_and_branches` and
  `get_azure_repos_and_branches` (lines 48-75, 132-181). They are made of
  network calls. The model starts from the dicts they return. From those
  loops only the branch-name cut of line 173 is modelled.
- `write_log` and `cleanup_logs` (lines 28-45). They are file I/O, wall-clock
  timestamps and file modification times. The model keeps only which rows
  are logged (`CompareRepos`' `logged`).
- Writing and reading the JSON file, the file-existence check and the
  fixed-width formatting (lines 199-201, 206-215, 236-240, 247-248, 257).
  The snapshot is passed on as a value. This assumes the JSON round trip
  keeps strings, integers and order, which it does for the types involved.
- The early returns of `main` (lines 266-274) and its call sequence. They
  only test I/O results.
- Exception types and messages. A failed request is a `None` response.
- `Pagination.GitHubCommitCount`, `Pagination.AzureCommitCount`: require
  that the server eventually fails or sends a short page. On a server that
  sends full pages forever, the source loops forever.
- `Pagination.AzureCommitCount`: the `count` field is taken to be a natural
  number. A negative `count` in a malformed response is not modelled.
- `Reconcile.CompareRepos`: the source iterates over each dict's keys and
  looks the value up. The model iterates over the entries. For a real dict
  (no key twice) the two are the same.
