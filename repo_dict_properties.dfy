/**
 * What `create_repo_dict` makes of a record list: a dict of dicts in which
 * the last record of a repository replaces any earlier one whole, the last
 * record of a branch wins within a repository, and repositories keep the
 * order in which they first appear. Reading back a snapshot written from
 * real dicts gives back exactly those dicts.
 */
module RepoDictProperties {
  import opened Wrappers
  import opened OrderedMaps
  import opened Snapshots
  import opened Reconcile

  /** The repository names of a record list, in order. */
  function Names(records: seq<RepoRecord>): seq<string> {
    seq(|records|, i requires 0 <= i < |records| => records[i].repository)
  }

  /** Within one repository, the last record for a branch gives its count. */
  lemma FlattenLookup(branches: seq<BranchRecord>, i: nat)
    requires i < |branches|
    requires forall j :: i < j < |branches| ==> branches[j].0 != branches[i].0
    ensures Get(Flatten(branches), branches[i].0) == Some(branches[i].1)
  {
    PutAllGet([], branches, branches[i].0);
    GetLastMatch(branches, i);
  }

  /** A branch no record names is absent from the flattened dict. */
  lemma FlattenMissing(branches: seq<BranchRecord>, branch: string)
    requires forall j :: 0 <= j < |branches| ==> branches[j].0 != branch
    ensures Get(Flatten(branches), branch).None?
  {
    PutAllGet([], branches, branch);
    assert branch !in Keys(branches);
  }

  /**
   * The last record of a repository decides its branches entirely: the
   * `repo_dict[repo_name] = {}` of line 226 discards what earlier records
   * with the same name contributed.
   */
  lemma RepoDictLookup(records: seq<RepoRecord>, i: nat)
    requires i < |records|
    requires forall j :: i < j < |records| ==> records[j].repository != records[i].repository
    ensures Get(RepoDictOf(records), records[i].repository) == Some(Flatten(records[i].branches))
  {
    var es := RepoEntries(records);
    PutAllGet([], es, records[i].repository);
    assert forall j :: 0 <= j < |es| ==> es[j].0 == records[j].repository;
    GetLastMatch(es, i);
  }

  lemma RepoDictMissing(records: seq<RepoRecord>, repo: string)
    requires forall j :: 0 <= j < |records| ==> records[j].repository != repo
    ensures Get(RepoDictOf(records), repo).None?
  {
    var es := RepoEntries(records);
    PutAllGet([], es, repo);
    assert forall j :: 0 <= j < |es| ==> es[j].0 == records[j].repository;
    assert repo !in Keys(es);
  }

  /**
   * The flattened snapshot is a proper dict of dicts whose repositories are
   * in the order of their first record.
   */
  lemma RepoDictShape(records: seq<RepoRecord>)
    ensures Keys(RepoDictOf(records)) == Dedup(Names(records))
    ensures WellFormed(RepoDictOf(records))
  {
    var es := RepoEntries(records);
    var d := RepoDictOf(records);
    var empty: RepoDict := [];
    PutAllKeys(empty, es);
    assert Keys(empty) + Keys(es) == Names(records);
    forall i | 0 <= i < |d|
      ensures Valid(d[i].1)
    {
      GetEntry(d, i);
      PutAllGet([], es, d[i].0);
      GetFromEntry(es, d[i].0);
      var j :| 0 <= j < |es| && es[j] == (d[i].0, d[i].1);
      PutAllKeys([], records[j].branches);
    }
  }

  /**
   * Writing a snapshot from an enumerator's dict and reading it back with
   * `create_repo_dict` merges each repository's branch list into one dict
   * and changes nothing else. A branch list that names no branch twice comes
   * back as it was, so a dict of dicts survives the round trip unchanged.
   */
  lemma SnapshotRoundTrip(m: RepoBranches)
    requires Valid(m)
    ensures RepoDictOf(Records(m)) == FlattenEach(m)
    ensures WellFormed(m) ==> RepoDictOf(Records(m)) == m
  {
    var es := RepoEntries(Records(m));
    assert es == FlattenEach(m);
    assert Keys(FlattenEach(m)) == Keys(m);
    PutAllOfDistinct(FlattenEach(m));
    if WellFormed(m) {
      forall i | 0 <= i < |m|
        ensures FlattenEach(m)[i] == m[i]
      {
        PutAllOfDistinct(m[i].1);
      }
    }
  }

  /**
   * The report `compare_repos` prints from the snapshot is the report of the
   * enumerators' dicts with each branch list merged: nothing is lost or
   * reordered on the way through the file, and a repeated branch name keeps
   * only its last count.
   */
  lemma ReportThroughSnapshot(github: RepoBranches, azure: RepoBranches)
    requires Valid(github) && Valid(azure)
    ensures Report(RepoDictOf(Records(github)), RepoDictOf(Records(azure)))
         == Report(FlattenEach(github), FlattenEach(azure))
  {
    SnapshotRoundTrip(github);
    SnapshotRoundTrip(azure);
  }

  /**
   * Two Azure DevOps refs that cut to the same branch name end up as one
   * entry in the list the enumerator builds; reading the snapshot back keeps
   * the later count only.
   */
  lemma RepeatedBranchNameExample()
    ensures var azure: RepoBranches := [("api", [("fix", 3), ("fix", 5)])];
      RepoDictOf(Records(azure)) == [("api", [("fix", 5)])]
  {
    var azure: RepoBranches := [("api", [("fix", 3), ("fix", 5)])];
    var branches: seq<BranchRecord> := [("fix", 3), ("fix", 5)];
    var first: BranchCounts := [("fix", 3)];
    assert branches[..1] == first;
    assert PutAll([], first) == first by {
      assert first[..0] == [];
    }
    assert Flatten(branches) == Put(first, "fix", 5);
    assert Keys(first) == ["fix"];
    assert Put(first, "fix", 5) == [("fix", 5)];
    assert Records(azure) == [RepoRecord("api", branches)];
    assert RepoEntries(Records(azure)) == [("api", [("fix", 5)])];
    SnapshotRoundTrip(azure);
    assert Keys(FlattenEach(azure)) == ["api"];
    PutAllOfDistinct(FlattenEach(azure));
  }

  /** A repository listed twice keeps only its second branch list. */
  lemma RepeatedRepositoryExample()
    ensures var records := [RepoRecord("api", [("main", 1), ("dev", 2)]), RepoRecord("api", [("main", 3)])];
      Get(RepoDictOf(records), "api") == Some([("main", 3)])
  {
    var records := [RepoRecord("api", [("main", 1), ("dev", 2)]), RepoRecord("api", [("main", 3)])];
    RepoDictLookup(records, 1);
    var branches: seq<BranchRecord> := [("main", 3)];
    PutAllOfDistinct(branches);
  }
}
