/**
 * Commit counting by pagination. GitHub's commit list is paged by page
 * number (`per_page=100`, `page=1, 2, ...`); Azure DevOps's by offset
 * (`$top=100`, `$skip=0, 100, 200, ...`). Both counters add up page sizes
 * until a page comes back with fewer than 100 commits, and both give 0 as
 * soon as any request fails.
 *
 * The server is a sequence of responses, one per request in the order the
 * requests are made: `None` when the request failed (an HTTP error status,
 * a transport error or a body without the expected shape), otherwise the
 * number of commits the page holds (`len(commits)` on GitHub, the `count`
 * field on Azure DevOps).
 */
module Pagination {
  import opened Wrappers

  /** `per_page` on GitHub and `$top` on Azure DevOps. */
  const PAGE_SIZE: nat := 100

  type Response = Option<nat>

  /** A response after which no further page is requested. */
  predicate Stops(r: Response) {
    r.None? || r.value < PAGE_SIZE
  }

  /** The server eventually fails or sends a short page; otherwise both loops run forever. */
  predicate HasStop(pages: seq<Response>) {
    exists i :: 0 <= i < |pages| && Stops(pages[i])
  }

  /** The index of the last page requested: the first one that stops the loop. */
  function FirstStop(pages: seq<Response>): (k: nat)
    requires HasStop(pages)
    ensures k < |pages| && Stops(pages[k])
    ensures forall i :: 0 <= i < k ==> !Stops(pages[i])
  {
    if Stops(pages[0]) then 0
    else
      assert HasStop(pages[1..]) by {
        var i :| 0 <= i < |pages| && Stops(pages[i]);
        assert pages[1..][i - 1] == pages[i];
      }
      1 + FirstStop(pages[1..])
  }

  /** The responses the loop actually receives. */
  function Fetched(pages: seq<Response>): seq<Response>
    requires HasStop(pages)
  {
    pages[..FirstStop(pages) + 1]
  }

  predicate AllSucceeded(rs: seq<Response>) {
    forall i :: 0 <= i < |rs| ==> rs[i].Some?
  }

  /** The commits on the given pages, all of them successful. */
  function Sum(rs: seq<Response>): nat
    requires AllSucceeded(rs)
  {
    if rs == [] then 0 else Sum(rs[..|rs| - 1]) + rs[|rs| - 1].value
  }

  /** What either counter returns: the commits on all fetched pages, or 0 if one of them failed. */
  function CommitTotal(pages: seq<Response>): nat
    requires HasStop(pages)
  {
    var fetched := Fetched(pages);
    if AllSucceeded(fetched) then Sum(fetched) else 0
  }

  /** The `page` parameters GitHub is sent for `n` requests: 1, 2, ..., n. */
  function PageNumbers(n: nat): seq<nat> {
    seq(n, i requires 0 <= i < n => i + 1)
  }

  /** The `$skip` parameters Azure DevOps is sent for `n` requests: 0, 100, ..., 100 * (n - 1). */
  function Skips(n: nat): seq<nat> {
    seq(n, i requires 0 <= i < n => i * PAGE_SIZE)
  }

  /** One more successful page: the running sum grows by its commits. */
  lemma SumStep(pages: seq<Response>, j: nat)
    requires j < |pages| && AllSucceeded(pages[..j]) && pages[j].Some?
    ensures AllSucceeded(pages[..j + 1])
    ensures Sum(pages[..j + 1]) == Sum(pages[..j]) + pages[j].value
  {
    assert pages[..j + 1][..j] == pages[..j];
  }

  lemma PageNumbersStep(n: nat)
    ensures PageNumbers(n + 1) == PageNumbers(n) + [n + 1]
  {
  }

  lemma SkipsStep(n: nat)
    ensures Skips(n + 1) == Skips(n) + [n * PAGE_SIZE]
  {
  }

  /** A failed request ends the loop: it is the last one made, and the count is 0. */
  lemma StopOnFailure(pages: seq<Response>, j: nat)
    requires HasStop(pages)
    requires j <= FirstStop(pages) && j < |pages| && pages[j].None?
    ensures j == FirstStop(pages)
    ensures CommitTotal(pages) == 0
  {
    assert Fetched(pages)[j] == pages[j];
  }

  /** A short page ends the loop: it is the last one made, and the count is what has been added so far. */
  lemma StopOnShortPage(pages: seq<Response>, j: nat)
    requires HasStop(pages)
    requires j <= FirstStop(pages) && j < |pages|
    requires AllSucceeded(pages[..j + 1]) && pages[j].value < PAGE_SIZE
    ensures j == FirstStop(pages)
    ensures CommitTotal(pages) == Sum(pages[..j + 1])
  {
  }

  /** `get_github_commit_count`: page-number pagination. */
  method GitHubCommitCount(pages: seq<Response>) returns (total: nat, requested: seq<nat>)
    requires HasStop(pages)
    ensures total == CommitTotal(pages)
    ensures requested == PageNumbers(FirstStop(pages) + 1)
  {
    ghost var last := FirstStop(pages);
    var page := 1;
    var totalCommits := 0;
    requested := [];
    while true
      invariant 1 <= page <= last + 1
      invariant requested == PageNumbers(page - 1)
      invariant AllSucceeded(pages[..page - 1])
      invariant totalCommits == Sum(pages[..page - 1])
      decreases last + 1 - page
    {
      PageNumbersStep(page - 1);
      requested := requested + [page];
      var response := pages[page - 1];
      if response.None? {
        // raise_for_status raises; the handler returns 0
        StopOnFailure(pages, page - 1);
        total := 0;
        return;
      }
      SumStep(pages, page - 1);
      totalCommits := totalCommits + response.value;
      if response.value < PAGE_SIZE {
        StopOnShortPage(pages, page - 1);
        total := totalCommits;
        return;
      }
      page := page + 1;
    }
  }

  /** `get_azure_commit_count`: offset pagination, `$skip = page * 100`. */
  method AzureCommitCount(pages: seq<Response>) returns (total: nat, requested: seq<nat>)
    requires HasStop(pages)
    ensures total == CommitTotal(pages)
    ensures requested == Skips(FirstStop(pages) + 1)
  {
    ghost var last := FirstStop(pages);
    var page := 0;
    var commitCount := 0;
    requested := [];
    while true
      invariant 0 <= page <= last
      invariant requested == Skips(page)
      invariant AllSucceeded(pages[..page])
      invariant commitCount == Sum(pages[..page])
      decreases last - page
    {
      SkipsStep(page);
      requested := requested + [page * PAGE_SIZE];
      var response := pages[page];
      if response.None? {
        StopOnFailure(pages, page);
        total := 0;
        return;
      }
      SumStep(pages, page);
      var count := response.value;
      commitCount := commitCount + count;
      if count < PAGE_SIZE {
        StopOnShortPage(pages, page);
        total := commitCount;
        return;
      }
      page := page + 1;
    }
  }

  /** Every page before the last one fetched was full, so none of them failed. */
  lemma OnlyLastFetchedCanFail(pages: seq<Response>)
    requires HasStop(pages)
    ensures AllSucceeded(Fetched(pages)) <==> pages[FirstStop(pages)].Some?
    ensures pages[FirstStop(pages)].None? ==> CommitTotal(pages) == 0
  {
    var k := FirstStop(pages);
    assert Fetched(pages)[k] == pages[k];
    forall i | 0 <= i < k
      ensures Fetched(pages)[i].Some?
    {
      assert !Stops(pages[i]);
    }
  }

  lemma {:induction false} SumOfFullPages(rs: seq<Response>)
    requires AllSucceeded(rs)
    requires forall i :: 0 <= i < |rs| ==> !Stops(rs[i])
    ensures Sum(rs) >= PAGE_SIZE * |rs|
    decreases |rs|
  {
    if rs != [] {
      SumOfFullPages(rs[..|rs| - 1]);
    }
  }

  /**
   * A successful count is the full pages plus a short last page: at least
   * 100 per full page, and less than 100 beyond what the full pages hold.
   */
  lemma {:induction false} TotalBounds(pages: seq<Response>)
    requires HasStop(pages)
    requires pages[FirstStop(pages)].Some?
    ensures CommitTotal(pages) >= PAGE_SIZE * FirstStop(pages)
    ensures CommitTotal(pages) == Sum(pages[..FirstStop(pages)]) + pages[FirstStop(pages)].value
    ensures pages[FirstStop(pages)].value < PAGE_SIZE
  {
    var k := FirstStop(pages);
    OnlyLastFetchedCanFail(pages);
    var fetched := Fetched(pages);
    assert fetched[..k] == pages[..k];
    SumOfFullPages(pages[..k]);
  }

  /** Request i of either style reads the same window of history: skip i * 100 is where page i + 1 begins. */
  lemma SameWindows(n: nat)
    ensures |PageNumbers(n)| == |Skips(n)| == n
    ensures forall i :: 0 <= i < n ==> Skips(n)[i] == (PageNumbers(n)[i] - 1) * PAGE_SIZE
  {
  }

  /** Pages of 100, 100, 100 and 47 commits: 347 commits after 4 requests. */
  lemma ThreeFullPagesAndOneShort()
    ensures var pages := [Some(100), Some(100), Some(100), Some(47)];
      HasStop(pages) && FirstStop(pages) == 3 && CommitTotal(pages) == 347
  {
    var pages: seq<Response> := [Some(100), Some(100), Some(100), Some(47)];
    assert Stops(pages[3]);
    assert pages[1..][1..][1..] == [Some(47)];
    assert Fetched(pages) == pages;
    var full: seq<Response> := [Some(100), Some(100), Some(100)];
    assert pages[..3] == full && full[..2][..1][..0] == [];
    assert Sum(full[..2][..1]) == 100;
    assert Sum(full[..2]) == 200;
    assert Sum(full) == 300;
    assert AllSucceeded(pages);
    assert pages[..|pages| - 1] == full;
    assert Sum(pages) == Sum(full) + 47;
  }

  /** A failure on the second page makes the whole count 0, whatever the first page held. */
  lemma FailureOnSecondPage()
    ensures var pages := [Some(100), None, Some(5)];
      HasStop(pages) && FirstStop(pages) == 1 && CommitTotal(pages) == 0
  {
    var pages: seq<Response> := [Some(100), None, Some(5)];
    assert Stops(pages[1]);
    assert pages[1..][0] == None;
  }

  /** One full page and one of 50: 150 commits after requests for pages 1, 2, or skips 0, 100. */
  lemma FullPageThenHalf()
    ensures var pages := [Some(100), Some(50)];
      && HasStop(pages) && FirstStop(pages) == 1 && CommitTotal(pages) == 150
      && PageNumbers(2) == [1, 2] && Skips(2) == [0, 100]
  {
    var pages: seq<Response> := [Some(100), Some(50)];
    assert Stops(pages[1]);
    assert pages[1..] == [Some(50)];
    assert Fetched(pages) == pages;
    assert AllSucceeded(pages);
    assert pages[..1][..0] == [];
    assert Sum(pages[..1]) == 100;
  }
}
