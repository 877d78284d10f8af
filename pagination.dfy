/**
 * The paging loop of `convert_issues`. It reads the total number of matching
 * issues, then repeats a search of `max_results` issues while its running
 * offset is below that total, advancing the offset by `max_results` each
 * time. The search itself is modelled as a slice of the fixed list of
 * matching issues; the Jira client's default start offset, 0, is what a
 * search that passes none receives.
 */
module Pagination {

  /** What one search returns: up to `maxResults` matching issues from position `startAt` on. */
  function SearchPage<T>(all: seq<T>, startAt: nat, maxResults: nat): (page: seq<T>)
    ensures |page| <= maxResults
    ensures startAt <= |all| ==> page == all[startAt..if startAt + maxResults <= |all| then startAt + maxResults else |all|]
  {
    if startAt >= |all| then []
    else if startAt + maxResults <= |all| then all[startAt..startAt + maxResults]
    else all[startAt..]
  }

  /** How many times the loop body runs: the least n with n * maxResults >= total. */
  function Pages(total: int, maxResults: nat): (n: nat)
    requires maxResults > 0
    ensures n == 0 <==> total <= 0
    decreases total
  {
    if total <= 0 then 0 else 1 + Pages(total - maxResults, maxResults)
  }

  /** The loop runs ceil(total / maxResults) times: enough passes to reach the total, and no more. */
  lemma {:induction false} PagesBounds(total: int, maxResults: nat)
    requires maxResults > 0
    ensures Pages(total, maxResults) * maxResults >= total
    ensures Pages(total, maxResults) == 0 || (Pages(total, maxResults) - 1) * maxResults < total
    decreases total
  {
    if total > 0 {
      var n := Pages(total - maxResults, maxResults);
      PagesBounds(total - maxResults, maxResults);
      assert (1 + n) * maxResults == n * maxResults + maxResults;
    }
  }

  /** `n` copies of `page`, one after another. */
  function Repeat<T>(page: seq<T>, n: nat): seq<T>
  {
    if n == 0 then [] else Repeat(page, n - 1) + page
  }

  /**
   * `convert_issues` as written: every search omits the start offset, so
   * each pass of the loop receives the first page again.
   */
  method ConvertIssues<T>(all: seq<T>, maxResults: nat) returns (collected: seq<T>)
    requires maxResults > 0
    ensures collected == Repeat(SearchPage(all, 0, maxResults), Pages(|all|, maxResults))
  {
    var resultLength := |all|;
    var resultIndex := 0;
    ghost var passes := 0;
    collected := [];
    while resultIndex < resultLength
      invariant Pages(resultLength, maxResults) == passes + Pages(resultLength - resultIndex, maxResults)
      invariant collected == Repeat(SearchPage(all, 0, maxResults), passes)
      decreases resultLength - resultIndex
    {
      var jiraIssues := SearchPage(all, 0, maxResults);
      collected := collected + jiraIssues;
      PagesStep(resultLength - resultIndex, maxResults);
      resultIndex := resultIndex + maxResults;
      passes := passes + 1;
    }
  }

  lemma PagesStep(total: int, maxResults: nat)
    requires maxResults > 0 && total > 0
    ensures Pages(total, maxResults) == 1 + Pages(total - maxResults, maxResults)
  {
  }

  /**
   * As soon as there are more matching issues than one page holds, the loop
   * runs twice or more, so the first page is collected twice, and the issue
   * just after it is never collected.
   */
  lemma RefetchesFirstPage<T>(all: seq<T>, maxResults: nat)
    requires 0 < maxResults < |all|
    ensures var collected := Repeat(SearchPage(all, 0, maxResults), Pages(|all|, maxResults));
      && |collected| >= 2 * maxResults
      && collected[..maxResults] == collected[maxResults..2 * maxResults] == all[..maxResults]
      && (forall j :: 0 <= j < |collected| ==> collected[j] in all[..maxResults])
  {
    var page := SearchPage(all, 0, maxResults);
    var n := Pages(|all|, maxResults);
    assert n >= 2 by {
      assert Pages(|all|, maxResults) == 1 + Pages(|all| - maxResults, maxResults);
    }
    RepeatFacts(page, n);
    assert Repeat(page, 1) == [] + page == page;
    assert Repeat(page, 2) == page + page;
    RepeatPrefix(page, 2, n);
  }

  /** Every element of a repetition comes from the repeated page. */
  lemma {:induction false} RepeatFacts<T>(page: seq<T>, n: nat)
    ensures forall j :: 0 <= j < |Repeat(page, n)| ==> Repeat(page, n)[j] in page
  {
    if n > 0 {
      RepeatFacts(page, n - 1);
    }
  }

  /** Fewer repetitions form a prefix of more. */
  lemma {:induction false} RepeatPrefix<T>(page: seq<T>, m: nat, n: nat)
    requires m <= n
    ensures |Repeat(page, m)| <= |Repeat(page, n)|
    ensures Repeat(page, m) == Repeat(page, n)[..|Repeat(page, m)|]
  {
    if m < n {
      RepeatPrefix(page, m, n - 1);
    }
  }

  /**
   * The evidently intended loop: each search starts at the running
   * offset, so the pages put together are the matching issues, each once and
   * in order.
   */
  method ConvertIssuesPaged<T>(all: seq<T>, maxResults: nat) returns (collected: seq<T>)
    requires maxResults > 0
    ensures collected == all
  {
    var resultLength := |all|;
    var resultIndex := 0;
    collected := [];
    while resultIndex < resultLength
      invariant resultIndex <= resultLength ==> collected == all[..resultIndex]
      invariant resultIndex > resultLength ==> collected == all
      decreases resultLength - resultIndex
    {
      var jiraIssues := SearchPage(all, resultIndex, maxResults);
      collected := collected + jiraIssues;
      resultIndex := resultIndex + maxResults;
    }
  }
}
