/** Pagination of the final result list: the page count and the slice of
    results shown on one page. */
module Pagination {

  /** `RESULTS_PER_PAGE`: 4 cards by 12 rows. */
  const ResultsPerPage: nat := 48

  /** `total_pages = max(1, (total_results + RESULTS_PER_PAGE - 1) // RESULTS_PER_PAGE)`. */
  function TotalPages(total: nat): (pages: nat)
    ensures pages >= 1
    ensures total == 0 ==> pages == 1
    ensures total > 0 ==> (pages - 1) * ResultsPerPage < total <= pages * ResultsPerPage
  {
    var p := (total + ResultsPerPage - 1) / ResultsPerPage;
    if p > 1 then p else 1
  }

  /** Python's clamping of a non-negative slice bound to the length. */
  function Clamp(bound: nat, length: nat): nat {
    if bound < length then bound else length
  }

  /** `results_all[start:end]` with `start = (page - 1) * RESULTS_PER_PAGE`
      and `end = start + RESULTS_PER_PAGE`. */
  function PageSlice<T>(results: seq<T>, page: nat): (items: seq<T>)
    requires page >= 1
    ensures var start := (page - 1) * ResultsPerPage;
      && |items| == (if |results| <= start then 0
                     else if |results| - start < ResultsPerPage then |results| - start
                     else ResultsPerPage)
      && forall k :: 0 <= k < |items| ==> items[k] == results[start + k]
  {
    var start := (page - 1) * ResultsPerPage;
    var end := start + ResultsPerPage;
    results[Clamp(start, |results|)..Clamp(end, |results|)]
  }

  /** A page past the last one is empty (and not an error). */
  lemma PageBeyondLastIsEmpty<T>(results: seq<T>, page: nat)
    requires page > TotalPages(|results|)
    ensures PageSlice(results, page) == []
  {
    var n := TotalPages(|results|);
    assert (page - 1) * ResultsPerPage >= n * ResultsPerPage;
  }

  /** Every page up to the last one is non-empty when there are results. */
  lemma PagesUpToLastAreFull<T>(results: seq<T>, page: nat)
    requires |results| > 0 && 1 <= page <= TotalPages(|results|)
    ensures |PageSlice(results, page)| > 0
    ensures page < TotalPages(|results|) ==> |PageSlice(results, page)| == ResultsPerPage
  {
    var n := TotalPages(|results|);
    assert (page - 1) * ResultsPerPage <= (n - 1) * ResultsPerPage;
    if page < n {
      assert page * ResultsPerPage <= (n - 1) * ResultsPerPage;
    }
  }

  /** Pages 1 to `count`, one after the other. */
  function Pages<T>(results: seq<T>, count: nat): seq<T>
    decreases count
  {
    if count == 0 then [] else Pages(results, count - 1) + PageSlice(results, count)
  }

  /** The first `count` pages are the first `count * 48` results. */
  lemma {:induction false} PagesArePrefix<T>(results: seq<T>, count: nat)
    ensures Pages(results, count) == results[..Clamp(count * ResultsPerPage, |results|)]
    decreases count
  {
    if count > 0 {
      PagesArePrefix(results, count - 1);
      var lo := Clamp((count - 1) * ResultsPerPage, |results|);
      var hi := Clamp(count * ResultsPerPage, |results|);
      assert PageSlice(results, count) == results[lo..hi];
      assert results[..lo] + results[lo..hi] == results[..hi];
    }
  }

  /** Concatenating pages 1 to `total_pages` gives back every result, in order. */
  lemma PagesCoverResults<T>(results: seq<T>)
    ensures Pages(results, TotalPages(|results|)) == results
  {
    PagesArePrefix(results, TotalPages(|results|));
    assert results[..|results|] == results;
  }
}
