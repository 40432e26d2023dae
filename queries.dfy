/**
 * The search loop of the engine: for each query in turn, score every page
 * against it, rebuild the ranking queue and take the best pages off the
 * top. The results come back as one list of pages per query instead of
 * being printed.
 */
module Queries {
  import opened Wrappers
  import opened PageIndex
  import opened PageQueue

  /** How many pages each query reports: every page when no count is
      given, otherwise the smaller of the count and the number of pages. */
  function ResultCount(pages: nat, queryNum: Option<int>): (k: nat)
    requires queryNum.Some? ==> queryNum.value >= 0
    ensures k <= pages
    ensures queryNum.None? ==> k == pages
    ensures queryNum.Some? ==> k <= queryNum.value && (k == queryNum.value || k == pages)
  {
    if queryNum.None? then pages
    else if pages < queryNum.value then pages
    else queryNum.value
  }

  /** `results` is drawn from `pages` (each page at most as often as it
      occurs there), lists them best first by their score for `query`, and
      no page left out scores above a page listed. */
  ghost predicate BestFirst(results: seq<WebPageIndex>, pages: seq<WebPageIndex>, query: string)
  {
    multiset(results) <= multiset(pages) &&
    (forall a, b :: 0 <= a < b < |results| ==> Score(results[a].tree, query) >= Score(results[b].tree, query)) &&
    forall i, r :: 0 <= i < |pages| && multiset(results)[pages[i]] < multiset(pages)[pages[i]] && r in results ==>
      Score(r.tree, query) >= Score(pages[i].tree, query)
  }

  class ProcessQueries {
    var webPages: seq<WebPageIndex>
    var queries: seq<string>

    /** `__init__`: no pages and no queries until they are read. */
    constructor ()
      ensures webPages == [] && queries == []
    {
      webPages := [];
      queries := [];
    }

    /** `query`: nothing when there are no queries; otherwise, per query
        and in order, the best `ResultCount` pages for it. With a negative
        count the polling loop runs past the last page, `poll` returns
        `None`, and reading its file name raises an error; that case is
        excluded. */
    method Query(queryNum: Option<int>) returns (results: seq<seq<WebPageIndex>>)
      requires queryNum.Some? ==> queryNum.value >= 0
      modifies set p | p in webPages
      ensures |results| == |queries|
      ensures forall j :: 0 <= j < |results| ==> |results[j]| == ResultCount(|webPages|, queryNum)
      ensures forall j :: 0 <= j < |results| ==> BestFirst(results[j], webPages, queries[j])
      ensures |queries| == 0 ==> forall p :: p in webPages ==> p.priority == old(p.priority)
      ensures |queries| > 0 ==> forall p :: p in webPages ==> p.priority == Score(p.tree, queries[|queries| - 1])
    {
      if |queries| == 0 {
        return [];
      }
      results := Answers(webPages, queries, queryNum);
    }
  }

  /** The body of `query` once there are queries: build the queue over the
      pages, fix the count, and answer every query in order. */
  method Answers(pages: seq<WebPageIndex>, queries: seq<string>, queryNum: Option<int>) returns (results: seq<seq<WebPageIndex>>)
    requires queryNum.Some? ==> queryNum.value >= 0
    requires |queries| > 0
    modifies set p | p in pages
    ensures |results| == |queries| && Answered(results, pages, queries, ResultCount(|pages|, queryNum))
    ensures Scored(pages, queries[|queries| - 1])
  {
    var maxQueue := new WebPagePriorityQueue(pages, queries[0]);
    var num: int;
    if queryNum.None? {
      num := maxQueue.currSize;
    } else {
      num := queryNum.value;
    }
    num := if maxQueue.currSize <= num then maxQueue.currSize else num;
    assert num == ResultCount(|pages|, queryNum);
    results := AnswerAll(maxQueue, num, queries);
  }

  /** The loop of `query` over the queries, in order. */
  method AnswerAll(maxQueue: WebPagePriorityQueue, num: int, queries: seq<string>) returns (results: seq<seq<WebPageIndex>>)
    requires 0 <= num <= |maxQueue.webPages| && |queries| > 0
    modifies maxQueue`arr, maxQueue`currSize, set p | p in maxQueue.webPages
    ensures |results| == |queries| && Answered(results, maxQueue.webPages, queries, num)
    ensures Scored(maxQueue.webPages, queries[|queries| - 1])
  {
    results := [];
    for j := 0 to |queries|
      invariant |results| == j
      invariant Answered(results, maxQueue.webPages, queries, num)
      invariant j > 0 ==> Scored(maxQueue.webPages, queries[j - 1])
    {
      var best := Answer(maxQueue, num, queries[j]);
      AnsweredStep(results, best, maxQueue.webPages, queries, num);
      results := results + [best];
    }
  }

  /** The first `|results|` queries are answered, each by `num` pages
      chosen best first for it. */
  ghost predicate Answered(results: seq<seq<WebPageIndex>>, pages: seq<WebPageIndex>, queries: seq<string>, num: int)
  {
    |results| <= |queries| &&
    forall i :: 0 <= i < |results| ==> |results[i]| == num && BestFirst(results[i], pages, queries[i])
  }

  /** Answering the next query extends the answers. */
  lemma AnsweredStep(results: seq<seq<WebPageIndex>>, best: seq<WebPageIndex>, pages: seq<WebPageIndex>, queries: seq<string>, num: int)
    requires Answered(results, pages, queries, num) && |results| < |queries|
    requires |best| == num && BestFirst(best, pages, queries[|results|])
    ensures Answered(results + [best], pages, queries, num)
  {
  }

  /** Every page holds its score for `query` as its priority. */
  ghost predicate Scored(pages: seq<WebPageIndex>, query: string)
    reads set p | p in pages
  {
    forall p :: p in pages ==> p.priority == Score(p.tree, query)
  }

  /** One query of `query`: rescore the pages, rebuild the queue and poll
      the best `num` of them. */
  method Answer(maxQueue: WebPagePriorityQueue, num: int, query: string) returns (best: seq<WebPageIndex>)
    requires 0 <= num <= |maxQueue.webPages|
    modifies maxQueue`arr, maxQueue`currSize, set p | p in maxQueue.webPages
    ensures |best| == num && BestFirst(best, maxQueue.webPages, query)
    ensures Scored(maxQueue.webPages, query)
  {
    maxQueue.Reheap(query);
    best := TakeBest(maxQueue, num, query);
  }

  /** The polling loop of `query`: `num` times, poll the queue and keep
      the page. Each poll returns a page, as the queue still holds at
      least as many pages as polls remain. */
  method TakeBest(maxQueue: WebPagePriorityQueue, num: int, query: string) returns (best: seq<WebPageIndex>)
    requires maxQueue.IsHeap() && 0 <= num <= maxQueue.currSize == |maxQueue.webPages|
    requires multiset(maxQueue.Elements()) == multiset(maxQueue.webPages)
    requires forall p :: p in maxQueue.webPages ==> p.priority == Score(p.tree, query)
    modifies maxQueue`currSize, maxQueue.arr
    ensures |best| == num && BestFirst(best, maxQueue.webPages, query)
  {
    ghost var pages := maxQueue.webPages;
    TakingStart(maxQueue.Elements(), pages, query);
    best := [];
    var temp := num;
    while temp != 0
      invariant 0 <= temp <= num && |best| == num - temp
      invariant maxQueue.IsHeap() && maxQueue.currSize == |pages| - |best|
      invariant Taking(best, maxQueue.Elements(), pages, query)
      decreases temp
    {
      var page := TakeOne(maxQueue, best, pages, query);
      best := best + [page];
      temp := temp - 1;
    }
    Selected(best, maxQueue.Elements(), pages, query);
  }

  /** One round of the polling loop: poll the queue, which still holds a
      page, and the page polled extends the pages taken. */
  method TakeOne(maxQueue: WebPagePriorityQueue, ghost best: seq<WebPageIndex>, ghost pages: seq<WebPageIndex>, ghost query: string)
    returns (page: WebPageIndex)
    requires maxQueue.IsHeap() && maxQueue.currSize > 0
    requires Taking(best, maxQueue.Elements(), pages, query)
    requires forall p :: p in pages ==> p.priority == Score(p.tree, query)
    modifies maxQueue`currSize, maxQueue.arr
    ensures maxQueue.IsHeap() && maxQueue.currSize == old(maxQueue.currSize) - 1
    ensures Taking(best + [page], maxQueue.Elements(), pages, query)
  {
    ghost var before := maxQueue.Elements();
    var top := maxQueue.Poll();
    page := top;
    PollStep(best, before, maxQueue.arr[..], maxQueue.currSize, page, pages, query);
    assert maxQueue.Elements() == maxQueue.arr[..][1..maxQueue.currSize + 1];
  }

  /** Part way through the polling loop: the pages are split between the
      queue (`rest`) and the pages taken (`best`); those are best first and
      the last one taken scores at least as high as every page queued. */
  ghost predicate Taking(best: seq<WebPageIndex>, rest: seq<WebPageIndex?>, pages: seq<WebPageIndex>, query: string)
  {
    multiset(rest) + multiset(best) == multiset(pages) &&
    (forall i :: 0 <= i < |rest| ==> rest[i] != null && rest[i] in pages) &&
    (forall a, b :: 0 <= a < b < |best| ==> Score(best[a].tree, query) >= Score(best[b].tree, query)) &&
    (|best| > 0 ==> forall i :: 0 <= i < |rest| && rest[i] != null ==> Score(best[|best| - 1].tree, query) >= Score(rest[i].tree, query))
  }

  /** Before the first poll every page is queued. */
  lemma TakingStart(rest: seq<WebPageIndex?>, pages: seq<WebPageIndex>, query: string)
    requires multiset(rest) == multiset(pages)
    ensures Taking([], rest, pages, query)
  {
    forall i | 0 <= i < |rest| ensures rest[i] != null && rest[i] in pages {
      assert rest[i] in multiset(pages);
    }
  }

  /** One poll keeps the split: the page taken was queued, so it scores at
      most as the pages taken before it, and, scored by the priorities the
      pages hold, at least as the slots `1..n` of `a` left queued. */
  lemma PollStep(best: seq<WebPageIndex>, before: seq<WebPageIndex?>, a: seq<WebPageIndex?>, n: int,
                 top: WebPageIndex, pages: seq<WebPageIndex>, query: string)
    requires Taking(best, before, pages, query)
    requires 0 <= n < |a| && multiset(a[1..n + 1]) + multiset{top} == multiset(before)
    requires forall p :: p in pages ==> p.priority == Score(p.tree, query)
    requires forall i :: 1 <= i <= n ==> a[i] != null && top.priority >= a[i].priority
    ensures Taking(best + [top], a[1..n + 1], pages, query)
  {
    var after := a[1..n + 1];
    MembersStay(after, before, top, pages);
    assert top in multiset(before);
    forall i | 0 <= i < |after| && after[i] != null ensures Score(top.tree, query) >= Score(after[i].tree, query) {
      assert after[i] == a[i + 1];
    }
    TopRanksBelow(best, before, top, query);
    assert multiset(after) + multiset(best + [top]) == multiset(pages);
  }

  /** The page polled and the pages left were all queued before. */
  lemma MembersStay(after: seq<WebPageIndex?>, before: seq<WebPageIndex?>, top: WebPageIndex, pages: seq<WebPageIndex>)
    requires multiset(after) + multiset{top} == multiset(before)
    requires forall i :: 0 <= i < |before| ==> before[i] != null && before[i] in pages
    ensures top in pages
    ensures forall i :: 0 <= i < |after| ==> after[i] != null && after[i] in pages
  {
    assert top in multiset(before);
    forall i | 0 <= i < |after| ensures after[i] != null && after[i] in pages {
      assert after[i] in multiset(before);
    }
  }

  /** The page polled was queued, so appending it keeps the pages taken
      best first. */
  lemma TopRanksBelow(best: seq<WebPageIndex>, before: seq<WebPageIndex?>, top: WebPageIndex, query: string)
    requires top in before
    requires |best| > 0 ==> forall i :: 0 <= i < |before| && before[i] != null ==> Score(best[|best| - 1].tree, query) >= Score(before[i].tree, query)
    requires forall a, b :: 0 <= a < b < |best| ==> Score(best[a].tree, query) >= Score(best[b].tree, query)
    ensures forall a, b :: 0 <= a < b < |best + [top]| ==> Score((best + [top])[a].tree, query) >= Score((best + [top])[b].tree, query)
  {
    var t :| 0 <= t < |before| && before[t] == top;
    forall a, b | 0 <= a < b < |best + [top]| ensures Score((best + [top])[a].tree, query) >= Score((best + [top])[b].tree, query) {
      if b == |best| && a < |best| - 1 {
        assert Score(best[a].tree, query) >= Score(best[|best| - 1].tree, query);
      }
    }
  }

  /** When the polling stops, the pages taken are the best of the pages. */
  lemma Selected(best: seq<WebPageIndex>, rest: seq<WebPageIndex?>, pages: seq<WebPageIndex>, query: string)
    requires Taking(best, rest, pages, query)
    ensures BestFirst(best, pages, query)
  {
    forall i, r | 0 <= i < |pages| && multiset(best)[pages[i]] < multiset(pages)[pages[i]] && r in best
      ensures Score(r.tree, query) >= Score(pages[i].tree, query)
    {
      assert pages[i] in multiset(rest);
      var k :| 0 <= k < |rest| && rest[k] == pages[i];
      var j :| 0 <= j < |best| && best[j] == r;
      assert j < |best| - 1 ==> Score(best[j].tree, query) >= Score(best[|best| - 1].tree, query);
    }
  }
}
