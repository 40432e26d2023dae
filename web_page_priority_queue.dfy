/**
 * The ranking queue: a binary max-heap of pages ordered by priority, kept
 * in an array with the root at index 1 and the children of slot `i` at
 * `2 * i` and `2 * i + 1`. Slot 0 holds no page after a rebuild and serves
 * as the sentinel of an insertion.
 */
module PageQueue {
  import opened PageIndex
  import opened HeapOrder

  class WebPagePriorityQueue {
    const webPages: seq<WebPageIndex>
    var arr: array<WebPageIndex?>
    var currSize: int

    /** Slots 1 to `currSize` hold pages. */
    ghost predicate Valid()
      reads this, arr
    {
      0 <= currSize && Filled(arr[..], currSize)
    }

    /** Every parent at index `from` or deeper has a priority at least that
        of each of its children. */
    ghost predicate OrderedFrom(from: int)
      reads this, arr, arr[..]
      requires Valid()
    {
      forall p, c {:trigger ParentOf(p, c)} ::
        ParentOf(p, c) && 2 <= c <= currSize && p >= from ==> arr[p].priority >= arr[c].priority
    }

    ghost predicate IsHeap()
      reads this, arr, arr[..]
    {
      Valid() && OrderedFrom(1)
    }

    /** The pages in the heap, `arr[1..curr_size]`; later slots are stale. */
    ghost function Elements(): seq<WebPageIndex?>
      reads this, arr
      requires Valid()
    {
      arr[1..currSize + 1]
    }

    /** A ranking of the pages in the heap, and of `extra` too, by their
        current priorities. */
    lemma CurrentRanks(extra: WebPageIndex?) returns (pri: imap<WebPageIndex?, int>)
      ensures RankedBy(pri)
      ensures extra != null ==> Rank(pri, extra) == extra.priority
    {
      pri := imap x: WebPageIndex? | true :: if x == null then 0 else x.priority;
    }

    /** `pri` ranks the pages in slots 1 to `currSize` by their priorities. */
    ghost predicate RankedBy(pri: imap<WebPageIndex?, int>)
      reads this, arr, arr[..]
    {
      forall i :: 1 <= i <= currSize && i < arr.Length && arr[i] != null ==> Rank(pri, arr[i]) == arr[i].priority
    }

    /** Under such a ranking, heap order by priority is heap order by rank. */
    lemma OrderedByRanks(pri: imap<WebPageIndex?, int>, from: int)
      requires Valid() && RankedBy(pri)
      ensures OrderedFrom(from) <==> OrderedAround(arr[..], pri, currSize, from, 0)
    {
      forall i | 1 <= i <= currSize
        ensures Rank(pri, arr[..][i]) == arr[i].priority
      {
      }
    }

    /** When the array holds what `precolate_down` makes of `a0` from
        `start`, and the pairs of `a0` below `start` were ordered, the pairs
        from `start` down are ordered, and only slots `start` to `currSize`
        were rearranged. */
    lemma Percolated(pri: imap<WebPageIndex?, int>, a0: seq<WebPageIndex?>, start: int)
      requires RankedBy(pri)
      requires 0 <= currSize && 1 <= start < |a0| && Filled(a0, currSize) && OrderedAround(a0, pri, currSize, start + 1, 0)
      requires arr[..] == SiftDown(a0, pri, currSize, start, a0[start])
      ensures Valid() && OrderedFrom(start)
      ensures multiset(arr[..]) == multiset(a0)
      ensures forall i :: 0 <= i < arr.Length && (i < start || i > currSize) ==> arr[i] == a0[i]
    {
      PercolateSorts(a0, pri, currSize, start);
      OrderedByRanks(pri, start);
    }

    /** When the array holds what `poll` makes of the heap `a0` of `n`
        pages, it is a heap of the pages but the root of `a0`, each of
        priority at most the root's. */
    lemma Polled(pri: imap<WebPageIndex?, int>, a0: seq<WebPageIndex?>, n: int)
      requires RankedBy(pri) && currSize == n - 1
      requires 1 <= n < |a0| && Filled(a0, n) && OrderedAround(a0, pri, n, 1, 0)
      requires Rank(pri, a0[1]) == a0[1].priority
      requires arr[..] == SiftDown(a0[1 := a0[n]], pri, n - 1, 1, a0[n])
      ensures IsHeap()
      ensures multiset(Elements()) + multiset{a0[1]} == multiset(a0[1..n + 1])
      ensures forall i :: 1 <= i <= currSize ==> a0[1].priority >= arr[i].priority
    {
      RemoveRootSorts(a0, pri, n);
      OrderedByRanks(pri, 1);
      assert Elements() == arr[..][1..n];
      forall i | 1 <= i <= currSize ensures a0[1].priority >= arr[i].priority {
        assert arr[i] == arr[..][i];
      }
    }

    /** When the array holds what `insert` makes of the heap `a0` of `n`
        pages and the new page `x`, it is a heap of those `n + 1` pages. */
    lemma Inserted(pri: imap<WebPageIndex?, int>, a0: seq<WebPageIndex?>, n: int, x: WebPageIndex)
      requires currSize == n + 1 && 0 <= n && n + 1 < |a0| && Filled(a0, n) && OrderedAround(a0, pri, n, 1, 0)
      requires forall i :: 1 <= i <= n ==> Rank(pri, a0[i]) == a0[i].priority
      requires Rank(pri, x) == x.priority
      requires arr[..] == SiftUp(a0[0 := x], pri, n + 1, x)
      ensures IsHeap()
      ensures multiset(Elements()) == multiset(a0[1..n + 1]) + multiset{x}
    {
      InsertSorts(a0, pri, n, x);
      assert Elements() == arr[..][1..n + 2];
      forall i | 1 <= i <= currSize ensures Rank(pri, arr[i]) == arr[i].priority {
        assert arr[i] == Elements()[i - 1];
        assert arr[i] in multiset(Elements());
        if arr[i] != x {
          assert arr[i] in multiset(a0[1..n + 1]);
          var j :| 0 <= j < n && a0[1..n + 1][j] == arr[i];
          assert a0[j + 1] == arr[i];
        }
      }
      OrderedByRanks(pri, 1);
    }

    /** The root of a heap has the highest priority. */
    lemma RootIsMax(i: int)
      requires IsHeap() && 1 <= i <= currSize
      ensures arr[1].priority >= arr[i].priority
      decreases i
    {
      if i > 1 {
        assert ParentOf(i / 2, i);
        RootIsMax(i / 2);
      }
    }

    /** `__init__`: keep the pages, copy them and rebuild for `query`. */
    constructor (webPages: seq<WebPageIndex>, query: string)
      modifies set p | p in webPages
      ensures this.webPages == webPages && fresh(arr)
      ensures IsHeap() && arr[0] == null && currSize == |webPages|
      ensures multiset(Elements()) == multiset(webPages)
      ensures forall p :: p in webPages ==> p.priority == Score(p.tree, query)
    {
      this.webPages := webPages;
      arr := new WebPageIndex?[|webPages|](i requires 0 <= i < |webPages| => webPages[i]);
      currSize := |webPages|;
      new;
      Reheap(query);
    }

    /** `peek`: the root, or nothing when the heap is empty. */
    method Peek() returns (top: WebPageIndex?)
      requires IsHeap()
      ensures currSize <= 0 <==> top == null
      ensures top != null ==> top == arr[1] && forall i :: 1 <= i <= currSize ==> top.priority >= arr[i].priority
    {
      if currSize <= 0 {
        return null;
      }
      top := arr[1];
      forall i | 1 <= i <= currSize ensures top.priority >= arr[i].priority {
        RootIsMax(i);
      }
    }

    /** `poll`: take the root out, move the last page to the root and
        percolate it down. The page returned outranks every page left. */
    method Poll() returns (top: WebPageIndex?)
      requires IsHeap()
      modifies this`currSize, arr
      ensures IsHeap()
      ensures old(currSize) <= 0 ==> top == null && currSize == old(currSize) && arr[..] == old(arr[..])
      ensures old(currSize) > 0 ==> top != null && top == old(arr[1]) && currSize == old(currSize) - 1
      ensures top != null ==> multiset(Elements()) + multiset{top} == old(multiset(Elements()))
      ensures top != null ==> forall i :: 1 <= i <= currSize ==> top.priority >= arr[i].priority
    {
      if currSize <= 0 {
        return null;
      }
      top := Peek();
      ghost var pri := CurrentRanks(null);
      OrderedByRanks(pri, 1);
      ghost var a0 := arr[..];
      ghost var n := currSize;
      assert Rank(pri, a0[1]) == a0[1].priority;
      arr[1] := arr[currSize];
      currSize := currSize - 1;
      assert arr[..] == a0[1 := a0[n]];
      PercolateDown(1, pri);
      Polled(pri, a0, n);
    }

    /** `insert`, with the hole halved as an integer: the new page is the
        sentinel in slot 0 and climbs while it outranks the parent of the
        hole. There must be a slot beyond the last page. */
    method Insert(newPage: WebPageIndex)
      requires IsHeap() && currSize + 1 < arr.Length
      modifies this`currSize, arr
      ensures currSize == old(currSize) + 1
      ensures arr[0] == newPage
      ensures IsHeap()
      ensures multiset(Elements()) == old(multiset(Elements())) + multiset{newPage}
    {
      ghost var pri := CurrentRanks(newPage);
      OrderedByRanks(pri, 1);
      ghost var a0 := arr[..];
      ghost var n := currSize;
      currSize := currSize + 1;
      arr[0] := newPage;
      Climb(newPage, pri);
      Inserted(pri, a0, n, newPage);
    }

    /** The loop of `insert`: from the hole at `currSize`, move each parent
        `newPage` outranks down into the hole, then drop `newPage` into it.
        The array ends up as `SiftUp` says, whose properties `InsertSorts`
        proves. */
    method Climb(newPage: WebPageIndex, ghost pri: imap<WebPageIndex?, int>)
      requires 1 <= currSize < arr.Length && arr[0] == newPage
      requires forall i :: 0 <= i < currSize ==> arr[i] != null && Rank(pri, arr[i]) == arr[i].priority
      modifies arr
      ensures arr[..] == SiftUp(old(arr[..]), pri, currSize, newPage)
    {
      var hole := currSize;
      ghost var g := arr[..];
      ghost var a0 := g;
      while newPage.priority > arr[hole / 2].priority
        invariant |g| == arr.Length && forall i :: 0 <= i < arr.Length ==> arr[i] == g[i]
        invariant 1 <= hole <= currSize && g[0] == newPage
        invariant forall i :: 0 <= i < hole ==> g[i] != null && Rank(pri, g[i]) == g[i].priority
        invariant SiftUp(g, pri, hole, newPage) == SiftUp(a0, pri, currSize, newPage)
        decreases hole
      {
        arr[hole] := arr[hole / 2];
        g := g[hole := g[hole / 2]];
        hole := hole / 2;
      }
      assert SiftUp(g, pri, hole, newPage) == g[hole := newPage];
      arr[hole] := newPage;
      g := g[hole := newPage];
      assert arr[..] == g;
    }

    /** `precolate_down`: lift the hole at `start` down past every child
        with a strictly higher priority, taking the right child only when
        it is strictly higher than the left, then drop the saved page into
        the hole. `pri` ranks the pages in the heap by their priorities; the
        array ends up as `SiftDown` says, whose properties `PercolateSorts`
        proves. */
    method PercolateDown(start: int, ghost pri: imap<WebPageIndex?, int>)
      requires Valid() && RankedBy(pri) && 1 <= start < arr.Length
      modifies arr
      ensures arr[..] == SiftDown(old(arr[..]), pri, currSize, start, old(arr[start]))
      ensures RankedBy(pri)
    {
      ghost var a0 := arr[..];
      ghost var g := a0;
      var hole := start;
      var temp := arr[hole];
      assert start <= currSize ==> Rank(pri, temp) == temp.priority;
      while hole * 2 <= currSize
        invariant |g| == arr.Length && forall i :: 0 <= i < arr.Length ==> arr[i] == g[i]
        invariant start <= hole < arr.Length && Filled(g, currSize)
        invariant forall i :: 1 <= i <= currSize ==> Rank(pri, g[i]) == g[i].priority
        invariant SiftDown(g, pri, currSize, hole, temp) == SiftDown(a0, pri, currSize, start, temp)
        decreases currSize - hole
      {
        var child := hole * 2;
        assert Rank(pri, g[child]) == arr[child].priority;
        assert child != currSize ==> Rank(pri, g[child + 1]) == arr[child + 1].priority;
        if child != currSize && arr[child + 1].priority > arr[child].priority {
          child := child + 1;
        }
        assert child == ChildOnPath(g, pri, currSize, hole);
        if arr[child].priority > temp.priority {
          arr[hole] := arr[child];
          g := g[hole := g[child]];
          hole := child;
        } else {
          assert SiftDown(g, pri, currSize, hole, temp) == g[hole := temp];
          break;
        }
      }
      assert SiftDown(g, pri, currSize, hole, temp) == g[hole := temp];
      arr[hole] := temp;
      g := g[hole := temp];
      assert arr[..] == g;
    }

    /** `build_heap`: percolate down every parent, from `curr_size / 2`
        back to the root. */
    method BuildHeap()
      requires Valid()
      modifies arr
      ensures IsHeap()
      ensures multiset(Elements()) == old(multiset(Elements()))
      ensures forall i :: 0 <= i < arr.Length && (i < 1 || i > currSize) ==> arr[i] == old(arr[i])
    {
      ghost var pri := CurrentRanks(null);
      var i := currSize / 2;
      while i > 0
        invariant 0 <= i <= currSize / 2
        invariant Valid() && OrderedFrom(i + 1)
        invariant multiset(arr[..]) == old(multiset(arr[..]))
        invariant forall j :: 0 <= j < arr.Length && (j < 1 || j > currSize) ==> arr[j] == old(arr[j])
        invariant RankedBy(pri)
      {
        ghost var a := arr[..];
        OrderedByRanks(pri, i + 1);
        PercolateDown(i, pri);
        Percolated(pri, a, i);
        i := i - 1;
      }
      PermutationInside(arr[..], old(arr[..]), 1, currSize + 1);
    }

    /** `reheap`: a fresh array `[None] + web_pages`, every page scored
        against `query`, then a heap built over them. */
    method Reheap(query: string)
      modifies this`arr, this`currSize, set p | p in webPages
      ensures fresh(arr) && arr.Length == |webPages| + 1 && arr[0] == null && currSize == |webPages|
      ensures IsHeap()
      ensures multiset(Elements()) == multiset(webPages)
      ensures forall p :: p in webPages ==> p.priority == Score(p.tree, query)
    {
      var a := new WebPageIndex?[|webPages| + 1](i requires 0 <= i <= |webPages| =>
        if i == 0 then null else webPages[i - 1]);
      arr := a;
      currSize := |webPages|;
      for i := 1 to arr.Length
        invariant arr == a && currSize == |webPages|
        invariant arr[..] == [null] + webPages
        invariant forall j :: 1 <= j < i ==> arr[j].priority == Score(arr[j].tree, query)
      {
        arr[i].SetPriority(query);
      }
      forall p | p in webPages ensures p.priority == Score(p.tree, query) {
        var k :| 0 <= k < |webPages| && webPages[k] == p;
        assert arr[k + 1] == p;
      }
      assert Elements() == webPages;
      BuildHeap();
    }
  }
}
