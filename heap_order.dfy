/**
 * The order a binary max-heap keeps, stated over snapshots of the array:
 * slot 1 is the root and slot `c` has its parent at `c / 2`. Pages are
 * compared through a ranking that the heap operations never change, and
 * each turn of the percolate loops is proved here once and for all.
 */
module HeapOrder {
  import opened PageIndex

  /** Swapping two entries keeps the multiset. */
  lemma SwapKeepsMultiset<T>(u: seq<T>, i: int, j: int)
    requires 0 <= i < |u| && 0 <= j < |u| && i != j
    ensures multiset(u[i := u[j]][j := u[i]]) == multiset(u)
  {
    var v := u[i := u[j]];
    assert multiset(v) == multiset(u) - multiset{u[i]} + multiset{u[j]};
    assert multiset(v[j := u[i]]) == multiset(v) - multiset{u[j]} + multiset{u[i]};
  }

  /** Moving the entry at `j` into the hole at `i` and the held value `x`
      into `j` keeps the multiset of the array with `x` in the hole. */
  lemma MoveKeepsMultiset<T>(s: seq<T>, i: int, j: int, x: T)
    requires 0 <= i < |s| && 0 <= j < |s| && i != j
    ensures multiset(s[i := s[j]][j := x]) == multiset(s[i := x])
  {
    var u := s[i := x];
    assert s[i := s[j]][j := x] == u[i := u[j]][j := u[i]];
    SwapKeepsMultiset(u, i, j);
  }

  /** How many times `x` occurs in `a`. */
  ghost function Multiplicity<T>(a: seq<T>, x: T): nat
  {
    multiset(a)[x]
  }

  /** `a` and `b` hold the same pages, each as often: a permutation stated
      slot by slot, so that it is only unfolded for the slots a proof
      names. */
  ghost predicate SamePages<T>(a: seq<T>, b: seq<T>)
  {
    |a| == |b| &&
    (forall i {:trigger Multiplicity(a, a[i])} :: 0 <= i < |a| ==> Multiplicity(a, a[i]) == Multiplicity(b, a[i])) &&
    (forall i {:trigger Multiplicity(b, b[i])} :: 0 <= i < |b| ==> Multiplicity(a, b[i]) == Multiplicity(b, b[i]))
  }

  lemma SamePagesIsPermutation<T>(a: seq<T>, b: seq<T>)
    requires |a| == |b|
    ensures SamePages(a, b) <==> multiset(a) == multiset(b)
  {
    if SamePages(a, b) {
      forall x ensures multiset(a)[x] == multiset(b)[x] {
        if x in a {
          var i :| 0 <= i < |a| && a[i] == x;
          assert Multiplicity(a, a[i]) == Multiplicity(b, a[i]);
        } else if x in b {
          var i :| 0 <= i < |b| && b[i] == x;
          assert Multiplicity(a, b[i]) == Multiplicity(b, b[i]);
        }
      }
    }
  }

  lemma SamePagesTransitive<T>(a: seq<T>, b: seq<T>, c: seq<T>)
    requires SamePages(a, b) && SamePages(b, c)
    ensures SamePages(a, c)
  {
    SamePagesIsPermutation(a, b);
    SamePagesIsPermutation(b, c);
    SamePagesIsPermutation(a, c);
  }

  /** Moving the entry at `j` into the hole at `i` and `x` into `j` keeps
      the pages of the array with `x` in the hole. */
  lemma MoveKeepsPages<T>(s: seq<T>, i: int, j: int, x: T)
    requires 0 <= i < |s| && 0 <= j < |s| && i != j
    ensures SamePages(s[i := s[j]][j := x], s[i := x])
  {
    MoveKeepsMultiset(s, i, j, x);
    SamePagesIsPermutation(s[i := s[j]][j := x], s[i := x]);
  }

  /** Two sequences that are permutations of each other and agree outside
      `[lo, hi)` are permutations of each other inside it. */
  lemma PermutationInside<T>(a: seq<T>, b: seq<T>, lo: int, hi: int)
    requires 0 <= lo <= hi <= |a| == |b|
    requires multiset(a) == multiset(b)
    requires forall i :: 0 <= i < |a| && (i < lo || i >= hi) ==> a[i] == b[i]
    ensures multiset(a[lo..hi]) == multiset(b[lo..hi])
  {
    assert a == a[..lo] + a[lo..hi] + a[hi..];
    assert b == b[..lo] + b[lo..hi] + b[hi..];
    assert a[..lo] == b[..lo] && a[hi..] == b[hi..];
    Cancel(multiset(a[..lo]), multiset(a[lo..hi]), multiset(b[lo..hi]), multiset(a[hi..]));
  }

  /** Multiset union cancels on both sides. */
  lemma Cancel<T>(p: multiset<T>, x: multiset<T>, y: multiset<T>, q: multiset<T>)
    requires p + x + q == p + y + q
    ensures x == y
  {
    assert x == p + x + q - p - q;
  }

  /** The rank `pri` gives a slot's content; pages it does not list rank 0.
      The heap operations leave every page's priority alone, so they argue
      about ranks fixed on entry rather than about the changing store. */
  ghost function Rank(pri: imap<WebPageIndex?, int>, p: WebPageIndex?): int
  {
    if p in pri then pri[p] else 0
  }

  /** Slot `p` is the parent of slot `c`. */
  predicate ParentOf(p: int, c: int)
  {
    c / 2 == p
  }

  /** Slots 1 to `n` of `a` hold pages. */
  ghost predicate Filled(a: seq<WebPageIndex?>, n: int)
  {
    n < |a| && forall i :: 1 <= i <= n ==> a[i] != null
  }

  /** Every parent at index `from` or deeper outranks its children among
      slots 1 to `n`, leaving out the pairs that touch slot `skip` (0 skips
      nothing, as no parent or child index is 0). */
  ghost predicate OrderedAround(a: seq<WebPageIndex?>, pri: imap<WebPageIndex?, int>, n: int, from: int, skip: int)
  {
    forall p, c {:trigger ParentOf(p, c)} ::
      ParentOf(p, c) && 2 <= c <= n && c < |a| && p >= from && c != skip && p != skip ==>
        Rank(pri, a[p]) >= Rank(pri, a[c])
  }

  /** Priority `x` is at least that of every child of slot `h`. */
  ghost predicate Above(a: seq<WebPageIndex?>, pri: imap<WebPageIndex?, int>, n: int, x: int, h: int)
  {
    forall c {:trigger ParentOf(h, c)} :: ParentOf(h, c) && 2 <= c <= n && c < |a| ==> x >= Rank(pri, a[c])
  }

  /** The child `precolate_down` picks (the right one only when it is
      strictly higher) outranks both children. */
  lemma LargerChild(a: seq<WebPageIndex?>, pri: imap<WebPageIndex?, int>, n: int, hole: int, child: int)
    requires 1 <= hole && 2 * hole <= n < |a|
    requires child == 2 * hole || child == 2 * hole + 1 <= n
    requires child == 2 * hole && 2 * hole != n ==> Rank(pri, a[2 * hole + 1]) <= Rank(pri, a[2 * hole])
    requires child == 2 * hole + 1 ==> Rank(pri, a[child]) > Rank(pri, a[2 * hole])
    ensures Above(a, pri, n, Rank(pri, a[child]), hole)
  {
    forall c | ParentOf(hole, c) && 2 <= c <= n && c < |a|
      ensures Rank(pri, a[child]) >= Rank(pri, a[c])
    {
      assert c == 2 * hole || c == 2 * hole + 1;
    }
  }

  /** A step of `precolate_down`: copying the larger child up into the hole
      moves the hole to that child and keeps the order around it. */
  lemma SiftDownStep(a: seq<WebPageIndex?>, pri: imap<WebPageIndex?, int>, n: int, start: int, hole: int, child: int)
    requires 1 <= start <= hole && 2 * hole <= n < |a|
    requires (child == 2 * hole || child == 2 * hole + 1) && child <= n
    requires Above(a, pri, n, Rank(pri, a[child]), hole)
    requires OrderedAround(a, pri, n, start, hole)
    requires hole > start ==> Above(a, pri, n, Rank(pri, a[hole / 2]), hole)
    ensures OrderedAround(a[hole := a[child]], pri, n, start, child)
    ensures Above(a[hole := a[child]], pri, n, Rank(pri, a[child]), child)
  {
    var b := a[hole := a[child]];
    forall p, c | ParentOf(p, c) && 2 <= c <= n && c < |b| && p >= start && c != child && p != child
      ensures Rank(pri, b[p]) >= Rank(pri, b[c])
    {
      if c == hole {
        assert ParentOf(hole, child);
        assert b[p] == a[p] && b[c] == a[child];
      } else if p == hole {
        assert b[p] == a[child] && b[c] == a[c];
      } else {
        assert b[p] == a[p] && b[c] == a[c];
      }
    }
    forall c | ParentOf(child, c) && 2 <= c <= n && c < |b|
      ensures Rank(pri, a[child]) >= Rank(pri, b[c])
    {
      assert b[c] == a[c];
    }
  }

  /** A step of `insert`: copying the parent down into the hole moves the
      hole to the parent and keeps the order around it. */
  lemma SiftUpStep(a: seq<WebPageIndex?>, pri: imap<WebPageIndex?, int>, n: int, hole: int, x: int)
    requires 2 <= hole <= n < |a|
    requires x > Rank(pri, a[hole / 2])
    requires OrderedAround(a, pri, n, 1, hole)
    requires Above(a, pri, n, x, hole)
    requires Above(a, pri, n, Rank(pri, a[hole / 2]), hole)
    ensures OrderedAround(a[hole := a[hole / 2]], pri, n, 1, hole / 2)
    ensures Above(a[hole := a[hole / 2]], pri, n, x, hole / 2)
    ensures hole / 2 > 1 ==> Above(a[hole := a[hole / 2]], pri, n, Rank(pri, a[hole / 2 / 2]), hole / 2)
  {
    var b := a[hole := a[hole / 2]];
    var p := hole / 2;
    forall q, c | ParentOf(q, c) && 2 <= c <= n && c < |b| && c != p && q != p
      ensures Rank(pri, b[q]) >= Rank(pri, b[c])
    {
      if q == hole {
        assert b[q] == a[p] && b[c] == a[c];
      } else {
        assert c != hole && b[q] == a[q] && b[c] == a[c];
      }
    }
    forall c | ParentOf(p, c) && 2 <= c <= n && c < |b|
      ensures x >= Rank(pri, b[c])
    {
      if c == hole {
        assert b[c] == a[p];
      } else {
        assert b[c] == a[c] && Rank(pri, a[p]) >= Rank(pri, a[c]);
      }
    }
    if p > 1 {
      forall c | ParentOf(p, c) && 2 <= c <= n && c < |b|
        ensures Rank(pri, a[p / 2]) >= Rank(pri, b[c])
      {
        assert ParentOf(p / 2, p);
        assert Rank(pri, a[p / 2]) >= Rank(pri, a[p]);
        if c == hole {
          assert b[c] == a[p];
        } else {
          assert b[c] == a[c] && Rank(pri, a[p]) >= Rank(pri, a[c]);
        }
      }
    }
  }

  /** Dropping a page into the hole closes the order: it is at least its
      children and at most its parent. */
  lemma PlaceInHole(a: seq<WebPageIndex?>, pri: imap<WebPageIndex?, int>, n: int, start: int, hole: int, x: WebPageIndex?)
    requires 1 <= start <= hole < |a| && n < |a|
    requires OrderedAround(a, pri, n, start, hole)
    requires Above(a, pri, n, Rank(pri, x), hole)
    requires hole > start && hole <= n ==> Rank(pri, a[hole / 2]) >= Rank(pri, x)
    ensures OrderedAround(a[hole := x], pri, n, start, 0)
  {
    var b := a[hole := x];
    forall p, c | ParentOf(p, c) && 2 <= c <= n && c < |b| && p >= start
      ensures Rank(pri, b[p]) >= Rank(pri, b[c])
    {
      if c == hole {
        assert b[p] == a[p] && b[c] == x;
      } else if p == hole {
        assert b[p] == x && b[c] == a[c];
      } else {
        assert b[p] == a[p] && b[c] == a[c];
      }
    }
  }

  /** The bookkeeping inside `precolate_down`'s loop, from the array `a0`
      it started on: `temp` is held out of the hole and the rest of `a0`
      has only moved inside `[start, n]`. */
  ghost predicate SiftDownFrame(a: seq<WebPageIndex?>, a0: seq<WebPageIndex?>, pri: imap<WebPageIndex?, int>,
                                n: int, start: int, hole: int, temp: WebPageIndex?)
  {
    1 <= start <= hole < |a| == |a0| && n < |a| && (hole == start || hole <= n) &&
    (start <= n ==> temp != null) && Filled(a, n) &&
    SamePages(a[hole := temp], a0) &&
    (forall i :: 0 <= i < |a| && (i < start || i > n) ==> a[i] == a0[i]) &&
    (hole == start ==> a[hole] == temp)
  }

  /** The order inside `precolate_down`'s loop: every pair from `start`
      down that avoids the hole is ordered, and above the starting slot
      the hole's parent outranks the hole's children and `temp`. */
  ghost predicate SiftDownOrder(a: seq<WebPageIndex?>, pri: imap<WebPageIndex?, int>,
                                n: int, start: int, hole: int, temp: WebPageIndex?)
  {
    1 <= start <= hole < |a| &&
    OrderedAround(a, pri, n, start, hole) &&
    (hole > start ==> Above(a, pri, n, Rank(pri, a[hole / 2]), hole) && Rank(pri, a[hole / 2]) > Rank(pri, temp))
  }

  lemma SiftDownFrameStep(a: seq<WebPageIndex?>, a0: seq<WebPageIndex?>, pri: imap<WebPageIndex?, int>,
                          n: int, start: int, hole: int, temp: WebPageIndex?, child: int)
    requires SiftDownFrame(a, a0, pri, n, start, hole, temp) && 2 * hole <= n
    requires child == 2 * hole || child == 2 * hole + 1 <= n
    ensures SiftDownFrame(a[hole := a[child]], a0, pri, n, start, child, temp)
  {
    MoveKeepsPages(a, hole, child, temp);
    SamePagesTransitive(a[hole := a[child]][child := temp], a[hole := temp], a0);
  }

  lemma SiftDownOrderStep(a: seq<WebPageIndex?>, pri: imap<WebPageIndex?, int>,
                          n: int, start: int, hole: int, temp: WebPageIndex?, child: int)
    requires SiftDownOrder(a, pri, n, start, hole, temp) && 2 * hole <= n < |a|
    requires child == 2 * hole || child == 2 * hole + 1 <= n
    requires child == 2 * hole && 2 * hole != n ==> Rank(pri, a[2 * hole + 1]) <= Rank(pri, a[2 * hole])
    requires child == 2 * hole + 1 ==> Rank(pri, a[child]) > Rank(pri, a[2 * hole])
    requires Rank(pri, a[child]) > Rank(pri, temp)
    ensures SiftDownOrder(a[hole := a[child]], pri, n, start, child, temp)
  {
    LargerChild(a, pri, n, hole, child);
    SiftDownStep(a, pri, n, start, hole, child);
    var b := a[hole := a[child]];
    assert b[child / 2] == a[child];
  }

  /** When `precolate_down`'s loop stops, dropping `temp` into the hole
      leaves every pair from `start` down ordered and a permutation of the
      starting array. */
  lemma SiftDownDone(a: seq<WebPageIndex?>, a0: seq<WebPageIndex?>, pri: imap<WebPageIndex?, int>,
                     n: int, start: int, hole: int, temp: WebPageIndex?)
    requires SiftDownFrame(a, a0, pri, n, start, hole, temp) && SiftDownOrder(a, pri, n, start, hole, temp)
    requires Above(a, pri, n, Rank(pri, temp), hole)
    ensures Filled(a[hole := temp], n) && OrderedAround(a[hole := temp], pri, n, start, 0)
    ensures multiset(a[hole := temp]) == multiset(a0)
    ensures forall i :: 0 <= i < |a| && (i < start || i > n) ==> a[hole := temp][i] == a0[i]
  {
    PlaceInHole(a, pri, n, start, hole, temp);
    SamePagesIsPermutation(a[hole := temp], a0);
  }

  /** The child of `hole` that `precolate_down` compares with the page it
      holds: the right one only when it is strictly higher than the left. */
  ghost function ChildOnPath(a: seq<WebPageIndex?>, pri: imap<WebPageIndex?, int>, n: int, hole: int): (child: int)
    requires 1 <= hole && hole * 2 <= n < |a|
    ensures child == 2 * hole || child == 2 * hole + 1 <= n
  {
    if hole * 2 != n && Rank(pri, a[hole * 2 + 1]) > Rank(pri, a[hole * 2]) then hole * 2 + 1 else hole * 2
  }

  /** The array `precolate_down` leaves behind when the hole is at `hole`
      and `temp` is held out: while the hole has children, the larger one
      (the right child only when it is strictly higher) moves up if it
      strictly outranks `temp`; then `temp` drops into the hole. */
  ghost function SiftDown(a: seq<WebPageIndex?>, pri: imap<WebPageIndex?, int>, n: int, hole: int, temp: WebPageIndex?): (r: seq<WebPageIndex?>)
    requires 1 <= hole < |a| && n < |a|
    ensures |r| == |a|
    decreases n - hole
  {
    if hole * 2 > n then a[hole := temp]
    else
      var child := ChildOnPath(a, pri, n, hole);
      if Rank(pri, a[child]) > Rank(pri, temp) then SiftDown(a[hole := a[child]], pri, n, child, temp)
      else a[hole := temp]
  }

  /** Whatever state `precolate_down`'s loop is in, finishing it yields
      slots 1 to `n` filled, every pair from `start` down ordered, the
      pages of `a0` and nothing moved outside `[start, n]`. */
  lemma {:induction false} SiftDownSorts(a: seq<WebPageIndex?>, a0: seq<WebPageIndex?>, pri: imap<WebPageIndex?, int>,
                                         n: int, start: int, hole: int, temp: WebPageIndex?)
    requires SiftDownFrame(a, a0, pri, n, start, hole, temp) && SiftDownOrder(a, pri, n, start, hole, temp)
    ensures var r := SiftDown(a, pri, n, hole, temp);
      Filled(r, n) && OrderedAround(r, pri, n, start, 0) && multiset(r) == multiset(a0) &&
      forall i :: 0 <= i < |a| && (i < start || i > n) ==> r[i] == a0[i]
    decreases n - hole
  {
    if hole * 2 > n {
      SiftDownDone(a, a0, pri, n, start, hole, temp);
    } else {
      var child := ChildOnPath(a, pri, n, hole);
      if Rank(pri, a[child]) > Rank(pri, temp) {
        SiftDownFrameStep(a, a0, pri, n, start, hole, temp, child);
        SiftDownOrderStep(a, pri, n, start, hole, temp, child);
        SiftDownSorts(a[hole := a[child]], a0, pri, n, start, child, temp);
      } else {
        LargerChild(a, pri, n, hole, child);
        SiftDownDone(a, a0, pri, n, start, hole, temp);
      }
    }
  }

  /** `precolate_down` from `start`, given every pair below `start` ordered,
      orders every pair from `start` down and only rearranges the pages in
      slots `start` to `n`. */
  lemma PercolateSorts(a: seq<WebPageIndex?>, pri: imap<WebPageIndex?, int>, n: int, start: int)
    requires 1 <= start < |a| && Filled(a, n) && OrderedAround(a, pri, n, start + 1, 0)
    ensures var r := SiftDown(a, pri, n, start, a[start]);
      Filled(r, n) && OrderedAround(r, pri, n, start, 0) && multiset(r) == multiset(a) &&
      forall i :: 0 <= i < |a| && (i < start || i > n) ==> r[i] == a[i]
  {
    assert a[start := a[start]] == a;
    SiftDownSorts(a, a, pri, n, start, start, a[start]);
  }

  /** Replacing the root and dropping slots beyond `m` keeps every pair
      below the root ordered. */
  lemma OrderedBelowRoot(a: seq<WebPageIndex?>, b: seq<WebPageIndex?>, pri: imap<WebPageIndex?, int>, n: int, m: int)
    requires OrderedAround(a, pri, n, 1, 0) && m <= n && m < |b| == |a|
    requires forall i :: 2 <= i <= m ==> b[i] == a[i]
    ensures OrderedAround(b, pri, m, 2, 0)
  {
    forall p, c | ParentOf(p, c) && 2 <= c <= m && c < |b| && p >= 2
      ensures Rank(pri, b[p]) >= Rank(pri, b[c])
    {
      assert 2 <= p <= m && b[p] == a[p] && b[c] == a[c];
    }
  }

  /** A bound on the ranks of some pages survives rearranging them. */
  lemma BoundPermuted(xs: seq<WebPageIndex?>, ys: seq<WebPageIndex?>, pri: imap<WebPageIndex?, int>, r: int)
    requires multiset(xs) == multiset(ys)
    requires forall k :: 0 <= k < |ys| ==> Rank(pri, ys[k]) <= r
    ensures forall k :: 0 <= k < |xs| ==> Rank(pri, xs[k]) <= r
  {
    forall k | 0 <= k < |xs| ensures Rank(pri, xs[k]) <= r {
      assert xs[k] in multiset(ys);
      var j :| 0 <= j < |ys| && ys[j] == xs[k];
    }
  }

  /** The root of a heap outranks every page in it. */
  lemma {:induction false} RootOutranks(a: seq<WebPageIndex?>, pri: imap<WebPageIndex?, int>, n: int, i: int)
    requires OrderedAround(a, pri, n, 1, 0) && 1 <= i <= n < |a|
    ensures Rank(pri, a[i]) <= Rank(pri, a[1])
    decreases i
  {
    if i > 1 {
      assert ParentOf(i / 2, i);
      RootOutranks(a, pri, n, i / 2);
    }
  }

  /** Moving the last of slots 1 to `n` onto the root loses the root and
      nothing else. */
  lemma LastToRoot<T>(a: seq<T>, n: int)
    requires 1 <= n < |a|
    ensures multiset(a[1 := a[n]][1..n]) + multiset{a[1]} == multiset(a[1..n + 1])
  {
    if n > 1 {
      assert a[1 := a[n]][1..n] == [a[n]] + a[2..n];
      assert a[1..n + 1] == [a[1]] + a[2..n] + [a[n]];
    } else {
      assert a[1..n + 1] == [a[1]];
    }
  }

  /** After the last page moves onto the root, the root taken out still
      outranks every page of the `n - 1` slots left. */
  lemma RootOutranksMoved(a: seq<WebPageIndex?>, moved: seq<WebPageIndex?>, pri: imap<WebPageIndex?, int>, n: int)
    requires 1 <= n < |a| && OrderedAround(a, pri, n, 1, 0) && moved == a[1 := a[n]]
    ensures forall k :: 0 <= k < n - 1 ==> Rank(pri, moved[1..n][k]) <= Rank(pri, a[1])
  {
    forall k | 0 <= k < n - 1 ensures Rank(pri, moved[1..n][k]) <= Rank(pri, a[1]) {
      assert moved[1..n][k] == moved[k + 1];
      RootOutranks(a, pri, n, if k == 0 then n else k + 1);
    }
  }

  /** What `poll` makes of a heap `a` of `n` pages: the last page moves to
      the root and percolates down through the `n - 1` slots left. The
      result is a heap of the other pages, each ranked at most as the
      root taken out. */
  lemma RemoveRootSorts(a: seq<WebPageIndex?>, pri: imap<WebPageIndex?, int>, n: int)
    requires 1 <= n < |a| && Filled(a, n) && OrderedAround(a, pri, n, 1, 0)
    ensures var r := SiftDown(a[1 := a[n]], pri, n - 1, 1, a[n]);
      Filled(r, n - 1) && OrderedAround(r, pri, n - 1, 1, 0) &&
      multiset(r[1..n]) + multiset{a[1]} == multiset(a[1..n + 1]) &&
      (forall i :: 1 <= i < n ==> Rank(pri, r[i]) <= Rank(pri, a[1])) &&
      forall i :: 0 <= i < |a| && (i < 1 || i >= n) ==> r[i] == a[1 := a[n]][i]
  {
    var moved := a[1 := a[n]];
    var r := SiftDown(moved, pri, n - 1, 1, a[n]);
    OrderedBelowRoot(a, moved, pri, n, n - 1);
    PercolateSorts(moved, pri, n - 1, 1);
    PermutationInside(r, moved, 1, n);
    LastToRoot(a, n);
    RootOutranksMoved(a, moved, pri, n);
    BoundPermuted(r[1..n], moved[1..n], pri, Rank(pri, a[1]));
    forall i | 1 <= i < n ensures Rank(pri, r[i]) <= Rank(pri, a[1]) {
      assert r[i] == r[1..n][i - 1];
    }
  }

  /** The bookkeeping inside `insert`'s loop: `x` is the sentinel in slot 0
      and waits to go into the hole; with `x` there the array is a
      permutation of `ref` and unchanged beyond `n`. */
  ghost predicate SiftUpFrame(a: seq<WebPageIndex?>, ref: seq<WebPageIndex?>, pri: imap<WebPageIndex?, int>,
                              n: int, hole: int, x: WebPageIndex)
  {
    1 <= hole <= n < |a| == |ref| && a[0] == x && ref[0] == x &&
    (forall i :: 1 <= i <= n && i != hole ==> a[i] != null) &&
    SamePages(a[hole := x], ref) &&
    (forall i :: n < i < |a| ==> a[i] == ref[i])
  }

  /** The order inside `insert`'s loop: every pair that avoids the hole is
      ordered, `x` outranks the hole's children and so does the hole's
      parent. */
  ghost predicate SiftUpOrder(a: seq<WebPageIndex?>, pri: imap<WebPageIndex?, int>, n: int, hole: int, x: WebPageIndex)
  {
    1 <= hole < |a| &&
    OrderedAround(a, pri, n, 1, hole) &&
    Above(a, pri, n, Rank(pri, x), hole) &&
    (hole > 1 ==> Above(a, pri, n, Rank(pri, a[hole / 2]), hole))
  }

  lemma SiftUpFrameStep(a: seq<WebPageIndex?>, ref: seq<WebPageIndex?>, pri: imap<WebPageIndex?, int>,
                        n: int, hole: int, x: WebPageIndex)
    requires SiftUpFrame(a, ref, pri, n, hole, x) && hole >= 2
    ensures SiftUpFrame(a[hole := a[hole / 2]], ref, pri, n, hole / 2, x)
  {
    MoveKeepsPages(a, hole, hole / 2, x);
    SamePagesTransitive(a[hole := a[hole / 2]][hole / 2 := x], a[hole := x], ref);
  }

  lemma SiftUpOrderStep(a: seq<WebPageIndex?>, pri: imap<WebPageIndex?, int>, n: int, hole: int, x: WebPageIndex)
    requires SiftUpOrder(a, pri, n, hole, x) && 2 <= hole <= n < |a|
    requires Rank(pri, x) > Rank(pri, a[hole / 2])
    ensures SiftUpOrder(a[hole := a[hole / 2]], pri, n, hole / 2, x)
  {
    SiftUpStep(a, pri, n, hole, Rank(pri, x));
  }

  /** When `insert`'s loop stops, dropping `x` into the hole gives an
      ordered permutation of `ref` that agrees with it outside `[1, n]`. */
  lemma SiftUpDone(a: seq<WebPageIndex?>, ref: seq<WebPageIndex?>, pri: imap<WebPageIndex?, int>,
                   n: int, hole: int, x: WebPageIndex)
    requires SiftUpFrame(a, ref, pri, n, hole, x) && SiftUpOrder(a, pri, n, hole, x)
    requires Rank(pri, a[hole / 2]) >= Rank(pri, x)
    ensures Filled(a[hole := x], n) && OrderedAround(a[hole := x], pri, n, 1, 0)
    ensures multiset(a[hole := x]) == multiset(ref)
    ensures forall i :: 0 <= i < |a| && (i < 1 || i > n) ==> a[hole := x][i] == ref[i]
  {
    PlaceInHole(a, pri, n, 1, hole, x);
    SamePagesIsPermutation(a[hole := x], ref);
  }

  /** What `insert`'s loop makes of the array `a` with the new page `x` as
      the sentinel in slot 0 and the hole at `hole`: while `x` outranks the
      parent of the hole, the parent moves down into it; then `x` fills the
      hole. The sentinel stops the climb at the root. */
  ghost function SiftUp(a: seq<WebPageIndex?>, pri: imap<WebPageIndex?, int>, hole: int, x: WebPageIndex): (r: seq<WebPageIndex?>)
    requires 1 <= hole < |a| && a[0] == x
    ensures |r| == |a| && r[0] == x
    decreases hole
  {
    if Rank(pri, x) > Rank(pri, a[hole / 2]) then SiftUp(a[hole := a[hole / 2]], pri, hole / 2, x)
    else a[hole := x]
  }

  /** From any state of `insert`'s loop, the climb ends in an ordered
      permutation of `ref` that agrees with it outside `[1, n]`. */
  lemma {:induction false} SiftUpSorts(a: seq<WebPageIndex?>, ref: seq<WebPageIndex?>, pri: imap<WebPageIndex?, int>,
                                       n: int, hole: int, x: WebPageIndex)
    requires SiftUpFrame(a, ref, pri, n, hole, x) && SiftUpOrder(a, pri, n, hole, x)
    ensures var r := SiftUp(a, pri, hole, x);
      Filled(r, n) && OrderedAround(r, pri, n, 1, 0) && multiset(r) == multiset(ref) &&
      forall i :: 0 <= i < |a| && (i < 1 || i > n) ==> r[i] == ref[i]
    decreases hole
  {
    if Rank(pri, x) > Rank(pri, a[hole / 2]) {
      SiftUpFrameStep(a, ref, pri, n, hole, x);
      SiftUpOrderStep(a, pri, n, hole, x);
      SiftUpSorts(a[hole := a[hole / 2]], ref, pri, n, hole / 2, x);
    } else {
      SiftUpDone(a, ref, pri, n, hole, x);
    }
  }

  /** The state `insert`'s loop starts from: `x` is the sentinel, the hole
      is the free slot `n + 1`, and every pair of the heap avoids it. */
  lemma InsertStart(a: seq<WebPageIndex?>, pri: imap<WebPageIndex?, int>, n: int, x: WebPageIndex)
    requires 0 <= n && n + 1 < |a| && Filled(a, n) && OrderedAround(a, pri, n, 1, 0)
    ensures SiftUpFrame(a[0 := x], a[n + 1 := x][0 := x], pri, n + 1, n + 1, x)
    ensures SiftUpOrder(a[0 := x], pri, n + 1, n + 1, x)
  {
    var b := a[0 := x];
    assert b[n + 1 := x] == a[n + 1 := x][0 := x];
    SamePagesIsPermutation(b[n + 1 := x], b[n + 1 := x]);
    forall p, c | ParentOf(p, c) && 2 <= c <= n + 1 && c < |b| && p >= 1 && c != n + 1 && p != n + 1
      ensures Rank(pri, b[p]) >= Rank(pri, b[c])
    {
      assert b[p] == a[p] && b[c] == a[c];
    }
  }

  /** `insert` on a heap `a` of `n` pages with a free slot `n + 1`: the
      climb from that slot yields a heap of the `n` pages and `x`, and
      leaves the slots beyond alone. */
  lemma InsertSorts(a: seq<WebPageIndex?>, pri: imap<WebPageIndex?, int>, n: int, x: WebPageIndex)
    requires 0 <= n && n + 1 < |a| && Filled(a, n) && OrderedAround(a, pri, n, 1, 0)
    ensures var r := SiftUp(a[0 := x], pri, n + 1, x);
      Filled(r, n + 1) && OrderedAround(r, pri, n + 1, 1, 0) &&
      multiset(r[1..n + 2]) == multiset(a[1..n + 1]) + multiset{x} &&
      forall i :: n + 1 < i < |a| ==> r[i] == a[i]
  {
    var ref := a[n + 1 := x][0 := x];
    InsertStart(a, pri, n, x);
    SiftUpSorts(a[0 := x], ref, pri, n + 1, n + 1, x);
    PermutationInside(SiftUp(a[0 := x], pri, n + 1, x), ref, 1, n + 2);
    assert ref[1..n + 2] == a[1..n + 1] + [x];
  }
}
