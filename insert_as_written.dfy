/**
 * When `insert` of the ranking queue, as it is written, succeeds and what
 * it then stores, over the priorities of the array's slots. Python's `/` always yields a float, so
 * after one move of the hole, `hole /= 2` leaves a float index, and
 * storing into a list at a float index raises a TypeError; storing past
 * the end of the list raises an IndexError. Either error is `None` here,
 * without the stores made before it.
 * The corrected insertion, with integer halving, is
 * `PageQueue.WebPagePriorityQueue.Insert`.
 */
module InsertAsWritten {
  import opened Wrappers

  /** A Python number used as a list index. */
  datatype Num = Int(i: int) | Float(f: real)

  /** `hole` holds a non-negative number. */
  predicate NonNegative(hole: Num)
  {
    match hole
    case Int(i) => i >= 0
    case Float(f) => f >= 0.0
  }

  /** `int(hole / 2)`: true division, then truncation toward zero. */
  function IntHalf(hole: Num): (h: int)
    requires NonNegative(hole)
    ensures 0 <= h
    ensures hole.Int? ==> h == hole.i / 2
  {
    match hole
    case Int(i) => i / 2
    case Float(f) => (f / 2.0).Floor
  }

  /** `hole /= 2`: always a float. */
  function Halve(hole: Num): (r: Num)
    requires NonNegative(hole)
    ensures r.Float? && NonNegative(r)
  {
    match hole
    case Int(i) => Float(i as real / 2.0)
    case Float(f) => Float(f / 2.0)
  }

  /** `a[hole] = v`: a TypeError for a float index, an IndexError past the
      end of the list. */
  function Store(a: seq<int>, hole: Num, v: int): (r: Option<seq<int>>)
    requires NonNegative(hole)
    ensures r.Some? <==> hole.Int? && hole.i < |a|
    ensures r.Some? ==> r.value == a[hole.i := v]
  {
    match hole
    case Float(_) => None
    case Int(i) => if i < |a| then Some(a[i := v]) else None
  }

  /** The loop of `insert` and the store after it, from the hole at `hole`
      with the new page's priority `x` in the sentinel slot 0. */
  function Sift(a: seq<int>, hole: Num, x: int): (r: Option<seq<int>>)
    requires NonNegative(hole) && IntHalf(hole) < |a|
    ensures r.Some? ==> |r.value| == |a|
    decreases if hole.Int? then 1 else 0
  {
    var parent := IntHalf(hole);
    if x > a[parent] then
      match Store(a, hole, a[parent])
      case None => None
      case Some(b) => if IntHalf(Halve(hole)) < |b| then Sift(b, Halve(hole), x) else None
    else Store(a, hole, x)
  }

  /** `insert` on a list `a` of priorities whose slots 1 to `n` form the
      heap, for a new page of priority `x`. */
  function Insert(a: seq<int>, n: nat, x: int): (r: Option<seq<int>>)
    requires (n + 1) / 2 < |a|
    ensures r.Some? ==> |r.value| == |a|
  {
    Sift(a[0 := x], Int(n + 1), x)
  }

  /** As written, `insert` succeeds only when the new page does not
      outrank its first parent and the list has a slot after the heap, and
      then it only stores the page there: it never moves a page up. */
  lemma InsertFailsUnlessStill(a: seq<int>, n: nat, x: int)
    requires (n + 1) / 2 < |a|
    ensures Insert(a, n, x).Some? <==> n + 1 < |a| && !(x > a[0 := x][(n + 1) / 2])
    ensures Insert(a, n, x).Some? ==> Insert(a, n, x).value == a[0 := x][n + 1 := x]
  {
    var a0 := a[0 := x];
    var parent := (n + 1) / 2;
    if x > a0[parent] {
      var moved := Store(a0, Int(n + 1), a0[parent]);
      if moved.Some? {
        var hole := Halve(Int(n + 1));
        if IntHalf(hole) < |moved.value| {
          assert Sift(moved.value, hole, x).None?;
        }
      }
    }
  }

  /** A root of priority 1 and a spare slot: inserting a page of priority
      2, which belongs at the root, fails. */
  lemma RisingPageFails()
    ensures Insert([0, 1, 0], 1, 2) == None
  {
    InsertFailsUnlessStill([0, 1, 0], 1, 2);
  }
}
