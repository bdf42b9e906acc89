/** What the three example algorithms compute when every comparison is
    answered truthfully under an order `gt`, as reference functions, and the
    proofs that each of them permutes its input and, when `gt` is a strict
    weak order such as Python's string order, sorts it. */
module Sorting {
  import opened Extra

  /** "Greater than" between two elements: the question each algorithm asks. */
  type Order = (string, string) -> bool

  /** `x` and `y` are not each greater than the other. */
  ghost predicate NotBoth(gt: Order, x: string, y: string)
  {
    gt(x, y) ==> !gt(y, x)
  }

  /** "Not greater" carries over from `x`, `y` and `y`, `z` to `x`, `z`. */
  ghost predicate NotGreaterChains(gt: Order, x: string, y: string, z: string)
  {
    !gt(x, y) && !gt(y, z) ==> !gt(x, z)
  }

  /** `gt` is the "greater than" of a strict weak order: never both ways, and
      "not greater" is transitive. Proofs call on the two properties for
      particular elements by mentioning `NotBoth` and `NotGreaterChains`. */
  ghost predicate StrictWeakOrder(gt: Order)
  {
    && (forall x, y :: NotBoth(gt, x, y))
    && (forall x, y, z :: NotGreaterChains(gt, x, y, z))
  }

  /** Python's `>` on strings is such an order. */
  lemma StringOrderIsStrictWeak()
    ensures StrictWeakOrder(StrGt)
  {
    forall x, y
      ensures NotBoth(StrGt, x, y)
    {
      StrGtAsymmetric(x, y);
    }
    forall x, y, z
      ensures NotGreaterChains(StrGt, x, y, z)
    {
      StrGeTransitive(x, y, z);
    }
  }

  /** Ascending under `gt`: no element is greater than one after it. */
  predicate Ascending(d: seq<string>, gt: Order)
  {
    forall a, b :: 0 <= a < b < |d| ==> !gt(d[a], d[b])
  }

  /** The elements from position `k` on are in ascending order. */
  predicate SortedFrom(d: seq<string>, k: int, gt: Order)
  {
    forall a, b :: 0 <= k <= a < b < |d| ==> !gt(d[a], d[b])
  }

  /** No element before position `k` is greater than an element from `k` on. */
  predicate Partitioned(d: seq<string>, k: int, gt: Order)
  {
    forall a, b :: 0 <= a < k <= b < |d| ==> !gt(d[a], d[b])
  }

  /** The element at `j` is a largest one of `d[..j + 1]`. */
  predicate MaxAt(d: seq<string>, j: int, gt: Order)
  {
    forall a :: 0 <= a < j < |d| ==> !gt(d[a], d[j])
  }

  /** Midway through a bubble-sort pass: the suffix from `k` is sorted and
      bounds the rest, and `d[j]` is a largest element of `d[..j + 1]`. */
  predicate PassState(d: seq<string>, k: int, j: int, gt: Order)
  {
    SortedFrom(d, k, gt) && Partitioned(d, k, gt) && MaxAt(d, j, gt)
  }

  function Swap(d: seq<string>, x: nat, y: nat): (r: seq<string>)
    requires x < |d| && y < |d|
    ensures |r| == |d| && r[x] == d[y] && r[y] == d[x]
    ensures forall k :: 0 <= k < |d| && k != x && k != y ==> r[k] == d[k]
  {
    d[x := d[y]][y := d[x]]
  }

  lemma SwapPermutes(d: seq<string>, x: nat, y: nat)
    requires x < |d| && y < |d|
    ensures multiset(Swap(d, x, y)) == multiset(d)
  {
  }

  /** 0 + 1 + ... + (m - 1): the number of pairs below `m`. */
  function Tri(m: nat): nat
  {
    if m == 0 then 0 else Tri(m - 1) + (m - 1)
  }

  lemma {:induction false} TriClosedForm(m: nat)
    ensures 2 * Tri(m) == m * (m - 1)
  {
    if m > 0 {
      TriClosedForm(m - 1);
    }
  }

  // ---------------------------------------------------------------- bubble sort

  /** The comparisons bubble sort still asks when its next pass is `i`: one
      pass for each of `i`, `i - 1`, ..., 0, the pass `k` asking `k + 1`. */
  function PassesLeft(i: int): (r: int)
    decreases i + 1
  {
    if i < 0 then 0 else PassesLeft(i - 1) + i + 1
  }

  lemma {:induction false} PassesLeftTri(i: int)
    requires i >= -2
    ensures PassesLeft(i) == Tri(i + 2)
    decreases i + 2
  {
    if i >= 0 {
      PassesLeftTri(i - 1);
    }
  }

  /** One step of bubble sort's inner loop: swap `d[j]` and `d[j + 1]` when the first is greater. */
  function BubbleStep(d: seq<string>, j: nat, gt: Order): (r: seq<string>)
    requires j + 1 < |d|
    ensures |r| == |d|
  {
    if gt(d[j], d[j + 1]) then Swap(d, j, j + 1) else d
  }

  /** The inner loop run for `j` from 0 to `k - 1`. */
  function BubblePass(d: seq<string>, k: nat, gt: Order): (r: seq<string>)
    requires k < |d|
    ensures |r| == |d|
  {
    if k == 0 then d else BubbleStep(BubblePass(d, k - 1, gt), k - 1, gt)
  }

  lemma BubbleStepPermutes(d: seq<string>, j: nat, gt: Order)
    requires j + 1 < |d|
    ensures multiset(BubbleStep(d, j, gt)) == multiset(d)
  {
    SwapPermutes(d, j, j + 1);
  }

  lemma {:induction false} BubblePassPermutes(d: seq<string>, k: nat, gt: Order)
    requires k < |d|
    ensures multiset(BubblePass(d, k, gt)) == multiset(d)
  {
    if k > 0 {
      var e := BubblePass(d, k - 1, gt);
      BubblePassPermutes(d, k - 1, gt);
      BubbleStepPermutes(e, k - 1, gt);
      assert BubblePass(d, k, gt) == BubbleStep(e, k - 1, gt);
    }
  }

  /** The outer loop run for `i` from the given value down to 0. */
  function BubbleFrom(d: seq<string>, i: int, gt: Order): (r: seq<string>)
    requires -2 <= i < |d| - 1
    ensures |r| == |d|
    decreases i + 2
  {
    if i < 0 then d else BubbleFrom(BubblePass(d, i + 1, gt), i - 1, gt)
  }

  lemma {:induction false} BubbleFromPermutes(d: seq<string>, i: int, gt: Order)
    requires -2 <= i < |d| - 1
    ensures multiset(BubbleFrom(d, i, gt)) == multiset(d)
    decreases i + 2
  {
    if i >= 0 {
      BubblePassPermutes(d, i + 1, gt);
      BubbleFromPermutes(BubblePass(d, i + 1, gt), i - 1, gt);
    }
  }

  /** `BubbleSort.algorithm` with truthful answers. */
  function BubbleSorted(d: seq<string>, gt: Order): seq<string>
  {
    BubbleFrom(d, |d| - 2, gt)
  }

  /** One step keeps the sorted suffix from `k` and carries a largest element of the prefix right. */
  lemma StepKeeps(d: seq<string>, j: nat, k: nat, gt: Order)
    requires StrictWeakOrder(gt) && j + 1 < k <= |d| && PassState(d, k, j, gt)
    ensures PassState(BubbleStep(d, j, gt), k, j + 1, gt)
  {
    var r := BubbleStep(d, j, gt);
    assert NotBoth(gt, d[j], d[j + 1]);
    forall a | 0 <= a < j + 1
      ensures !gt(r[a], r[j + 1])
    {
      if a < j {
        assert NotGreaterChains(gt, d[a], d[j], d[j + 1]);
      }
    }
    forall a, b | 0 <= a < k <= b < |d|
      ensures !gt(r[a], r[b])
    {
      if a == j {
        assert r[a] == d[j] || r[a] == d[j + 1];
      } else if a == j + 1 {
        assert r[a] == d[j] || r[a] == d[j + 1];
      }
    }
  }

  /** Up to `k - 1`, the pass leaves a largest element of `d[..j + 1]` at `j`. */
  lemma {:induction false} PassCarriesMax(d: seq<string>, j: nat, k: nat, gt: Order)
    requires StrictWeakOrder(gt) && j < k <= |d| && SortedFrom(d, k, gt) && Partitioned(d, k, gt)
    ensures PassState(BubblePass(d, j, gt), k, j, gt)
  {
    if j > 0 {
      var e := BubblePass(d, j - 1, gt);
      PassCarriesMax(d, j - 1, k, gt);
      StepKeeps(e, j - 1, k, gt);
      assert BubblePass(d, j, gt) == BubbleStep(e, j - 1, gt);
    }
  }

  /** After a full pass the sorted suffix grows by one place. */
  lemma PassDone(d: seq<string>, k: nat, gt: Order)
    requires 0 < k <= |d| && PassState(d, k, k - 1, gt)
    ensures SortedFrom(d, k - 1, gt) && Partitioned(d, k - 1, gt)
  {
    forall a, b | 0 <= a < k - 1 <= b < |d|
      ensures !gt(d[a], d[b])
    {
      if b == k - 1 {
        assert MaxAt(d, k - 1, gt);
      }
    }
    forall a, b | 0 <= k - 1 <= a < b < |d|
      ensures !gt(d[a], d[b])
    {
      if a == k - 1 {
        assert Partitioned(d, k, gt);
      }
    }
  }

  /** A sorted suffix from 0 or 1 that bounds the rest is the whole sequence sorted. */
  lemma SortedWhole(d: seq<string>, k: int, gt: Order)
    requires 0 <= k <= 1 && SortedFrom(d, k, gt) && Partitioned(d, k, gt)
    ensures Ascending(d, gt)
  {
    forall a, b | 0 <= a < b < |d|
      ensures !gt(d[a], d[b])
    {
      if a < k {
        assert Partitioned(d, k, gt);
      }
    }
  }

  lemma {:induction false} BubbleFromSorts(d: seq<string>, i: int, gt: Order)
    requires StrictWeakOrder(gt) && -2 <= i < |d| - 1 && SortedFrom(d, i + 2, gt) && Partitioned(d, i + 2, gt)
    ensures Ascending(BubbleFrom(d, i, gt), gt)
    decreases i + 2
  {
    if i < 0 {
      SortedWhole(d, i + 2, gt);
    } else {
      PassCarriesMax(d, i + 1, i + 2, gt);
      PassDone(BubblePass(d, i + 1, gt), i + 2, gt);
      BubbleFromSorts(BubblePass(d, i + 1, gt), i - 1, gt);
    }
  }

  /** Bubble sort with truthful answers sorts under a strict weak order, and permutes. */
  lemma BubbleSortedSorts(d: seq<string>, gt: Order)
    requires StrictWeakOrder(gt)
    ensures Ascending(BubbleSorted(d, gt), gt) && multiset(BubbleSorted(d, gt)) == multiset(d)
  {
    BubbleFromSorts(d, |d| - 2, gt);
    BubbleFromPermutes(d, |d| - 2, gt);
  }

  // ------------------------------------------------- insertion and shell sort

  /** `h` is reached from `i` by steps of `gap` downwards. */
  predicate OnGrid(i: nat, h: nat, gap: nat)
    requires gap > 0
    decreases i - h
  {
    h <= i && (h == i || OnGrid(i, h + gap, gap))
  }

  lemma {:induction false} GridExtend(i: nat, h: nat, gap: nat)
    requires gap > 0 && OnGrid(i, h, gap)
    ensures OnGrid(i + gap, h, gap)
    decreases i - h
  {
    if h < i {
      GridExtend(i, h + gap, gap);
    }
  }

  /** Where the hole that starts at `h` stops: it moves down by `gap` while the
      element `gap` below it is greater than `elem`. */
  function GapScan(d: seq<string>, h: nat, elem: string, gap: nat, gt: Order): (r: nat)
    requires gap > 0 && h < |d|
    ensures r <= h
    ensures r >= gap ==> !gt(d[r - gap], elem)
    decreases h
  {
    if h >= gap && gt(d[h - gap], elem) then GapScan(d, h - gap, elem, gap, gt) else h
  }

  lemma {:induction false} ScanOnGrid(d: seq<string>, h: nat, elem: string, gap: nat, gt: Order)
    requires gap > 0 && h < |d|
    ensures OnGrid(h, GapScan(d, h, elem, gap, gt), gap)
    decreases h
  {
    if h >= gap && gt(d[h - gap], elem) {
      ScanOnGrid(d, h - gap, elem, gap, gt);
      GridExtend(h - gap, GapScan(d, h - gap, elem, gap, gt), gap);
    }
  }

  /** With steps of one, the hole passed only elements greater than `elem`. */
  lemma {:induction false} ScanPassedGreater(d: seq<string>, h: nat, elem: string, k: nat, gt: Order)
    requires h < |d| && GapScan(d, h, elem, 1, gt) <= k < h
    ensures gt(d[k], elem)
    decreases h
  {
    if k < h - 1 {
      ScanPassedGreater(d, h - 1, elem, k, gt);
    }
  }

  /** The data once the hole has moved from `i` down to `h`: every element on
      the way has moved up by `gap`, and the hole still holds its old element. */
  function ShiftDown(d: seq<string>, i: nat, h: nat, gap: nat): (r: seq<string>)
    requires gap > 0 && i < |d|
    ensures |r| == |d|
    decreases i - h
  {
    if h + gap > i then d else ShiftDown(d, i, h + gap, gap)[h + gap := d[h]]
  }

  /** Nothing at or below the hole has moved. */
  lemma {:induction false} ShiftDownBelow(d: seq<string>, i: nat, h: nat, gap: nat, k: nat)
    requires gap > 0 && i < |d| && k <= h && k < |d|
    ensures ShiftDown(d, i, h, gap)[k] == d[k]
    decreases i - h
  {
    if h + gap <= i {
      ShiftDownBelow(d, i, h + gap, gap, k);
    }
  }

  /** One more step of the hole swaps the lifted element down by `gap`. */
  lemma ShiftDownSwap(d: seq<string>, i: nat, h: nat, gap: nat)
    requires gap > 0 && h + gap <= i < |d|
    ensures ShiftDown(d, i, h, gap)[h := d[i]] == Swap(ShiftDown(d, i, h + gap, gap)[h + gap := d[i]], h, h + gap)
  {
    ShiftDownBelow(d, i, h + gap, gap, h);
  }

  /** Putting the lifted element into the hole gives back a permutation. */
  lemma {:induction false} ShiftDownPermutes(d: seq<string>, i: nat, h: nat, gap: nat)
    requires gap > 0 && i < |d| && OnGrid(i, h, gap)
    ensures multiset(ShiftDown(d, i, h, gap)[h := d[i]]) == multiset(d)
    decreases i - h
  {
    if h < i {
      ShiftDownPermutes(d, i, h + gap, gap);
      ShiftDownSwap(d, i, h, gap);
      SwapPermutes(ShiftDown(d, i, h + gap, gap)[h + gap := d[i]], h, h + gap);
    }
  }

  /** With steps of one, the shifted data spelled out position by position. */
  lemma {:induction false} ShiftDownOneAt(d: seq<string>, i: nat, h: nat, k: nat)
    requires h <= i < |d| && k < |d|
    ensures ShiftDown(d, i, h, 1)[k] == if h < k <= i then d[k - 1] else d[k]
    decreases i - h
  {
    if h < i {
      if k != h + 1 {
        ShiftDownOneAt(d, i, h + 1, k);
      }
    }
  }

  /** The inner loop of insertion sort (`gap` 1) or of one shell-sort pass:
      lift `d[i]`, shift the greater elements up, drop it into the hole. */
  function GapInsert(d: seq<string>, i: nat, gap: nat, gt: Order): (r: seq<string>)
    requires gap > 0 && i < |d|
    ensures |r| == |d|
  {
    ShiftDown(d, i, GapScan(d, i, d[i], gap, gt), gap)[GapScan(d, i, d[i], gap, gt) := d[i]]
  }

  /** One insertion only moves elements around. */
  lemma GapInsertPermutes(d: seq<string>, i: nat, gap: nat, gt: Order)
    requires gap > 0 && i < |d|
    ensures multiset(GapInsert(d, i, gap, gt)) == multiset(d)
  {
    ScanOnGrid(d, i, d[i], gap, gt);
    ShiftDownPermutes(d, i, GapScan(d, i, d[i], gap, gt), gap);
  }

  /** The loop `for i in range(start, len(data))` of one pass with the given gap. */
  function GapPassFrom(d: seq<string>, i: nat, gap: nat, gt: Order): (r: seq<string>)
    requires gap > 0
    ensures |r| == |d|
    decreases |d| - i
  {
    if i >= |d| then d else GapPassFrom(GapInsert(d, i, gap, gt), i + 1, gap, gt)
  }

  lemma {:induction false} GapPassFromPermutes(d: seq<string>, i: nat, gap: nat, gt: Order)
    requires gap > 0
    ensures multiset(GapPassFrom(d, i, gap, gt)) == multiset(d)
    decreases |d| - i
  {
    if i < |d| {
      GapInsertPermutes(d, i, gap, gt);
      GapPassFromPermutes(GapInsert(d, i, gap, gt), i + 1, gap, gt);
    }
  }

  /** i + (i + 1) + ... + (n - 1): the most comparisons insertion sort still
      asks from the pass `i` on, the pass `k` asking at most `k`. */
  function PairsFrom(i: nat, n: nat): nat
    decreases n - i
  {
    if i >= n then 0 else i + PairsFrom(i + 1, n)
  }

  lemma {:induction false} PairsFromTri(i: nat, n: nat)
    requires i <= n
    ensures PairsFrom(i, n) + Tri(i) == Tri(n)
    decreases n - i
  {
    if i < n {
      PairsFromTri(i + 1, n);
    }
  }

  /** `InsertionSort.algorithm` with truthful answers. */
  function InsertionSorted(d: seq<string>, gt: Order): seq<string>
  {
    GapPassFrom(d, 1, 1, gt)
  }

  /** The gap loop of shell sort, from the given gap, halving until it reaches 0. */
  function ShellFrom(d: seq<string>, gap: nat, gt: Order): (r: seq<string>)
    ensures |r| == |d|
    decreases gap
  {
    if gap == 0 then d else ShellFrom(GapPassFrom(d, gap, gap, gt), gap / 2, gt)
  }

  lemma {:induction false} ShellFromPermutes(d: seq<string>, gap: nat, gt: Order)
    ensures multiset(ShellFrom(d, gap, gt)) == multiset(d)
    decreases gap
  {
    if gap > 0 {
      GapPassFromPermutes(d, gap, gap, gt);
      ShellFromPermutes(GapPassFrom(d, gap, gap, gt), gap / 2, gt);
    }
  }

  /** `ShellSort.algorithm` with truthful answers. */
  function ShellSorted(d: seq<string>, gt: Order): seq<string>
  {
    ShellFrom(d, |d| / 2, gt)
  }

  /** With steps of one, the inserted data spelled out position by position. */
  lemma InsertOneAt(d: seq<string>, i: nat, k: nat, gt: Order)
    requires 0 < i < |d| && k < |d|
    ensures var h := GapScan(d, i, d[i], 1, gt);
      GapInsert(d, i, 1, gt)[k] == if k == h then d[i] else if h < k <= i then d[k - 1] else d[k]
  {
    var h := GapScan(d, i, d[i], 1, gt);
    if k != h {
      ShiftDownOneAt(d, i, h, k);
    }
  }

  /** Inserting `d[i]` into a sorted prefix `d[..i]` gives a sorted prefix one longer. */
  lemma InsertKeepsSorted(d: seq<string>, i: nat, gt: Order)
    requires StrictWeakOrder(gt) && 0 < i < |d| && Ascending(d[..i], gt)
    ensures Ascending(GapInsert(d, i, 1, gt)[..i + 1], gt)
    ensures GapInsert(d, i, 1, gt)[i + 1..] == d[i + 1..]
  {
    var elem := d[i];
    var h := GapScan(d, i, elem, 1, gt);
    var r := GapInsert(d, i, 1, gt);
    forall a, b | 0 <= a < b < i + 1
      ensures !gt(r[a], r[b])
    {
      InsertOneAt(d, i, a, gt);
      InsertOneAt(d, i, b, gt);
      if a == h {
        ScanPassedGreater(d, i, elem, b - 1, gt);
        assert NotBoth(gt, d[b - 1], elem);
      } else if b == h {
        assert !gt(d[h - 1], elem);
        if a < h - 1 {
          assert !gt(d[..i][a], d[..i][h - 1]);
          assert NotGreaterChains(gt, d[a], d[h - 1], elem);
        }
      } else {
        var a' := if a < h then a else a - 1;
        var b' := if b < h then b else b - 1;
        assert r[a] == d[..i][a'] && r[b] == d[..i][b'];
      }
    }
    forall k | i + 1 <= k < |d|
      ensures r[k] == d[k]
    {
      InsertOneAt(d, i, k, gt);
    }
    assert r[i + 1..] == d[i + 1..];
  }

  lemma {:induction false} InsertionFromSorts(d: seq<string>, i: nat, gt: Order)
    requires StrictWeakOrder(gt) && 0 < i <= |d| && Ascending(d[..i], gt)
    ensures Ascending(GapPassFrom(d, i, 1, gt), gt)
    decreases |d| - i
  {
    if i == |d| {
      assert d[..i] == d;
    } else {
      InsertKeepsSorted(d, i, gt);
      InsertionFromSorts(GapInsert(d, i, 1, gt), i + 1, gt);
    }
  }

  /** Insertion sort with truthful answers sorts under a strict weak order, and permutes. */
  lemma InsertionSortedSorts(d: seq<string>, gt: Order)
    requires StrictWeakOrder(gt)
    ensures Ascending(InsertionSorted(d, gt), gt) && multiset(InsertionSorted(d, gt)) == multiset(d)
  {
    GapPassFromPermutes(d, 1, 1, gt);
    if |d| > 0 {
      InsertionFromSorts(d, 1, gt);
    }
  }

  /** Every gap sequence that ends with 1 finishes with an insertion sort. */
  lemma {:induction false} ShellFromSorts(d: seq<string>, gap: nat, gt: Order)
    requires StrictWeakOrder(gt) && gap > 0
    ensures Ascending(ShellFrom(d, gap, gt), gt)
    decreases gap
  {
    if gap == 1 {
      InsertionSortedSorts(d, gt);
    } else {
      ShellFromSorts(GapPassFrom(d, gap, gap, gt), gap / 2, gt);
    }
  }

  /** Shell sort with truthful answers sorts under a strict weak order, and permutes. */
  lemma ShellSortedSorts(d: seq<string>, gt: Order)
    requires StrictWeakOrder(gt)
    ensures Ascending(ShellSorted(d, gt), gt) && multiset(ShellSorted(d, gt)) == multiset(d)
  {
    ShellFromPermutes(d, |d| / 2, gt);
    if |d| >= 2 {
      ShellFromSorts(d, |d| / 2, gt);
    }
  }

  /** The gap pass with gap 1 is insertion sort: shell sort's last pass. */
  lemma ShellEndsWithInsertion(d: seq<string>, gt: Order)
    ensures ShellFrom(d, 1, gt) == InsertionSorted(d, gt)
  {
  }
}
