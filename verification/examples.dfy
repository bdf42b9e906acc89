/** The example algorithms the generator is run on: bubble sort, insertion
    sort and shell sort over the generator's data, each asking every
    comparison of the generator. */
module Examples {
  import opened Extra
  import opened Latex
  import opened TreeGen
  import opened Sorting

  /** Every comparison asked is a `>`. */
  predicate AllGt(cs: seq<Comparison>)
  {
    forall i :: 0 <= i < |cs| ==> cs[i].op == Gt
  }

  /** Every answer is the truth about its comparison `e1 > e2` under the order `gt`. */
  predicate Truthful(asked: seq<Comparison>, answers: seq<bool>, gt: Order)
  {
    |asked| == |answers| && forall k :: 0 <= k < |asked| ==> answers[k] == gt(asked[k].e1, asked[k].e2)
  }

  /** Under Python's string order, the truthful answers to `>` questions are
      exactly the answers the comparisons themselves evaluate to. */
  lemma TruthfulUnderStringOrder(asked: seq<Comparison>, answers: seq<bool>)
    requires AllGt(asked)
    ensures Truthful(asked, answers, StrGt) <==> |asked| == |answers| && forall k :: 0 <= k < |asked| ==> answers[k] == Holds(asked[k])
  {
  }

  lemma AllGtSnoc(cs: seq<Comparison>, c: Comparison)
    requires AllGt(cs) && c.op == Gt
    ensures AllGt(cs + [c])
  {
  }

  /** A truthful run is truthful on each of its prefixes. */
  lemma TruthfulPrefix(asked: seq<Comparison>, answers: seq<bool>, c: Comparison, b: bool, gt: Order)
    requires Truthful(asked + [c], answers + [b], gt)
    ensures Truthful(asked, answers, gt) && b == gt(c.e1, c.e2)
  {
    assert forall k :: 0 <= k < |asked| ==> (asked + [c])[k] == asked[k] && (answers + [b])[k] == answers[k];
    assert (asked + [c])[|asked|] == c;
  }

  /** `self.data[k] = v`: one element of the data replaced, nothing else touched. */
  method Store(g: TreeGenerator, k: nat, v: string)
    requires g.Valid() && k < |g.data|
    modifies g
    ensures g.data == old(g.data)[k := v]
    ensures g.Valid() && g.Model() == old(g.Model()) && g.restoringDecisions.Repr == old(g.restoringDecisions.Repr)
  {
    g.data := g.data[k := v];
  }

  /** The generator is valid and consistent, every comparison asked so far is
      a `>`, and `trail` follows the generator from before the first of them
      to its present state. */
  ghost predicate Tracking(g: TreeGenerator, trail: seq<Engine>, asked: seq<Comparison>, answers: seq<bool>)
    reads g, g.states, g.restoringDecisions, g.restoringDecisions.Repr
  {
    g.Valid() && Consistent(g.Model()) && AllGt(asked) && Traced(trail, asked, answers) && g.Model() == Last(trail)
  }

  /** `comp(x, '>', y)` as the algorithms ask it. The ghost `trail`, `asked`
      and `answers` record the engine before each comparison, the comparisons
      asked and the answers given. */
  method AskGt(g: TreeGenerator, ghost gt: Order, x: string, y: string, ghost trail: seq<Engine>,
               ghost asked: seq<Comparison>, ghost answers: seq<bool>)
    returns (b: bool, ghost trail': seq<Engine>, ghost asked': seq<Comparison>, ghost answers': seq<bool>)
    requires Tracking(g, trail, asked, answers)
    modifies g, g.states, g.restoringDecisions
    ensures g.Valid() && g.restoringDecisions.Repr == old(g.restoringDecisions.Repr) && g.data == old(g.data)
    ensures Tracking(g, trail', asked', answers')
    ensures trail' == trail + [g.Model()] && asked' == asked + [Comparison(x, Gt, y)] && answers' == answers + [b]
    ensures Truthful(asked', answers', gt) ==> Truthful(asked, answers, gt) && (b <==> gt(x, y))
  {
    var c := Comparison(x, Gt, y);
    b := g.Comp(x, Gt, y);
    TracedSnoc(trail, asked, answers, c, g.Model(), b);
    AllGtSnoc(asked, c);
    trail', asked', answers' := trail + [g.Model()], asked + [c], answers + [b];
    if Truthful(asked', answers', gt) {
      TruthfulPrefix(asked, answers, c, b, gt);
    }
  }

  /** The body of bubble sort's inner loop: ask whether `data[j] > data[j + 1]`
      and swap the two when the answer is True. */
  method CompareSwap(g: TreeGenerator, ghost gt: Order, j: nat, ghost trail: seq<Engine>,
                     ghost asked: seq<Comparison>, ghost answers: seq<bool>)
    returns (b: bool, ghost trail': seq<Engine>, ghost asked': seq<Comparison>, ghost answers': seq<bool>)
    requires g.Valid() && j + 1 < |g.data|
    requires Tracking(g, trail, asked, answers)
    modifies g, g.states, g.restoringDecisions
    ensures g.Valid() && g.restoringDecisions.Repr == old(g.restoringDecisions.Repr)
    ensures |g.data| == |old(g.data)| && multiset(g.data) == multiset(old(g.data))
    ensures Tracking(g, trail', asked', answers') && trail'[0] == trail[0]
    ensures asked' == asked + [Comparison(old(g.data)[j], Gt, old(g.data)[j + 1])] && answers' == answers + [b]
    ensures g.data == if b then Swap(old(g.data), j, j + 1) else old(g.data)
    ensures Truthful(asked', answers', gt) ==> Truthful(asked, answers, gt) && g.data == BubbleStep(old(g.data), j, gt)
  {
    b, trail', asked', answers' := AskGt(g, gt, g.data[j], g.data[j + 1], trail, asked, answers);
    if b {
      var tmp := g.data[j];
      Store(g, j, g.data[j + 1]);
      Store(g, j + 1, tmp);
      SwapPermutes(old(g.data), j, j + 1);
    }
  }

  /** Bubble sort's inner loop, `j` from 0 to `i`: `i + 1` comparisons. */
  method BubbleInner(g: TreeGenerator, ghost gt: Order, i: nat, ghost trail: seq<Engine>,
                     ghost asked: seq<Comparison>, ghost answers: seq<bool>)
    returns (ghost trail': seq<Engine>, ghost asked': seq<Comparison>, ghost answers': seq<bool>)
    requires g.Valid() && i + 1 < |g.data|
    requires Tracking(g, trail, asked, answers)
    modifies g, g.states, g.restoringDecisions
    ensures g.Valid() && g.restoringDecisions.Repr == old(g.restoringDecisions.Repr)
    ensures |g.data| == |old(g.data)| && multiset(g.data) == multiset(old(g.data))
    ensures Tracking(g, trail', asked', answers') && trail'[0] == trail[0]
    ensures |asked'| == |asked| + i + 1
    ensures Truthful(asked', answers', gt) ==> Truthful(asked, answers, gt) && g.data == BubblePass(old(g.data), i + 1, gt)
  {
    ghost var d0 := g.data;
    trail', asked', answers' := trail, asked, answers;
    for j := 0 to i + 1
      invariant g.Valid() && g.restoringDecisions.Repr == old(g.restoringDecisions.Repr)
      invariant |g.data| == |d0| && multiset(g.data) == multiset(d0)
      invariant Tracking(g, trail', asked', answers') && trail'[0] == trail[0]
      invariant |asked'| == |asked| + j
      invariant Truthful(asked', answers', gt) ==> Truthful(asked, answers, gt) && g.data == BubblePass(d0, j, gt)
    {
      var b;
      b, trail', asked', answers' := CompareSwap(g, gt, j, trail', asked', answers');
    }
  }

  /** `BubbleSort.algorithm`: for `i` from `n - 2` down to 0, compares each
      adjacent pair `j`, `j + 1` with `j <= i` and swaps it when the answer
      is True. It asks `Tri(n)`, that is n(n-1)/2, comparisons whatever the
      answers, leaves a permutation of the data, and with truthful answers
      computes `BubbleSorted`, which sorts. */
  method BubbleSort(g: TreeGenerator, ghost gt: Order) returns (ghost trail: seq<Engine>, ghost asked: seq<Comparison>, ghost answers: seq<bool>)
    requires g.Valid() && Consistent(g.Model())
    modifies g, g.states, g.restoringDecisions
    ensures g.Valid() && g.restoringDecisions.Repr == old(g.restoringDecisions.Repr)
    ensures Tracking(g, trail, asked, answers) && trail[0] == old(g.Model())
    ensures multiset(g.data) == multiset(old(g.data))
    ensures |asked| == Tri(|old(g.data)|)
    ensures Truthful(asked, answers, gt) ==> g.data == BubbleSorted(old(g.data), gt)
    ensures Truthful(asked, answers, gt) && StrictWeakOrder(gt) ==> Ascending(g.data, gt)
  {
    ghost var d0 := g.data;
    trail, asked, answers := [g.Model()], [], [];
    var n := |g.data|;
    var i := n - 2;
    while i >= 0
      invariant g.Valid() && g.restoringDecisions.Repr == old(g.restoringDecisions.Repr)
      invariant -2 <= i <= n - 2
      invariant |g.data| == n && multiset(g.data) == multiset(d0)
      invariant Tracking(g, trail, asked, answers) && trail[0] == old(g.Model())
      invariant |asked| + PassesLeft(i) == PassesLeft(n - 2)
      invariant Truthful(asked, answers, gt) ==> BubbleFrom(g.data, i, gt) == BubbleSorted(d0, gt)
    {
      trail, asked, answers := BubbleInner(g, gt, i, trail, asked, answers);
      i := i - 1;
    }
    PassesLeftTri(n - 2);
    if StrictWeakOrder(gt) {
      BubbleSortedSorts(d0, gt);
    }
  }

  /** One step of the shifting loops of insertion and shell sort, with the
      hole at `h`: asks whether `data[h - gap] > elem` and, when the answer is
      True, moves `data[h - gap]` up into the hole, which moves down by `gap`. */
  method ShiftStep(g: TreeGenerator, ghost gt: Order, i: nat, h: nat, gap: nat, elem: string, ghost d0: seq<string>,
                   ghost trail: seq<Engine>, ghost asked: seq<Comparison>, ghost answers: seq<bool>)
    returns (b: bool, ghost trail': seq<Engine>, ghost asked': seq<Comparison>, ghost answers': seq<bool>)
    requires Tracking(g, trail, asked, answers) && 0 < gap <= h <= i < |d0| && elem == d0[i]
    requires OnGrid(i, h, gap) && g.data == ShiftDown(d0, i, h, gap)
    modifies g, g.states, g.restoringDecisions
    ensures Tracking(g, trail', asked', answers') && trail'[0] == trail[0]
    ensures g.restoringDecisions.Repr == old(g.restoringDecisions.Repr)
    ensures asked' == asked + [Comparison(d0[h - gap], Gt, elem)] && answers' == answers + [b]
    ensures b ==> OnGrid(i, h - gap, gap) && g.data == ShiftDown(d0, i, h - gap, gap)
    ensures !b ==> g.data == old(g.data)
    ensures Truthful(asked', answers', gt) ==>
              Truthful(asked, answers, gt) && GapScan(d0, h, elem, gap, gt) == if b then GapScan(d0, h - gap, elem, gap, gt) else h
  {
    ShiftDownBelow(d0, i, h, gap, h - gap);
    b, trail', asked', answers' := AskGt(g, gt, g.data[h - gap], elem, trail, asked, answers);
    if b {
      Store(g, h, g.data[h - gap]);
    }
  }

  /** The last statement of both shifting loops: drops the lifted element
      into the hole at `h`, which leaves a permutation of the data. */
  method DropIn(g: TreeGenerator, i: nat, h: nat, gap: nat, elem: string, ghost d0: seq<string>)
    requires g.Valid() && 0 < gap && h <= i < |d0| && elem == d0[i]
    requires OnGrid(i, h, gap) && g.data == ShiftDown(d0, i, h, gap)
    modifies g
    ensures g.Valid() && g.Model() == old(g.Model()) && g.restoringDecisions.Repr == old(g.restoringDecisions.Repr)
    ensures g.data == ShiftDown(d0, i, h, gap)[h := elem]
    ensures multiset(g.data) == multiset(d0)
  {
    Store(g, h, elem);
    ShiftDownPermutes(d0, i, h, gap);
  }

  /** The comparisons insertion sort's shifting loop asks while lifting
      `d[i]`: `d[i - 1] > d[i]`, then `d[i - 2] > d[i]`, and so on. */
  predicate ScanQuestions(d: seq<string>, i: nat, qs: seq<Comparison>)
    requires i < |d|
  {
    |qs| <= i && forall t :: 0 <= t < |qs| ==> qs[t] == Comparison(d[i - 1 - t], Gt, d[i])
  }

  /** The answers that loop can receive: every one but the last is True,
      and the last is False unless the hole reached the bottom. */
  predicate ScanAnswers(i: nat, bs: seq<bool>)
  {
    0 < |bs| <= i && (forall t :: 0 <= t < |bs| - 1 ==> bs[t]) && (|bs| < i ==> !bs[|bs| - 1])
  }

  /** Where the lifted element is dropped after the answers `bs`: one step
      down per True answer. */
  function InsertionStop(i: nat, bs: seq<bool>): (h: nat)
    requires ScanAnswers(i, bs)
    ensures h <= i && h + |bs| == i + (if bs[|bs| - 1] then 0 else 1)
  {
    if bs[|bs| - 1] then i - |bs| else i - |bs| + 1
  }

  /** One more question of the shifting loop, `d[j] > d[i]` with `j` the
      next index down: the questions so far stay in order, and a True answer
      keeps the loop going while a False one stops it with the hole at `j + 1`. */
  lemma ScanSnoc(d: seq<string>, i: nat, k: nat, qs: seq<Comparison>, bs: seq<bool>, j: nat, b: bool)
    requires i < |d| && k <= |qs| == |bs| && j == i - 1 - (|qs| - k) && j < i
    requires ScanQuestions(d, i, qs[k..]) && forall t :: k <= t < |bs| ==> bs[t]
    ensures ScanQuestions(d, i, (qs + [Comparison(d[j], Gt, d[i])])[k..])
    ensures b ==> forall t :: k <= t < |bs| + 1 ==> (bs + [b])[t]
    ensures b && j == 0 ==> ScanAnswers(i, (bs + [b])[k..]) && InsertionStop(i, (bs + [b])[k..]) == 0
    ensures !b ==> ScanAnswers(i, (bs + [b])[k..]) && InsertionStop(i, (bs + [b])[k..]) == j + 1
  {
    assert (qs + [Comparison(d[j], Gt, d[i])])[k..] == qs[k..] + [Comparison(d[j], Gt, d[i])];
    var bs' := (bs + [b])[k..];
    assert forall t :: 0 <= t < |bs'| - 1 ==> bs'[t] == bs[k + t];
  }

  /** The `while` loop of `InsertionSort.algorithm`: with `j` from `i - 1`
      down, shifts `data[j]` up while the generator answers that
      `data[j] > elem`. Whatever the answers, it asks `data[i - 1] > elem`,
      `data[i - 2] > elem`, ... until the first False or the bottom, and the
      hole `j + 1` ends one place lower per True answer. */
  method InsertionShift(g: TreeGenerator, ghost gt: Order, i: nat, elem: string, ghost d0: seq<string>,
                        ghost trail: seq<Engine>, ghost asked: seq<Comparison>, ghost answers: seq<bool>)
    returns (j: int, ghost trail': seq<Engine>, ghost asked': seq<Comparison>, ghost answers': seq<bool>)
    requires Tracking(g, trail, asked, answers) && 0 < i < |d0| && elem == d0[i] && g.data == d0
    modifies g, g.states, g.restoringDecisions
    ensures Tracking(g, trail', asked', answers') && trail'[0] == trail[0]
    ensures g.restoringDecisions.Repr == old(g.restoringDecisions.Repr)
    ensures -1 <= j < i && OnGrid(i, j + 1, 1) && g.data == ShiftDown(d0, i, j + 1, 1)
    ensures |asked| <= |asked'| && ScanQuestions(d0, i, asked'[|asked|..])
    ensures ScanAnswers(i, answers'[|asked|..]) && InsertionStop(i, answers'[|asked|..]) == j + 1
    ensures Truthful(asked', answers', gt) ==> Truthful(asked, answers, gt) && j + 1 == GapScan(d0, i, elem, 1, gt)
  {
    j := i - 1;
    trail', asked', answers' := trail, asked, answers;
    while j >= 0
      invariant Tracking(g, trail', asked', answers') && trail'[0] == trail[0]
      invariant g.restoringDecisions.Repr == old(g.restoringDecisions.Repr)
      invariant -1 <= j < i && OnGrid(i, j + 1, 1) && g.data == ShiftDown(d0, i, j + 1, 1)
      invariant |asked'| == |asked| + (i - 1 - j) && |answers'| == |asked'|
      invariant ScanQuestions(d0, i, asked'[|asked|..]) && forall t :: |asked| <= t < |answers'| ==> answers'[t]
      invariant Truthful(asked', answers', gt) ==> Truthful(asked, answers, gt) && GapScan(d0, j + 1, elem, 1, gt) == GapScan(d0, i, elem, 1, gt)
    {
      var b;
      ghost var a0, b0 := asked', answers';
      b, trail', asked', answers' := ShiftStep(g, gt, i, j + 1, 1, elem, d0, trail', asked', answers');
      ScanSnoc(d0, i, |asked|, a0, b0, j, b);
      if !b {
        return;
      }
      j := j - 1;
    }
    assert ScanAnswers(i, answers'[|asked|..]) && InsertionStop(i, answers'[|asked|..]) == j + 1;
  }

  /** The body of `InsertionSort.algorithm`'s loop: lifts `data[i]` into
      `elem`, shifts the greater elements up, then drops `elem` into
      `data[j + 1]`. Whatever the answers, the comparisons asked and the
      data left are those of the shifting loop; it asks between one and `i`
      comparisons. */
  method InsertionInner(g: TreeGenerator, ghost gt: Order, i: nat, ghost trail: seq<Engine>,
                        ghost asked: seq<Comparison>, ghost answers: seq<bool>)
    returns (ghost trail': seq<Engine>, ghost asked': seq<Comparison>, ghost answers': seq<bool>)
    requires Tracking(g, trail, asked, answers) && 0 < i < |g.data|
    modifies g, g.states, g.restoringDecisions
    ensures Tracking(g, trail', asked', answers') && trail'[0] == trail[0]
    ensures g.restoringDecisions.Repr == old(g.restoringDecisions.Repr)
    ensures |g.data| == |old(g.data)| && multiset(g.data) == multiset(old(g.data))
    ensures |asked| < |asked'| <= |asked| + i
    ensures ScanQuestions(old(g.data), i, asked'[|asked|..]) && ScanAnswers(i, answers'[|asked|..])
    ensures var h := InsertionStop(i, answers'[|asked|..]);
      g.data == ShiftDown(old(g.data), i, h, 1)[h := old(g.data)[i]]
    ensures Truthful(asked', answers', gt) ==> Truthful(asked, answers, gt) && g.data == GapInsert(old(g.data), i, 1, gt)
  {
    ghost var d0 := g.data;
    var elem := g.data[i];
    var j;
    j, trail', asked', answers' := InsertionShift(g, gt, i, elem, d0, trail, asked, answers);
    DropIn(g, i, j + 1, 1, elem, d0);
  }

  /** On two elements the shifting loop asks the one comparison
      `d[0] > d[1]`; True swaps the two and False leaves them. */
  lemma TwoElementInsert(d: seq<string>, qs: seq<Comparison>, bs: seq<bool>)
    requires |d| == 2 && ScanQuestions(d, 1, qs) && ScanAnswers(1, bs) && |qs| == |bs|
    ensures qs == [Comparison(d[0], Gt, d[1])]
    ensures var h := InsertionStop(1, bs);
      ShiftDown(d, 1, h, 1)[h := d[1]] == if bs[0] then [d[1], d[0]] else d
  {
    assert ShiftDown(d, 1, 1, 1) == d;
    assert ShiftDown(d, 1, 0, 1) == d[1 := d[0]];
  }

  /** `InsertionSort.algorithm`: for `i` from 1 to `n - 1`, inserts `data[i]`
      into the run before it. It asks at least n-1 and at most `Tri(n)`,
      n(n-1)/2, comparisons, leaves a permutation of the data, and with truthful
      answers computes `InsertionSorted`, which sorts. */
  method InsertionSort(g: TreeGenerator, ghost gt: Order) returns (ghost trail: seq<Engine>, ghost asked: seq<Comparison>, ghost answers: seq<bool>)
    requires g.Valid() && Consistent(g.Model())
    modifies g, g.states, g.restoringDecisions
    ensures Tracking(g, trail, asked, answers) && trail[0] == old(g.Model())
    ensures g.restoringDecisions.Repr == old(g.restoringDecisions.Repr)
    ensures multiset(g.data) == multiset(old(g.data))
    ensures |old(g.data)| - 1 <= |asked| <= Tri(|old(g.data)|)
    ensures |old(g.data)| == 2 ==>
      && asked == [Comparison(old(g.data)[0], Gt, old(g.data)[1])]
      && g.data == if answers[0] then [old(g.data)[1], old(g.data)[0]] else old(g.data)
    ensures Truthful(asked, answers, gt) ==> g.data == InsertionSorted(old(g.data), gt)
    ensures Truthful(asked, answers, gt) && StrictWeakOrder(gt) ==> Ascending(g.data, gt)
  {
    ghost var d0 := g.data;
    trail, asked, answers := [g.Model()], [], [];
    var n := |g.data|;
    var i := 1;
    PairsFromTri(if n == 0 then 0 else 1, n);
    while i < n
      invariant Tracking(g, trail, asked, answers) && trail[0] == old(g.Model())
      invariant g.restoringDecisions.Repr == old(g.restoringDecisions.Repr)
      invariant 1 <= i && (i == 1 || i <= n)
      invariant |g.data| == n && multiset(g.data) == multiset(d0)
      invariant i - 1 <= |asked| && |asked| + PairsFrom(i, n) <= Tri(n)
      invariant i == 1 ==> asked == [] && g.data == d0
      invariant n == 2 && i == 2 ==>
        asked == [Comparison(d0[0], Gt, d0[1])] && g.data == if answers[0] then [d0[1], d0[0]] else d0
      invariant Truthful(asked, answers, gt) ==> GapPassFrom(g.data, i, 1, gt) == InsertionSorted(d0, gt)
    {
      ghost var before := g.data;
      trail, asked, answers := InsertionInner(g, gt, i, trail, asked, answers);
      if Truthful(asked, answers, gt) {
        assert GapPassFrom(before, i, 1, gt) == GapPassFrom(g.data, i + 1, 1, gt);
      }
      if n == 2 {
        assert asked[0..] == asked && answers[0..] == answers;
        TwoElementInsert(d0, asked, answers);
      }
      i := i + 1;
    }
    if StrictWeakOrder(gt) {
      InsertionSortedSorts(d0, gt);
    }
  }

  /** The `while` loop of a shell-sort pass: with the hole `j` from `i` down
      in steps of `gap`, shifts `data[j - gap]` up while the generator answers
      that `data[j - gap] > temp`. It asks at least one comparison and, with
      truthful answers, the hole stops where `GapScan` says. */
  method GapShift(g: TreeGenerator, ghost gt: Order, i: nat, gap: nat, temp: string, ghost d0: seq<string>,
                  ghost trail: seq<Engine>, ghost asked: seq<Comparison>, ghost answers: seq<bool>)
    returns (j: nat, ghost trail': seq<Engine>, ghost asked': seq<Comparison>, ghost answers': seq<bool>)
    requires Tracking(g, trail, asked, answers) && 0 < gap <= i < |d0| && temp == d0[i] && g.data == d0
    modifies g, g.states, g.restoringDecisions
    ensures Tracking(g, trail', asked', answers') && trail'[0] == trail[0]
    ensures g.restoringDecisions.Repr == old(g.restoringDecisions.Repr)
    ensures OnGrid(i, j, gap) && g.data == ShiftDown(d0, i, j, gap)
    ensures |asked'| > |asked|
    ensures Truthful(asked', answers', gt) ==> Truthful(asked, answers, gt) && j == GapScan(d0, i, temp, gap, gt)
  {
    j := i;
    trail', asked', answers' := trail, asked, answers;
    while j >= gap
      invariant Tracking(g, trail', asked', answers') && trail'[0] == trail[0]
      invariant g.restoringDecisions.Repr == old(g.restoringDecisions.Repr)
      invariant j <= i && OnGrid(i, j, gap) && g.data == ShiftDown(d0, i, j, gap)
      invariant |asked| <= |asked'| && (j < i ==> |asked'| > |asked|)
      invariant Truthful(asked', answers', gt) ==> Truthful(asked, answers, gt) && GapScan(d0, j, temp, gap, gt) == GapScan(d0, i, temp, gap, gt)
    {
      var b;
      b, trail', asked', answers' := ShiftStep(g, gt, i, j, gap, temp, d0, trail', asked', answers');
      if !b {
        return;
      }
      j := j - gap;
    }
  }

  /** The body of a shell-sort pass: lifts `data[i]` into `temp`, shifts the
      greater elements up by `gap`, then drops `temp` into the hole. */
  method GapInsertAt(g: TreeGenerator, ghost gt: Order, i: nat, gap: nat, ghost trail: seq<Engine>,
                     ghost asked: seq<Comparison>, ghost answers: seq<bool>)
    returns (ghost trail': seq<Engine>, ghost asked': seq<Comparison>, ghost answers': seq<bool>)
    requires Tracking(g, trail, asked, answers) && 0 < gap <= i < |g.data|
    modifies g, g.states, g.restoringDecisions
    ensures Tracking(g, trail', asked', answers') && trail'[0] == trail[0]
    ensures g.restoringDecisions.Repr == old(g.restoringDecisions.Repr)
    ensures |g.data| == |old(g.data)| && multiset(g.data) == multiset(old(g.data))
    ensures |asked'| > |asked|
    ensures Truthful(asked', answers', gt) ==> Truthful(asked, answers, gt) && g.data == GapInsert(old(g.data), i, gap, gt)
  {
    ghost var d0 := g.data;
    var temp := g.data[i];
    var j;
    j, trail', asked', answers' := GapShift(g, gt, i, gap, temp, d0, trail, asked, answers);
    DropIn(g, i, j, gap, temp, d0);
  }

  /** One pass of shell sort: `for i in range(gap, len(data))`, each `i`
      inserted among the elements `gap`, `2 * gap`, ... below it. */
  method ShellPass(g: TreeGenerator, ghost gt: Order, gap: nat, ghost trail: seq<Engine>,
                   ghost asked: seq<Comparison>, ghost answers: seq<bool>)
    returns (ghost trail': seq<Engine>, ghost asked': seq<Comparison>, ghost answers': seq<bool>)
    requires Tracking(g, trail, asked, answers) && 0 < gap <= |g.data|
    modifies g, g.states, g.restoringDecisions
    ensures Tracking(g, trail', asked', answers') && trail'[0] == trail[0]
    ensures g.restoringDecisions.Repr == old(g.restoringDecisions.Repr)
    ensures |g.data| == |old(g.data)| && multiset(g.data) == multiset(old(g.data))
    ensures |asked'| >= |asked| + (|old(g.data)| - gap)
    ensures Truthful(asked', answers', gt) ==> Truthful(asked, answers, gt) && g.data == GapPassFrom(old(g.data), gap, gap, gt)
  {
    ghost var d0 := g.data;
    trail', asked', answers' := trail, asked, answers;
    for i := gap to |g.data|
      invariant Tracking(g, trail', asked', answers') && trail'[0] == trail[0]
      invariant g.restoringDecisions.Repr == old(g.restoringDecisions.Repr)
      invariant |g.data| == |d0| && multiset(g.data) == multiset(d0)
      invariant |asked'| >= |asked| + (i - gap)
      invariant Truthful(asked', answers', gt) ==> Truthful(asked, answers, gt) && GapPassFrom(g.data, i, gap, gt) == GapPassFrom(d0, gap, gap, gt)
    {
      trail', asked', answers' := GapInsertAt(g, gt, i, gap, trail', asked', answers');
    }
  }

  /** `ShellSort.algorithm`: passes with the gap halved from `n // 2` down to 1.
      It asks at least n-1 comparisons, leaves a permutation of the data, and
      with truthful answers computes `ShellSorted`, which sorts. */
  method ShellSort(g: TreeGenerator, ghost gt: Order) returns (ghost trail: seq<Engine>, ghost asked: seq<Comparison>, ghost answers: seq<bool>)
    requires g.Valid() && Consistent(g.Model())
    modifies g, g.states, g.restoringDecisions
    ensures Tracking(g, trail, asked, answers) && trail[0] == old(g.Model())
    ensures g.restoringDecisions.Repr == old(g.restoringDecisions.Repr)
    ensures multiset(g.data) == multiset(old(g.data))
    ensures |asked| + 1 >= |old(g.data)|
    ensures Truthful(asked, answers, gt) ==> g.data == ShellSorted(old(g.data), gt)
    ensures Truthful(asked, answers, gt) && StrictWeakOrder(gt) ==> Ascending(g.data, gt)
  {
    ghost var d0 := g.data;
    trail, asked, answers := [g.Model()], [], [];
    var gap: nat := |g.data| / 2;
    while gap > 0
      invariant Tracking(g, trail, asked, answers) && trail[0] == old(g.Model())
      invariant g.restoringDecisions.Repr == old(g.restoringDecisions.Repr)
      invariant gap <= |g.data| == |d0| && multiset(g.data) == multiset(d0)
      invariant gap == 0 ==> |asked| + 1 >= |d0|
      invariant Truthful(asked, answers, gt) ==> ShellFrom(g.data, gap, gt) == ShellSorted(d0, gt)
    {
      trail, asked, answers := ShellPass(g, gt, gap, trail, asked, answers);
      gap := gap / 2;
    }
    if StrictWeakOrder(gt) {
      ShellSortedSorts(d0, gt);
    }
  }

  /** The generator after the first run of insertion sort on `b a`: the
      root asks `b > a`, its "Yes" leaf holds `a b`, and the root state has
      turned to its right branch with False queued to replay. */
  function AfterFirstRun(): Engine
  {
    var c := Comparison("b", Gt, "a");
    Engine(true, false, [false], [State([], Negate(c), false)],
           map[[] := BranchNode(c, []), [true] := NewLatexNode("a b", true, true, false)])
  }

  /** The first run: the only comparison, `b > a`, becomes the root and is
      answered True; closing and backtracking give `AfterFirstRun`. */
  lemma TwoElementFirstRun()
    ensures var c := Comparison("b", Gt, "a");
      var r := Replay(Initial(), [c]);
      r.1 == [true] && Inv(r.0) && r.0.states != [] && AfterRunFn(r.0, ["a", "b"]) == AfterFirstRun()
  {
    var c := Comparison("b", Gt, "a");
    var m := FirstCompFn(Initial(), c);
    ReplayStep(Initial(), [], c);
    assert [] + [c] == [c];
    assert CompFn(Initial(), c) == (m, true);
    assert Replay(Initial(), [c]).0 == m;
    assert Replay(Initial(), [c]).1 == [] + [true];
    FirstCompKeepsPathInv(Initial(), c);
    assert Join(["a", "b"]) == "a b" by { assert ["a", "b"][..1] == ["a"]; }
    var nodes := map[[] := BranchNode(c, []), [true] := NewLatexNode("a b", true, true, false)];
    assert Graft(m.nodes, [true], NewLatexNode("a b", true, true, false)) == nodes;
    var f := m.(restoring := true, lameDuck := false, states := [Flip(m.states[0])], nodes := nodes);
    assert Flip(m.states[0]) == State([], Negate(c), false);
    assert FindBranchFn(EndRunFn(m, ["a", "b"])) == f;
    assert Front(f.states) == [] && Decisions([]) == [];
    assert RestoringDecisionsFn(f) == AfterFirstRun();
  }

  /** The generator once the second run has replayed False at the root. */
  function AfterSecondReplay(): Engine
  {
    AfterFirstRun().(queue := [], restoring := false)
  }

  /** The replay of `b > a` after the first run answers False, drains the
      queue and ends restoring. */
  lemma SecondReplay()
    ensures Inv(AfterFirstRun()) && AfterFirstRun().states != []
    ensures Replay(AfterFirstRun(), [Comparison("b", Gt, "a")]) == (AfterSecondReplay(), [false])
  {
    var c := Comparison("b", Gt, "a");
    var e := AfterFirstRun();
    assert e.states[0] == Flip(NewState([], c));
    FlipKeepsPathInv([NewState([], c)], e.nodes, 0);
    assert [NewState([], c)][..0] + [Flip(NewState([], c))] == e.states;
    ReplayStep(e, [], c);
    assert [] + [c] == [c];
    assert CompFn(e, c) == (AfterSecondReplay(), false);
    assert Replay(e, [c]).0 == AfterSecondReplay();
    assert Replay(e, [c]).1 == [] + [false] == [false];
  }

  /** Closing the second run with `b a` hangs it on the "No" side, and
      backtracking finds nothing left. */
  lemma SecondClose()
    ensures var f := AfterRunFn(AfterSecondReplay(), ["b", "a"]);
      && f.states == []
      && f.nodes == map[[] := BranchNode(Comparison("b", Gt, "a"), []),
                        [true] := NewLatexNode("a b", true, true, false),
                        [false] := NewLatexNode("b a", true, false, false)]
  {
    var m := AfterSecondReplay();
    var root := BranchNode(Comparison("b", Gt, "a"), []);
    var yes := NewLatexNode("a b", true, true, false);
    var no := NewLatexNode("b a", true, false, false);
    assert Join(["b", "a"]) == "b a" by { assert ["b", "a"][..1] == ["b"]; }
    assert m.nodes == map[[] := root, [true] := yes];
    GraftKeeps(m.nodes, [false], no);
    assert !IsPrefix([false], []) && !IsPrefix([false], [true]);
    assert Graft(m.nodes, [false], no) == map[[] := root, [true] := yes, [false] := no];
    assert PopExhausted(m.states) == [] by { assert m.states[..0] == []; }
  }

  /** The second run replays False at the root; closing it hangs `b a` on
      the "No" side, and backtracking finds nothing left. */
  lemma TwoElementSecondRun()
    ensures var c := Comparison("b", Gt, "a");
      var e := AfterFirstRun();
      Inv(e) && e.states != [] &&
      var r := Replay(e, [c]);
      r.1 == [false] && Inv(r.0) && r.0.states != [] &&
      var f := AfterRunFn(r.0, ["b", "a"]);
      && f.states == []
      && f.nodes == map[[] := BranchNode(c, []),
                        [true] := NewLatexNode("a b", true, true, false),
                        [false] := NewLatexNode("b a", true, false, false)]
  {
    SecondReplay();
    ReplayKeepsInv(AfterFirstRun(), [Comparison("b", Gt, "a")]);
    SecondClose();
  }

  /** The sorts of the examples, each a subclass of the generator. */
  datatype Algorithm = Bubble | Insertion | Shell

  /** `algorithm()`: the chosen sort asks its comparisons of `g`. On two or
      more elements it asks at least one; it leaves a permutation of the data;
      and when every answer is the truth under Python's string order, the
      data ends up sorted. */
  method RunAlgorithm(g: TreeGenerator, alg: Algorithm) returns (ghost trail: seq<Engine>, ghost asked: seq<Comparison>, ghost answers: seq<bool>)
    requires g.Valid() && Consistent(g.Model())
    modifies g, g.states, g.restoringDecisions
    ensures Tracking(g, trail, asked, answers) && trail[0] == old(g.Model())
    ensures g.restoringDecisions.Repr == old(g.restoringDecisions.Repr)
    ensures multiset(g.data) == multiset(old(g.data))
    ensures |old(g.data)| >= 2 ==> asked != []
    ensures Truthful(asked, answers, StrGt) ==> Ascending(g.data, StrGt)
  {
    StringOrderIsStrictWeak();
    match alg
    case Bubble =>
      trail, asked, answers := BubbleSort(g, StrGt);
    case Insertion =>
      trail, asked, answers := InsertionSort(g, StrGt);
    case Shell =>
      trail, asked, answers := ShellSort(g, StrGt);
  }

  /** The generator after a run of the algorithm is the replay of what it
      asked, keeps its invariant and has a path to close. */
  lemma TracedRun(trail: seq<Engine>, asked: seq<Comparison>, answers: seq<bool>)
    requires Traced(trail, asked, answers) && Inv(trail[0])
    requires trail[0].states != [] || (asked != [] && !trail[0].restoring && !trail[0].lameDuck)
    ensures forall i :: 0 <= i < |asked| ==> Ordering(asked[i])
    ensures (Last(trail), answers) == Replay(trail[0], asked) && Inv(Last(trail)) && Last(trail).states != []
  {
    TracedReplay(trail, asked, answers);
    ReplayKeepsInv(trail[0], asked);
    ReplayKeepsStates(trail[0], asked);
  }

  /** A traced run followed by the close of its path and the backtracking
      keeps the tree being completed. */
  lemma TracedRunCompletes(trail: seq<Engine>, asked: seq<Comparison>, answers: seq<bool>, ran: seq<string>)
    requires Traced(trail, asked, answers) && Inv(trail[0])
    requires trail[0].states != [] || (asked != [] && !trail[0].restoring && !trail[0].lameDuck)
    ensures forall i :: 0 <= i < |asked| ==> Ordering(asked[i])
    ensures (Last(trail), answers) == Replay(trail[0], asked) && Inv(Last(trail)) && Last(trail).states != []
    ensures Complete(trail[0]) ==> Complete(AfterRunFn(Last(trail), ran))
  {
    TracedRun(trail, asked, answers);
    if Complete(trail[0]) {
      PassKeepsComplete(trail[0], asked, ran);
    }
  }

  /** One pass of `execute`'s loop: the algorithm runs against the generator,
      which answers its comparisons as `comp` does; the path it took is closed
      with a leaf holding the data it produced (`ran`), unless pruned; the
      generator backtracks to the deepest branch still unexplored and, when
      there is one (`more`), queues the decisions that lead back to it and
      resets the data. */
  method RunOnce(g: TreeGenerator, alg: Algorithm) returns (more: bool, ghost asked: seq<Comparison>, ghost ran: seq<string>)
    requires g.Valid() && Inv(g.Model())
    requires g.Model().states != [] || (|g.data| >= 2 && !g.restoring && !g.lameDuck)
    modifies g, g.states, g.restoringDecisions.Repr
    ensures g.Valid() && fresh(g.restoringDecisions.Repr - old(g.restoringDecisions.Repr))
    ensures AllGt(asked) && multiset(ran) == multiset(old(g.data))
    ensures forall e {:trigger AfterRunFn(e, ran)} :: e == Replay(old(g.Model()), asked).0 ==>
      && Inv(e) && e.states != []
      && g.Model() == AfterRunFn(e, ran)
    ensures Inv(g.Model()) && [] in g.nodes
    ensures Complete(old(g.Model())) ==> Complete(g.Model())
    ensures more <==> g.Model().states != []
    ensures more ==> g.restoring && !g.lameDuck && g.data == g.baseData
  {
    ghost var trail, answers;
    trail, asked, answers := RunAlgorithm(g, alg);
    ran := g.data;
    ghost var mid := g.Model();
    TracedRunCompletes(trail, asked, answers, ran);
    g.EndRun();
    more := g.Backtrack();
    assert g.Model() == AfterRunFn(mid, ran);
  }

  /** The loop of `execute`: passes of the algorithm until no branch is left,
      at most `runs` of them; `done` says whether the tree was finished. */
  method RunUntilDone(g: TreeGenerator, alg: Algorithm, runs: nat) returns (done: bool)
    requires g.Valid() && Inv(g.Model()) && Complete(g.Model()) && g.data == g.baseData && |g.baseData| >= 2
    requires !g.lameDuck && (g.states.items != [] || !g.restoring)
    modifies g, g.states, g.restoringDecisions.Repr
    ensures g.Valid() && Inv(g.Model())
    ensures done ==> g.Model().states == [] && [] in g.nodes && FullBinary(g.nodes)
    ensures !done ==> g.data == g.baseData && !g.lameDuck
  {
    done := false;
    var k := 0;
    while k < runs
      invariant !done
      invariant g.Valid() && fresh(g.restoringDecisions.Repr - old(g.restoringDecisions.Repr))
      invariant Inv(g.Model()) && Complete(g.Model()) && g.data == g.baseData && !g.lameDuck
      invariant g.states.items != [] || !g.restoring
    {
      var more;
      ghost var asked, ran;
      more, asked, ran := RunOnce(g, alg);
      if !more {
        done := true;
        break;
      }
      k := k + 1;
    }
  }

  /** `execute`: from a fresh generator, runs the algorithm once per path of
      the decision tree until no branch is left, then hands the tree to the
      LaTeX tree, ready to render. At most `runs` passes are made; `done`
      says whether the tree was finished within them. */
  method Execute(g: TreeGenerator, alg: Algorithm, runs: nat) returns (done: bool)
    requires g.Valid() && g.Model() == Initial() && |g.baseData| >= 2
    modifies g, g.states, g.restoringDecisions.Repr, g.latexTree
    ensures g.Valid() && Inv(g.Model())
    ensures done ==> g.Model().states == [] && [] in g.latexTree.nodes && g.latexTree.nodes == g.nodes
    ensures done ==> FullBinary(g.latexTree.nodes)
    ensures !done ==> g.data == g.baseData && !g.lameDuck
  {
    g.data := g.baseData;
    done := RunUntilDone(g, alg, runs);
    if done {
      g.latexTree.nodes := g.nodes;
    }
  }

  /** `execute` of insertion sort on `b a`, step by step. The only comparison
      insertion sort asks is `b > a`: answered True the data becomes `a b`,
      answered False it stays `b a`. The first run is answered True; the
      generator then backtracks to the "No" side of the root and replays
      False; after the second run nothing is left to explore. The finished
      tree is the comparison at the root with the leaf `a b` on its "Yes"
      side and `b a` on its "No" side. */
  method TwoElementInsertionSort(g: TreeGenerator)
    requires g.Valid() && g.Model() == Initial() && g.baseData == ["b", "a"]
    modifies g, g.states, g.restoringDecisions.Repr, g.latexTree
    ensures g.Valid() && g.Model().states == []
    ensures g.latexTree.nodes == map[[] := BranchNode(Comparison("b", Gt, "a"), []),
                                     [true] := NewLatexNode("a b", true, true, false),
                                     [false] := NewLatexNode("b a", true, false, false)]
  {
    g.data := g.baseData;
    TwoElementFirstPass(g);
    TwoElementSecondPass(g);
    g.latexTree.nodes := g.nodes;
  }

  /** The first pass of `execute` on `b a`: insertion sort asks `b > a`,
      which becomes the root and is answered True; the run is closed with
      `a b` and the generator turns to the root's "No" side. */
  method TwoElementFirstPass(g: TreeGenerator)
    requires g.Valid() && g.Model() == Initial() && g.data == g.baseData == ["b", "a"]
    modifies g, g.states, g.restoringDecisions.Repr
    ensures g.Valid() && fresh(g.restoringDecisions.Repr - old(g.restoringDecisions.Repr))
    ensures g.Model() == AfterFirstRun() && g.data == g.baseData
  {
    ghost var asked, answers := TwoElementRun(g);
    TwoElementFirstRun();
    g.EndRun();
    var more := g.Backtrack();
  }

  /** The second pass: the replay answers `b > a` False, the run is closed
      with `b a`, and no branch is left. */
  method TwoElementSecondPass(g: TreeGenerator)
    requires g.Valid() && g.Model() == AfterFirstRun() && g.data == g.baseData == ["b", "a"]
    modifies g, g.states, g.restoringDecisions.Repr
    ensures g.Valid() && fresh(g.restoringDecisions.Repr - old(g.restoringDecisions.Repr))
    ensures g.Model().states == []
    ensures g.nodes == map[[] := BranchNode(Comparison("b", Gt, "a"), []),
                           [true] := NewLatexNode("a b", true, true, false),
                           [false] := NewLatexNode("b a", true, false, false)]
  {
    TwoElementSecondRun();
    ghost var asked, answers := TwoElementRun(g);
    g.EndRun();
    var more := g.Backtrack();
  }

  /** Insertion sort on two elements, seen from the generator: it asks
      `data[0] > data[1]` once, and the answer decides the data. */
  method TwoElementRun(g: TreeGenerator) returns (ghost asked: seq<Comparison>, ghost answers: seq<bool>)
    requires g.Valid() && Inv(g.Model()) && |g.data| == 2
    requires g.Model().states != [] || (!g.restoring && !g.lameDuck)
    modifies g, g.states, g.restoringDecisions
    ensures g.Valid() && g.restoringDecisions.Repr == old(g.restoringDecisions.Repr)
    ensures asked == [Comparison(old(g.data)[0], Gt, old(g.data)[1])] && |answers| == 1
    ensures (g.Model(), answers) == Replay(old(g.Model()), asked)
    ensures Inv(g.Model()) && g.Model().states != []
    ensures g.data == if answers[0] then [old(g.data)[1], old(g.data)[0]] else old(g.data)
  {
    ghost var trail;
    trail, asked, answers := InsertionSort(g, StrGt);
    TracedRun(trail, asked, answers);
  }
}
