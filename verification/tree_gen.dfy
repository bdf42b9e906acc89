/** The decision-tree generator: answers every comparison an algorithm asks,
    records the path taken in a stack of states and the tree in a node map,
    and backtracks depth-first, left branch ("Yes") before right ("No"). */
module TreeGen {
  import opened Extra
  import opened Latex
  import DataStructures

  /** A snapshot of the generator: its two flags, the queued replay
      decisions (head first), the stack of states (bottom first) and the tree. */
  datatype Engine = Engine(
    restoring: bool,
    lameDuck: bool,
    queue: seq<bool>,
    states: seq<State>,
    nodes: map<Path, LatexNode>)

  /** The generator as constructed: both flags off, nothing queued, no state, no tree. */
  function Initial(): (e: Engine)
    ensures !e.restoring && !e.lameDuck && e.queue == [] && e.states == [] && e.nodes == map[]
  {
    Engine(false, false, [], [], map[])
  }

  function Last<T>(s: seq<T>): T
    requires s != []
  {
    s[|s| - 1]
  }

  /** The decisions taken at the given states, bottom first. */
  function Decisions(ss: seq<State>): (d: seq<bool>)
    ensures |d| == |ss|
    ensures forall i :: 0 <= i < |ss| ==> d[i] == ss[i].lastDecision
  {
    seq(|ss|, i requires 0 <= i < |ss| => ss[i].lastDecision)
  }

  /** Where the next node below state `s` goes: on the side of its last decision. */
  function ChildPath(s: State): (p: Path)
    ensures |p| == |s.node| + 1 && p[..|s.node|] == s.node && p[|s.node|] == s.lastDecision
  {
    s.node + [s.lastDecision]
  }

  /** Attaching a fresh node at `at`: whatever hung there before, with all
      its descendants, is no longer part of the tree. */
  function Graft(nodes: map<Path, LatexNode>, at: Path, n: LatexNode): (r: map<Path, LatexNode>)
    ensures at in r && r[at] == n
  {
    (map q | q in nodes && !IsPrefix(at, q) :: nodes[q])[at := n]
  }

  /** What survives a graft: exactly the nodes not below `at`, unchanged. */
  lemma GraftKeeps(nodes: map<Path, LatexNode>, at: Path, n: LatexNode)
    ensures var r := Graft(nodes, at, n);
      && (forall q :: q in r <==> q == at || (q in nodes && !IsPrefix(at, q)))
      && (forall q :: q in r && q != at ==> r[q] == nodes[q])
  {
  }

  /** The node created for the comparison first asked at path `at`: the root,
      or a child on the side given by the path's last step. */
  function BranchNode(c: Comparison, at: Path): (n: LatexNode)
    ensures !n.isLeaf && n.val == "$" + Str(c) + "$" && n.val != Null
    ensures at == [] ==> n.edgeLabel == ""
    ensures at != [] ==> (n.edgeLabel == "Yes" <==> Last(at)) && (n.edgeLabel == "No" <==> !Last(at))
  {
    NewLatexNode(Str(c), false, at == [] || Last(at), at == [])
  }

  /** The comparison that was asked at a state: a state whose right branch
      is being explored holds the negation of the comparison asked there. */
  function Asked(s: State): Comparison
    requires s.comp.op != Ne
  {
    if s.lastDecision then s.comp else Negate(s.comp)
  }

  /** The states lie on one path from the root: the bottom state is at the
      root, and each further state is at the child path of the one below it. */
  predicate Chained(ss: seq<State>)
  {
    && (ss != [] ==> ss[0].node == [])
    && (forall i :: 0 < i < |ss| ==> ss[i].node == ChildPath(ss[i - 1]))
  }

  /** Every state's node is in the tree and shows the comparison asked there. */
  predicate Labelled(ss: seq<State>, nodes: map<Path, LatexNode>)
  {
    forall i :: 0 <= i < |ss| ==>
      && Ordering(ss[i].comp)
      && ss[i].node in nodes
      && nodes[ss[i].node] == BranchNode(Asked(ss[i]), ss[i].node)
  }

  /** Every comparison in force is an ordering, so each can be negated. */
  predicate AllOrdering(ss: seq<State>)
  {
    forall i :: 0 <= i < |ss| ==> Ordering(ss[i].comp)
  }

  /** The states are the current execution path and the tree records it. */
  predicate PathInv(e: Engine)
  {
    Chained(e.states) && Labelled(e.states, e.nodes)
  }

  /** What `comp` needs: every comparison in force is an ordering, and the
      generator is restoring exactly while replay decisions are queued. */
  predicate Consistent(e: Engine)
  {
    AllOrdering(e.states) && (e.restoring <==> e.queue != [])
  }

  /** The generator's invariant: the path invariant, and it is restoring
      exactly while replay decisions are queued. */
  predicate Inv(e: Engine)
  {
    PathInv(e) && (e.restoring <==> e.queue != [])
  }

  /** The state at depth `i` sits at the node reached by the decisions of the
      states above it. */
  lemma {:induction false} StateNodeIsPath(ss: seq<State>, i: nat)
    requires Chained(ss) && i < |ss|
    ensures ss[i].node == Decisions(ss[..i])
    ensures |ss[i].node| == i
  {
    if i > 0 {
      StateNodeIsPath(ss, i - 1);
      assert ss[..i] == ss[..i - 1] + [ss[i - 1]];
      assert Decisions(ss[..i]) == Decisions(ss[..i - 1]) + [ss[i - 1].lastDecision];
    }
  }

  /** `first_comp`: the comparison becomes the root, and a state for it is pushed. */
  function FirstCompFn(e: Engine, c: Comparison): (r: Engine)
    requires e.states == []
    ensures r.states == [NewState([], c)]
    ensures r.nodes == map[[] := BranchNode(c, [])]
    ensures r.restoring == e.restoring && r.lameDuck == e.lameDuck && r.queue == e.queue
  {
    e.(states := [NewState([], c)], nodes := Graft(e.nodes, [], NewLatexNode(Str(c), false, true, true)))
  }

  /** The root state alone is a path, labelled by the root node. */
  lemma FirstCompKeepsPathInv(e: Engine, c: Comparison)
    requires e.states == [] && Ordering(c)
    ensures PathInv(FirstCompFn(e, c))
  {
    var r := FirstCompFn(e, c);
    assert r.states[..0] == [];
  }

  /** `add_node`: a node for the comparison is attached below the top state
      on the side of its last decision, and a state for it is pushed. */
  function AddNodeFn(e: Engine, c: Comparison): (r: Engine)
    requires e.states != []
    ensures r.states == e.states + [NewState(ChildPath(Last(e.states)), c)]
    ensures r.nodes == Graft(e.nodes, ChildPath(Last(e.states)), BranchNode(c, ChildPath(Last(e.states))))
    ensures r.restoring == e.restoring && r.lameDuck == e.lameDuck && r.queue == e.queue
  {
    var top := Last(e.states);
    var at := ChildPath(top);
    e.(states := e.states + [NewState(at, c)],
       nodes := Graft(e.nodes, at, NewLatexNode(Str(c), false, top.lastDecision, false)))
  }

  /** `terminate_path`: a leaf with the given text is attached below the top
      state on the side of its last decision; the run is then left to finish. */
  function TerminatePathFn(e: Engine, text: string): (r: Engine)
    requires e.states != []
    ensures r.lameDuck
    ensures r.nodes == Graft(e.nodes, ChildPath(Last(e.states)), NewLatexNode(text, true, Last(e.states).lastDecision, false))
    ensures [] in e.nodes ==> [] in r.nodes && r.nodes[[]] == e.nodes[[]]
    ensures r.states == e.states && r.restoring == e.restoring && r.queue == e.queue
  {
    var top := Last(e.states);
    e.(lameDuck := true, nodes := Graft(e.nodes, ChildPath(top), NewLatexNode(text, true, top.lastDecision, false)))
  }

  /** `' '.join(data)`: empty for no data, and with a separating space as soon
      as there are two elements. */
  function Join(data: seq<string>): (r: string)
    ensures data == [] ==> r == ""
    ensures |data| > 1 ==> ' ' in r
  {
    if |data| == 0 then ""
    else if |data| == 1 then data[0]
    else
      var front := Join(data[..|data| - 1]);
      assert data[..|data| - 1][0] == data[0];
      assert (front + " " + data[|data| - 1])[|front|] == ' ';
      front + " " + data[|data| - 1]
  }

  /** With a first element free of spaces, joining splits at the first space. */
  lemma {:induction false} JoinFirst(data: seq<string>)
    requires |data| > 1 && ' ' !in data[0]
    ensures Join(data) == data[0] + " " + Join(data[1..])
  {
    var n := |data|;
    var rest := data[1..];
    if n > 2 {
      var front := data[..n - 1];
      JoinFirst(front);
      assert front[1..] == rest[..|rest| - 1];
      assert Join(rest) == Join(front[1..]) + " " + data[n - 1];
      assert Join(data) == Join(front) + " " + data[n - 1];
    } else {
      assert data[..1] == [data[0]];
      assert Join(data) == data[0] + " " + data[1];
    }
  }

  /** Joining is one-to-one on lists of one length whose elements have no space:
      the joined text gives the elements back. */
  lemma {:induction false} JoinInjective(a: seq<string>, b: seq<string>)
    requires |a| == |b|
    requires forall i :: 0 <= i < |a| ==> ' ' !in a[i]
    requires forall i :: 0 <= i < |b| ==> ' ' !in b[i]
    requires Join(a) == Join(b)
    ensures a == b
  {
    if |a| == 1 {
    } else if |a| > 1 {
      JoinFirst(a);
      JoinFirst(b);
      SplitAtSpace(a[0], Join(a[1..]), b[0], Join(b[1..]));
      JoinInjective(a[1..], b[1..]);
      assert a == [a[0]] + a[1..] && b == [b[0]] + b[1..];
    }
  }

  /** The text of a leaf: `null` for a pruned path, the data joined by spaces
      otherwise; a completed leaf of two or more elements is never read as pruned. */
  function LeafText(isBlank: bool, data: seq<string>): (r: string)
    ensures isBlank ==> r == Null
    ensures !isBlank && |data| > 1 ==> r != Null && ' ' in r
  {
    if isBlank then Null else Join(data)
  }

  /** `d` says the opposite of the ordering comparison `c`: the same operands
      under the other operator, or swapped operands under the same one. */
  predicate Contradicts(d: Comparison, c: Comparison)
    requires Ordering(c)
  {
    d == Negate(c) || d == Comparison(c.e2, c.op, c.e1)
  }

  /** The comparison `c` was already contradicted below the top: its negation
      is equivalent to a comparison in force at one of the `below` states. */
  predicate Contradicted(c: Comparison, below: seq<State>): (r: bool)
    requires c.op != Ne
    ensures Ordering(c) ==> (r <==> exists i :: 0 <= i < |below| && Contradicts(below[i].comp, c))
  {
    exists i :: 0 <= i < |below| && Equivalent(Negate(c), below[i].comp)
  }

  /** On '>' and '<' comparisons, the test is the membership test of
      `terminate_if_invalid` with `__eq__` as written; Python evaluates
      `needle in items` as `item == needle`, so each comparison below is the
      receiver of `__eq__`. */
  lemma ContradictedAsWritten(c: Comparison, below: seq<State>)
    requires Ordering(c) && AllOrdering(below)
    ensures Contradicted(c, below) <==>
      exists i :: 0 <= i < |below| && Equals(below[i].comp, Negate(c)) == Some(true)
  {
    forall i | 0 <= i < |below|
      ensures Equals(below[i].comp, Negate(c)) == Some(Equivalent(Negate(c), below[i].comp))
    {
      EqualsAgreesOnOrderings(Negate(c), below[i].comp);
      EqualsSymmetric(Negate(c), below[i].comp);
    }
  }

  /** `terminate_if_invalid`: when the top comparison contradicts a comparison
      below it, a pruned leaf is attached below the top and False is returned;
      otherwise nothing changes. The stack is never changed. */
  function TerminateIfInvalidFn(e: Engine): (r: (Engine, bool))
    requires e.states != [] && Last(e.states).comp.op != Ne
    ensures r.0.states == e.states && r.0.restoring == e.restoring && r.0.queue == e.queue
    ensures r.1 <==> !Contradicted(Last(e.states).comp, e.states[..|e.states| - 1])
    ensures r.1 ==> r.0 == e
    ensures !r.1 ==> r.0 == TerminatePathFn(e, Null)
    ensures !r.1 ==> r.0.lameDuck && var at := ChildPath(Last(e.states));
      at in r.0.nodes && r.0.nodes[at].isLeaf && r.0.nodes[at].val == Null
  {
    var top := Last(e.states);
    if Contradicted(top.comp, e.states[..|e.states| - 1]) then (TerminatePathFn(e, Null), false)
    else (e, true)
  }

  /** `comp`: the answer to one comparison, and the generator afterwards. */
  function CompFn(e: Engine, c: Comparison): (r: (Engine, bool))
    requires Consistent(e) && Ordering(c)
    ensures Consistent(r.0)
  {
    if e.lameDuck then (e, false)
    else if e.restoring then
      var rest := e.queue[1..];
      (e.(queue := rest, restoring := rest != []), e.queue[0])
    else if e.states == [] then
      (FirstCompFn(e, c), true)
    else
      var t := TerminateIfInvalidFn(e);
      if !t.1 then (t.0, false) else (AddNodeFn(e, c), true)
  }

  /** `comp` keeps the generator's invariant. */
  lemma CompKeepsInv(e: Engine, c: Comparison)
    requires Inv(e) && Ordering(c)
    ensures Inv(CompFn(e, c).0)
  {
    if !e.lameDuck && !e.restoring && e.states == [] {
      FirstCompKeepsPathInv(e, c);
    } else if !e.lameDuck && !e.restoring {
      TerminatePathKeepsPathInv(e, Null);
      AddNodeKeepsPathInv(e, c);
    }
  }

  /** What one comparison does, case by case: a lame-duck run answers False
      and changes nothing; a restoring run answers from the front of the queue;
      the first comparison of a fresh run becomes the root and is answered
      True; any later one either contradicts a comparison above it, which
      prunes the path and answers False, or extends the path and answers True. */
  lemma CompCases(e: Engine, c: Comparison)
    requires Consistent(e) && Ordering(c)
    ensures var r := CompFn(e, c);
      && (e.lameDuck ==> r == (e, false))
      && (!e.lameDuck && e.restoring ==>
        && r.1 == e.queue[0] && r.0.queue == e.queue[1..]
        && r.0.states == e.states && r.0.nodes == e.nodes && !r.0.lameDuck)
      && (!e.lameDuck && !e.restoring && e.states == [] ==>
        r.1 && r.0.states == [NewState([], c)] && r.0.nodes == map[[] := BranchNode(c, [])])
      && (!e.lameDuck && !e.restoring && e.states != [] ==>
        && r.0.queue == [] && !r.0.restoring
        && |r.0.states| >= |e.states| && r.0.states[..|e.states|] == e.states
        && (r.1 <==> |r.0.states| == |e.states| + 1)
        && (r.1 <==> !Contradicted(Last(e.states).comp, e.states[..|e.states| - 1]))
        && (r.1 ==> Last(r.0.states) == NewState(ChildPath(Last(e.states)), c))
        && (!r.1 ==> r.0.lameDuck))
  {
  }

  /** Grafting one step below the top removes none of the state nodes. */
  lemma GraftKeepsStateNodes(ss: seq<State>, at: Path)
    requires Chained(ss) && |at| == |ss|
    ensures forall i :: 0 <= i < |ss| ==> !IsPrefix(at, ss[i].node)
  {
    forall i | 0 <= i < |ss|
      ensures !IsPrefix(at, ss[i].node)
    {
      StateNodeIsPath(ss, i);
    }
  }

  /** Grafting one step below the top keeps every state's node and label. */
  lemma LabelledAfterGraft(ss: seq<State>, nodes: map<Path, LatexNode>, at: Path, n: LatexNode)
    requires Chained(ss) && Labelled(ss, nodes) && |at| == |ss|
    ensures Labelled(ss, Graft(nodes, at, n))
  {
    GraftKeepsStateNodes(ss, at);
    var r := Graft(nodes, at, n);
    forall i | 0 <= i < |ss|
      ensures ss[i].node in r && r[ss[i].node] == nodes[ss[i].node]
    {
      StateNodeIsPath(ss, i);
    }
  }

  /** A state at the child path of the top extends the chain. */
  lemma ChainedPush(ss: seq<State>, s: State)
    requires Chained(ss) && ss != [] && s.node == ChildPath(Last(ss))
    ensures Chained(ss + [s])
  {
  }

  /** Attaching a leaf below the top leaves the path invariant intact. */
  lemma TerminatePathKeepsPathInv(e: Engine, text: string)
    requires PathInv(e) && e.states != []
    ensures PathInv(TerminatePathFn(e, text))
  {
    var top := Last(e.states);
    StateNodeIsPath(e.states, |e.states| - 1);
    LabelledAfterGraft(e.states, e.nodes, ChildPath(top), NewLatexNode(text, true, top.lastDecision, false));
  }

  /** A labelled state on top of labelled states. */
  lemma LabelledPush(ss: seq<State>, nodes: map<Path, LatexNode>, s: State)
    requires Labelled(ss, nodes) && Ordering(s.comp)
    requires s.node in nodes && nodes[s.node] == BranchNode(Asked(s), s.node)
    ensures Labelled(ss + [s], nodes)
  {
    var r := ss + [s];
    forall i | 0 <= i < |r|
      ensures Ordering(r[i].comp) && r[i].node in nodes && nodes[r[i].node] == BranchNode(Asked(r[i]), r[i].node)
    {
      if i < |ss| {
        assert r[i] == ss[i];
      }
    }
  }

  /** Pushing a node below the top keeps the path invariant. */
  lemma AddNodeKeepsPathInv(e: Engine, c: Comparison)
    requires PathInv(e) && e.states != [] && Ordering(c)
    ensures PathInv(AddNodeFn(e, c))
  {
    var r := AddNodeFn(e, c);
    var at := ChildPath(Last(e.states));
    var s := NewState(at, c);
    StateNodeIsPath(e.states, |e.states| - 1);
    LabelledAfterGraft(e.states, e.nodes, at, BranchNode(c, at));
    ChainedPush(e.states, s);
    LabelledPush(e.states, r.nodes, s);
  }

  /** The states left after `find_branch`'s loop: exhausted states (whose
      right branch has been taken) are popped from the top. */
  function PopExhausted(ss: seq<State>): (r: seq<State>)
    ensures |r| <= |ss| && r == ss[..|r|]
    ensures r != [] ==> Last(r).lastDecision
    ensures forall i :: |r| <= i < |ss| ==> !ss[i].lastDecision
  {
    if ss == [] || Last(ss).lastDecision then ss
    else PopExhausted(ss[..|ss| - 1])
  }

  /** The state turned to its right branch: the decision becomes False and
      the comparison in force becomes the negation of the one asked. */
  function Flip(s: State): (t: State)
    requires s.comp.op != Ne
    ensures t.node == s.node && !t.lastDecision && t.comp == Negate(s.comp)
    ensures Ordering(s.comp) && s.lastDecision ==> Asked(t) == Asked(s)
  {
    NegateTwice(s.comp);
    State(s.node, Negate(s.comp), false)
  }

  /** Every state except the top, bottom first: the slice `[:-1]`. */
  function Front(ss: seq<State>): (r: seq<State>)
    ensures ss == [] ==> r == []
    ensures ss != [] ==> ss == r + [Last(ss)]
  {
    if ss == [] then [] else ss[..|ss| - 1]
  }

  lemma ChainedPrefix(ss: seq<State>, k: nat)
    requires Chained(ss) && k <= |ss|
    ensures Chained(ss[..k])
  {
  }

  lemma LabelledPrefix(ss: seq<State>, nodes: map<Path, LatexNode>, k: nat)
    requires Labelled(ss, nodes) && k <= |ss|
    ensures Labelled(ss[..k], nodes)
  {
  }

  /** `find_branch`: pops the exhausted states; if one is left, the top is
      turned to its right branch and the generator starts restoring. */
  function FindBranchFn(e: Engine): (r: Engine)
    requires AllOrdering(e.states)
    ensures r.queue == e.queue && r.nodes == e.nodes
  {
    var ss := PopExhausted(e.states);
    if ss == [] then e.(states := [])
    else
      var k := |ss| - 1;
      e.(restoring := true, lameDuck := false, states := ss[..k] + [Flip(ss[k])])
  }

  /** Backtracking keeps the path invariant. */
  lemma FindBranchKeepsPathInv(e: Engine)
    requires PathInv(e)
    ensures PathInv(FindBranchFn(e))
  {
    var ss := PopExhausted(e.states);
    if ss != [] {
      FlipKeepsPathInv(e.states, e.nodes, |ss| - 1);
    }
  }

  /** Backtracking: only states whose right branch was taken are popped; the
      deepest state whose right branch is still open is turned to it, and
      the generator starts restoring. When no such state is left the stack
      ends up empty and the flags are kept. */
  lemma FindBranchBacktracks(e: Engine)
    requires AllOrdering(e.states)
    ensures var r := FindBranchFn(e);
      && |r.states| <= |e.states|
      && (r.states == [] ==>
            && r.restoring == e.restoring && r.lameDuck == e.lameDuck
            && forall i :: 0 <= i < |e.states| ==> !e.states[i].lastDecision)
      && (r.states != [] ==> var k := |r.states| - 1;
            && r.restoring && !r.lameDuck
            && r.states[..k] == e.states[..k]
            && e.states[k].lastDecision
            && r.states[k] == Flip(e.states[k])
            && forall i :: k < i < |e.states| ==> !e.states[i].lastDecision)
  {
    var ss := PopExhausted(e.states);
    if ss != [] {
      var k := |ss| - 1;
      assert ss[k] == e.states[k];
      assert (ss[..k] + [Flip(ss[k])])[..k] == e.states[..k];
    }
  }

  /** When backtracking leaves a state, the top one has turned to its right branch. */
  lemma FindBranchTurnsRight(e: Engine)
    requires AllOrdering(e.states) && FindBranchFn(e).states != []
    ensures !Last(FindBranchFn(e).states).lastDecision
  {
  }

  /** Cutting the stack above depth `k` and turning the state at `k` to its
      right branch keeps the path invariant. */
  lemma FlipKeepsPathInv(ss: seq<State>, nodes: map<Path, LatexNode>, k: nat)
    requires Chained(ss) && Labelled(ss, nodes) && k < |ss| && ss[k].lastDecision
    ensures Chained(ss[..k] + [Flip(ss[k])]) && Labelled(ss[..k] + [Flip(ss[k])], nodes)
  {
    var t := Flip(ss[k]);
    ChainedPrefix(ss, k);
    LabelledPrefix(ss, nodes, k);
    LabelledPush(ss[..k], nodes, t);
    if k > 0 {
      ChainedPush(ss[..k], t);
    }
  }

  /** `get_restoring_decisions`: the last decision of every state except the
      top, bottom first, then False. */
  function RestoringDecisionsFn(e: Engine): (r: Engine)
    ensures r.restoring == e.restoring && r.lameDuck == e.lameDuck && r.states == e.states && r.nodes == e.nodes
    ensures r.queue != []
  {
    e.(queue := e.queue + Decisions(Front(e.states)) + [false])
  }

  /** The queue grows by the last decisions of all states but the top, then False. */
  lemma RestoringDecisionsQueue(e: Engine)
    ensures var r := RestoringDecisionsFn(e);
      && |r.queue| == |e.queue| + (if e.states == [] then 1 else |e.states|)
      && r.queue[..|e.queue|] == e.queue && r.queue[|r.queue| - 1] == false
      && forall i :: 0 <= i < |e.states| - 1 ==> r.queue[|e.queue| + i] == e.states[i].lastDecision
  {
    var r := RestoringDecisionsFn(e);
    assert r.queue[..|e.queue|] == e.queue;
  }

  /** On a chained stack whose top has turned right, the decisions of all
      states but the top, then False, are the path to the top's right child. */
  lemma {:induction false} RightBranchPath(ss: seq<State>)
    requires Chained(ss) && ss != [] && !Last(ss).lastDecision
    ensures Decisions(Front(ss)) + [false] == Decisions(ss) == ChildPath(Last(ss))
  {
    var k := |ss| - 1;
    StateNodeIsPath(ss, k);
    assert ss[..k] == Front(ss);
  }

  /** With nothing queued and the top state turned right, the replay
      decisions are the path to the top's right child. */
  lemma RestoringQueueIsPath(f: Engine)
    requires f.queue == [] && Chained(f.states) && f.states != [] && !Last(f.states).lastDecision
    ensures RestoringDecisionsFn(f).queue == Decisions(f.states) == ChildPath(Last(f.states))
  {
    RightBranchPath(f.states);
    assert RestoringDecisionsFn(f).queue == Decisions(Front(f.states)) + [false];
  }

  /** After backtracking, the replay decisions lead from the root straight
      to the right child of the flipped state: the first unexplored branch. */
  lemma ReplayLeadsToBranch(e: Engine)
    requires PathInv(e) && e.queue == []
    requires FindBranchFn(e).states != []
    ensures var f := FindBranchFn(e);
      RestoringDecisionsFn(f).queue == Decisions(f.states) == ChildPath(Last(f.states))
  {
    FindBranchKeepsPathInv(e);
    FindBranchTurnsRight(e);
    RestoringQueueIsPath(FindBranchFn(e));
  }

  /** The leaf at the end of a run: `terminate_if_invalid`, then a leaf with
      the data unless the path was already terminated. */
  function EndRunFn(e: Engine, data: seq<string>): (r: Engine)
    requires PathInv(e) && e.states != []
    ensures PathInv(r) && r.lameDuck
    ensures r.states == e.states && r.queue == e.queue && r.restoring == e.restoring
    ensures [] in r.nodes
    ensures var at := ChildPath(Last(e.states));
      !e.lameDuck && !Contradicted(Last(e.states).comp, Front(e.states)) ==>
        at in r.nodes && r.nodes[at] == NewLatexNode(Join(data), true, Last(e.states).lastDecision, false)
  {
    var t := TerminateIfInvalidFn(e);
    assert e.states[0].node == [];
    TerminatePathKeepsPathInv(e, Null);
    TerminatePathKeepsPathInv(t.0, Join(data));
    if !t.0.lameDuck then TerminatePathFn(t.0, LeafText(false, data)) else t.0
  }

  /** What `execute` does between two runs of the algorithm: close the path,
      backtrack, and queue the replay decisions when a branch is left. */
  function AfterRunFn(e: Engine, data: seq<string>): (r: Engine)
    requires Inv(e) && e.states != []
    ensures Inv(r) && [] in r.nodes
    ensures r.states != [] ==> r.restoring && !r.lameDuck
    ensures r.states == [] ==> r.nodes == EndRunFn(e, data).nodes
  {
    FindBranchKeepsPathInv(EndRunFn(e, data));
    FindBranchBacktracks(EndRunFn(e, data));
    var f := FindBranchFn(EndRunFn(e, data));
    if f.states == [] then f else RestoringDecisionsFn(f)
  }

  /** The generator after the algorithm asked the comparisons `cs`, with the answers given. */
  function Replay(e: Engine, cs: seq<Comparison>): (r: (Engine, seq<bool>))
    requires Consistent(e) && forall i :: 0 <= i < |cs| ==> Ordering(cs[i])
    ensures Consistent(r.0) && |r.1| == |cs|
  {
    if cs == [] then (e, [])
    else
      var p := Replay(e, cs[..|cs| - 1]);
      var q := CompFn(p.0, Last(cs));
      (q.0, p.1 + [q.1])
  }

  /** Replaying comparisons keeps the generator's invariant. */
  lemma {:induction false} ReplayKeepsInv(e: Engine, cs: seq<Comparison>)
    requires Inv(e) && forall i :: 0 <= i < |cs| ==> Ordering(cs[i])
    ensures Inv(Replay(e, cs).0)
  {
    if cs != [] {
      ReplayKeepsInv(e, cs[..|cs| - 1]);
      CompKeepsInv(Replay(e, cs[..|cs| - 1]).0, Last(cs));
    }
  }

  /** One more comparison extends the replay by one `comp`. */
  lemma ReplayStep(e: Engine, cs: seq<Comparison>, c: Comparison)
    requires Consistent(e) && (forall i :: 0 <= i < |cs| ==> Ordering(cs[i])) && Ordering(c)
    ensures var p := Replay(e, cs); var q := CompFn(p.0, c);
      Replay(e, cs + [c]) == (q.0, p.1 + [q.1])
  {
    assert (cs + [c])[..|cs|] == cs;
  }

  /** Step `k` of a trail: the engine `trail[k]`, asked `cs[k]`, becomes
      `trail[k + 1]` and answers `answers[k]`. */
  ghost predicate StepAt(trail: seq<Engine>, cs: seq<Comparison>, answers: seq<bool>, k: nat)
    requires k < |cs| && |trail| == |cs| + 1 && |answers| == |cs|
  {
    Consistent(trail[k]) && Ordering(cs[k]) && (trail[k + 1], answers[k]) == CompFn(trail[k], cs[k])
  }

  /** `trail` lists the engine before each comparison of `cs` and after the last. */
  ghost predicate Traced(trail: seq<Engine>, cs: seq<Comparison>, answers: seq<bool>)
  {
    |trail| == |cs| + 1 && |answers| == |cs| && forall k: nat :: k < |cs| ==> StepAt(trail, cs, answers, k)
  }

  /** One more `comp` extends a trail by the engine it leaves. */
  lemma TracedSnoc(trail: seq<Engine>, cs: seq<Comparison>, answers: seq<bool>, c: Comparison, e: Engine, b: bool)
    requires Traced(trail, cs, answers) && Consistent(Last(trail)) && Ordering(c)
    requires (e, b) == CompFn(Last(trail), c)
    ensures Traced(trail + [e], cs + [c], answers + [b])
  {
    forall k: nat | k < |cs| + 1
      ensures StepAt(trail + [e], cs + [c], answers + [b], k)
    {
      if k < |cs| {
        assert StepAt(trail, cs, answers, k);
      }
    }
  }

  /** A trail ends where replaying its comparisons from its first engine ends. */
  lemma {:induction false} TracedReplay(trail: seq<Engine>, cs: seq<Comparison>, answers: seq<bool>)
    requires Traced(trail, cs, answers) && Consistent(trail[0])
    ensures forall i :: 0 <= i < |cs| ==> Ordering(cs[i])
    ensures (Last(trail), answers) == Replay(trail[0], cs)
  {
    if cs != [] {
      var n := |cs| - 1;
      assert StepAt(trail, cs, answers, n);
      var t, c, a := trail[..n + 1], cs[..n], answers[..n];
      forall k: nat | k < n
        ensures StepAt(t, c, a, k)
      {
        assert StepAt(trail, cs, answers, k);
      }
      TracedReplay(t, c, a);
      assert answers == a + [answers[n]];
    }
  }

  /** Once the run is being left to finish, every answer is False and nothing changes. */
  lemma {:induction false} LameDuckReplay(e: Engine, cs: seq<Comparison>)
    requires Consistent(e) && e.lameDuck && forall i :: 0 <= i < |cs| ==> Ordering(cs[i])
    ensures Replay(e, cs).0 == e
    ensures forall i :: 0 <= i < |cs| ==> !Replay(e, cs).1[i]
  {
    if cs != [] {
      LameDuckReplay(e, cs[..|cs| - 1]);
    }
  }

  /** While restoring, the answers are the queued decisions in FIFO order; no
      state or node is created, and restoring ends exactly when the queue is drained. */
  lemma {:induction false} RestoringReplay(e: Engine, cs: seq<Comparison>)
    requires Consistent(e) && e.restoring && !e.lameDuck && |cs| <= |e.queue|
    requires forall i :: 0 <= i < |cs| ==> Ordering(cs[i])
    ensures var r := Replay(e, cs);
      && r.1 == e.queue[..|cs|] && r.0.queue == e.queue[|cs|..]
      && r.0.states == e.states && r.0.nodes == e.nodes && !r.0.lameDuck
      && (r.0.restoring <==> |cs| < |e.queue|)
  {
    if cs != [] {
      RestoringReplay(e, cs[..|cs| - 1]);
      var p := Replay(e, cs[..|cs| - 1]);
      assert p.0.queue[1..] == e.queue[|cs|..];
      assert e.queue[..|cs|] == e.queue[..|cs| - 1] + [p.0.queue[0]];
    }
  }

  /** Pruning is sound: when the top comparison's negation is equivalent to a
      comparison in force below it (on distinct operands), the comparisons
      along the path cannot all hold, so no input reaches that branch. */
  lemma PrunedPathUnsatisfiable(ss: seq<State>)
    requires ss != [] && forall i :: 0 <= i < |ss| ==> Ordering(ss[i].comp)
    requires Ordering(Last(ss).comp) && Last(ss).comp.e1 != Last(ss).comp.e2
    requires Contradicted(Last(ss).comp, Front(ss))
    ensures !(forall i :: 0 <= i < |ss| ==> Holds(ss[i].comp))
  {
    var top := Last(ss).comp;
    var i :| 0 <= i < |Front(ss)| && Equivalent(Negate(top), Front(ss)[i].comp);
    EquivalentSound(Negate(top), Front(ss)[i].comp);
    NegationIsComplement(top);
    assert Front(ss)[i] == ss[i];
  }

  /** The stack never shrinks during a run, and the first comparison asked
      of a fresh generator creates the root state. */
  lemma {:induction false} ReplayKeepsStates(e: Engine, cs: seq<Comparison>)
    requires Consistent(e) && forall i :: 0 <= i < |cs| ==> Ordering(cs[i])
    ensures |Replay(e, cs).0.states| >= |e.states|
    ensures e.states != [] ==> Replay(e, cs).0.states[0] == e.states[0]
    ensures cs != [] && !e.restoring && !e.lameDuck ==> Replay(e, cs).0.states != []
  {
    if cs != [] {
      var front := cs[..|cs| - 1];
      ReplayKeepsStates(e, front);
      var p := Replay(e, front).0;
      CompCases(p, Last(cs));
      assert Replay(e, cs).0 == CompFn(p, Last(cs)).0;
    }
  }

  /** The node at `q` is the node of a state; on a chained stack only the
      state at depth `|q|` can sit there. */
  predicate OnStack(q: Path, ss: seq<State>)
  {
    |q| < |ss| && ss[|q|].node == q
  }

  /** Every node but the root hangs from a node of the tree. */
  predicate Rooted(nodes: map<Path, LatexNode>)
  {
    forall q {:trigger nodes[q]} :: q in nodes && q != [] ==> q[..|q| - 1] in nodes
  }

  /** Nothing hangs from a leaf. */
  predicate LeavesBare(nodes: map<Path, LatexNode>)
  {
    forall q {:trigger nodes[q]} :: q in nodes && nodes[q].isLeaf ==> q + [true] !in nodes && q + [false] !in nodes
  }

  /** Every comparison node off the current path has both children. */
  predicate Closed(nodes: map<Path, LatexNode>, ss: seq<State>)
  {
    forall q {:trigger nodes[q]} :: q in nodes && !nodes[q].isLeaf && !OnStack(q, ss) ==> q + [true] in nodes && q + [false] in nodes
  }

  /** A state whose right branch is being explored keeps its explored left subtree. */
  predicate LeftDone(nodes: map<Path, LatexNode>, ss: seq<State>)
  {
    forall i :: 0 <= i < |ss| && !ss[i].lastDecision ==> ss[i].node + [true] in nodes
  }

  /** The tree is being completed depth-first: it hangs together, leaves are
      bare, every comparison node off the path has both children, every state
      on its right branch has its left subtree, and a run left to finish has
      its leaf below the top. */
  predicate Complete(e: Engine)
  {
    && Rooted(e.nodes) && LeavesBare(e.nodes)
    && Closed(e.nodes, e.states) && LeftDone(e.nodes, e.states)
    && (e.lameDuck && e.states != [] ==> ChildPath(Last(e.states)) in e.nodes)
  }

  /** A finished decision tree: every node but the root hangs from another,
      every comparison node has a Yes and a No child, and a leaf has neither. */
  predicate FullBinary(nodes: map<Path, LatexNode>)
  {
    forall q {:trigger nodes[q]} :: q in nodes ==>
      && (q != [] ==> q[..|q| - 1] in nodes)
      && (if nodes[q].isLeaf then q + [true] !in nodes && q + [false] !in nodes
          else q + [true] in nodes && q + [false] in nodes)
  }

  /** A path whose parent is below `at` is below `at`. */
  lemma BelowParent(at: Path, q: Path)
    ensures q != [] && IsPrefix(at, q[..|q| - 1]) ==> IsPrefix(at, q)
  {
    if q != [] && IsPrefix(at, q[..|q| - 1]) {
      assert q[..|at|] == q[..|q| - 1][..|at|];
    }
  }

  /** A child is below `at` exactly when its parent is, or it is `at` itself. */
  lemma ChildBelow(at: Path, q: Path, b: bool)
    ensures IsPrefix(at, q + [b]) <==> IsPrefix(at, q) || at == q + [b]
  {
    if |at| <= |q| {
      assert (q + [b])[..|at|] == q[..|at|];
    }
  }

  /** Grafting below a node of the tree keeps the tree hanging together. */
  lemma GraftRooted(nodes: map<Path, LatexNode>, at: Path, n: LatexNode)
    requires Rooted(nodes) && at != [] && at[..|at| - 1] in nodes
    ensures Rooted(Graft(nodes, at, n))
  {
    var r := Graft(nodes, at, n);
    GraftKeeps(nodes, at, n);
    forall q | q in r && q != []
      ensures q[..|q| - 1] in r
    {
      BelowParent(at, q);
    }
  }

  lemma SnocInjective(p: Path, a: bool, q: Path, b: bool)
    ensures p + [a] == q + [b] ==> p == q && a == b
  {
    if p + [a] == q + [b] {
      assert p == (p + [a])[..|p|];
      assert q == (q + [b])[..|q|];
    }
  }

  /** Grafting below a comparison node keeps the leaves bare: what hung
      below the graft point is gone. */
  lemma GraftLeavesBare(nodes: map<Path, LatexNode>, at: Path, n: LatexNode)
    requires LeavesBare(nodes) && at != [] && at[..|at| - 1] in nodes && !nodes[at[..|at| - 1]].isLeaf
    ensures LeavesBare(Graft(nodes, at, n))
  {
    var r := Graft(nodes, at, n);
    GraftKeeps(nodes, at, n);
    var p := at[..|at| - 1];
    assert at == p + [at[|at| - 1]];
    forall q, b | q in r && r[q].isLeaf
      ensures q + [b] !in r
    {
      ChildBelow(at, q, b);
      SnocInjective(q, b, p, at[|at| - 1]);
      assert (at + [b])[..|at|] == at;
    }
  }

  /** Grafting keeps every comparison node other than the new one closed. */
  lemma GraftClosed(nodes: map<Path, LatexNode>, ss: seq<State>, at: Path, n: LatexNode)
    requires Closed(nodes, ss)
    ensures var r := Graft(nodes, at, n);
      forall q :: q in r && q != at && !r[q].isLeaf && !OnStack(q, ss) ==> q + [true] in r && q + [false] in r
  {
    var r := Graft(nodes, at, n);
    GraftKeeps(nodes, at, n);
    forall q | q in r && q != at && !r[q].isLeaf && !OnStack(q, ss)
      ensures q + [true] in r && q + [false] in r
    {
      ChildBelow(at, q, true);
      ChildBelow(at, q, false);
    }
  }

  /** Grafting at the top's child path keeps every explored left subtree:
      the graft point lies on the path, never below a state's left child. */
  lemma GraftLeftDone(ss: seq<State>, nodes: map<Path, LatexNode>, n: LatexNode)
    requires Chained(ss) && ss != [] && LeftDone(nodes, ss)
    ensures LeftDone(Graft(nodes, ChildPath(Last(ss)), n), ss)
  {
    var at := ChildPath(Last(ss));
    var r := Graft(nodes, at, n);
    GraftKeeps(nodes, at, n);
    StateNodeIsPath(ss, |ss| - 1);
    forall i | 0 <= i < |ss| && !ss[i].lastDecision
      ensures ss[i].node + [true] in r
    {
      StateNodeIsPath(ss, i);
      assert at[i] == ss[i].lastDecision;
      assert (ss[i].node + [true])[i] == true;
    }
  }

  /** The facts about the graft point below the top that every graft lemma needs. */
  lemma GraftPoint(e: Engine)
    requires PathInv(e) && e.states != []
    ensures var at := ChildPath(Last(e.states));
      at != [] && at[..|at| - 1] in e.nodes && !e.nodes[at[..|at| - 1]].isLeaf && |at| == |e.states|
  {
    StateNodeIsPath(e.states, |e.states| - 1);
  }

  /** Attaching a leaf below the top keeps the tree being completed. */
  lemma TerminatePathKeepsComplete(e: Engine, text: string)
    requires PathInv(e) && Complete(e) && e.states != []
    ensures Complete(TerminatePathFn(e, text))
  {
    var at := ChildPath(Last(e.states));
    var n := NewLatexNode(text, true, Last(e.states).lastDecision, false);
    GraftPoint(e);
    GraftRooted(e.nodes, at, n);
    GraftLeavesBare(e.nodes, at, n);
    GraftClosed(e.nodes, e.states, at, n);
    GraftLeftDone(e.states, e.nodes, n);
  }

  /** Pushing a state for the node at the graft point, on its left side,
      keeps the comparison nodes off the path closed and every explored left
      subtree. */
  lemma PushKeepsClosed(ss: seq<State>, s: State, nodes: map<Path, LatexNode>)
    requires s.lastDecision && |s.node| == |ss| && LeftDone(nodes, ss)
    requires forall q :: q in nodes && q != s.node && !nodes[q].isLeaf && !OnStack(q, ss) ==>
      q + [true] in nodes && q + [false] in nodes
    ensures Closed(nodes, ss + [s]) && LeftDone(nodes, ss + [s])
  {
    var r := ss + [s];
    forall q | q in nodes && !nodes[q].isLeaf && !OnStack(q, r)
      ensures q + [true] in nodes && q + [false] in nodes
    {
      if |q| < |ss| {
        assert r[|q|] == ss[|q|];
      }
    }
    forall i | 0 <= i < |r| && !r[i].lastDecision
      ensures r[i].node + [true] in nodes
    {
      if i < |ss| {
        assert r[i] == ss[i];
      }
    }
  }

  /** Pushing a node below the top keeps the tree being completed: the new
      node is on the path. */
  lemma AddNodeKeepsComplete(e: Engine, c: Comparison)
    requires PathInv(e) && Complete(e) && e.states != [] && !e.lameDuck
    ensures Complete(AddNodeFn(e, c))
  {
    var at := ChildPath(Last(e.states));
    var n := BranchNode(c, at);
    GraftPoint(e);
    GraftRooted(e.nodes, at, n);
    GraftLeavesBare(e.nodes, at, n);
    GraftClosed(e.nodes, e.states, at, n);
    GraftLeftDone(e.states, e.nodes, n);
    PushKeepsClosed(e.states, NewState(at, c), Graft(e.nodes, at, n));
  }

  /** `comp` keeps the tree being completed. */
  lemma CompKeepsComplete(e: Engine, c: Comparison)
    requires Inv(e) && Complete(e) && Ordering(c)
    ensures Complete(CompFn(e, c).0)
  {
    if !e.lameDuck && !e.restoring && e.states != [] {
      ExtendKeepsComplete(e, c);
    }
  }

  /** A later comparison of a fresh run keeps the tree being completed,
      whether it prunes the path or extends it. */
  lemma ExtendKeepsComplete(e: Engine, c: Comparison)
    requires Inv(e) && Complete(e) && Ordering(c)
    requires !e.lameDuck && !e.restoring && e.states != []
    ensures Complete(CompFn(e, c).0)
  {
    var t := TerminateIfInvalidFn(e);
    if !t.1 {
      TerminatePathKeepsComplete(e, Null);
    } else {
      AddNodeKeepsComplete(e, c);
    }
  }

  /** Replaying comparisons keeps the tree being completed. */
  lemma {:induction false} ReplayKeepsComplete(e: Engine, cs: seq<Comparison>)
    requires Inv(e) && Complete(e) && forall i :: 0 <= i < |cs| ==> Ordering(cs[i])
    ensures Complete(Replay(e, cs).0)
  {
    if cs != [] {
      ReplayKeepsInv(e, cs[..|cs| - 1]);
      ReplayKeepsComplete(e, cs[..|cs| - 1]);
      CompKeepsComplete(Replay(e, cs[..|cs| - 1]).0, Last(cs));
    }
  }

  /** `terminate_if_invalid` keeps the tree being completed. */
  lemma CheckKeepsComplete(e: Engine)
    requires PathInv(e) && Complete(e) && e.states != [] && Last(e.states).comp.op != Ne
    ensures var t := TerminateIfInvalidFn(e).0; PathInv(t) && Complete(t)
  {
    TerminatePathKeepsComplete(e, Null);
    TerminatePathKeepsPathInv(e, Null);
  }

  /** Closing the path keeps the tree being completed. */
  lemma EndRunKeepsComplete(e: Engine, data: seq<string>)
    requires PathInv(e) && Complete(e) && e.states != []
    ensures Complete(EndRunFn(e, data))
  {
    var t := TerminateIfInvalidFn(e).0;
    CheckKeepsComplete(e);
    if !t.lameDuck {
      TerminatePathKeepsComplete(t, LeafText(false, data));
    }
  }

  /** On a closed path every state's child path is in the tree: the next
      state's node, or the leaf below the top. */
  lemma ChildrenOnPath(ss: seq<State>, nodes: map<Path, LatexNode>)
    requires Chained(ss) && Labelled(ss, nodes) && ss != [] && ChildPath(Last(ss)) in nodes
    ensures forall j :: 0 <= j < |ss| ==> ChildPath(ss[j]) in nodes
  {
    forall j | 0 <= j < |ss|
      ensures ChildPath(ss[j]) in nodes
    {
      if j + 1 < |ss| {
        assert ss[j + 1].node == ChildPath(ss[j]);
      }
    }
  }

  /** Popping the exhausted states of a closed path keeps the comparison
      nodes off the path closed: a popped state had turned right, so both
      its children are in the tree. */
  lemma PopKeepsClosed(ss: seq<State>, nodes: map<Path, LatexNode>)
    requires Chained(ss) && Labelled(ss, nodes) && ss != [] && ChildPath(Last(ss)) in nodes
    requires Closed(nodes, ss) && LeftDone(nodes, ss)
    ensures Closed(nodes, PopExhausted(ss))
  {
    var ps := PopExhausted(ss);
    ChildrenOnPath(ss, nodes);
    forall q | q in nodes && !nodes[q].isLeaf && !OnStack(q, ps)
      ensures q + [true] in nodes && q + [false] in nodes
    {
      if OnStack(q, ss) {
        assert ChildPath(ss[|q|]) == q + [ss[|q|].lastDecision];
      }
    }
  }

  /** Turning the top state right leaves the same nodes on the path. */
  lemma FlipOnStack(ps: seq<State>, q: Path)
    requires ps != [] && Last(ps).comp.op != Ne
    ensures var k := |ps| - 1; OnStack(q, ps[..k] + [Flip(ps[k])]) <==> OnStack(q, ps)
  {
    var k := |ps| - 1;
    var r := ps[..k] + [Flip(ps[k])];
    if |q| < k {
      assert r[|q|] == ps[|q|];
    }
  }

  /** Backtracking from a closed path keeps the comparison nodes off the path closed. */
  lemma FindBranchClosed(e: Engine)
    requires PathInv(e) && e.states != [] && ChildPath(Last(e.states)) in e.nodes
    requires Closed(e.nodes, e.states) && LeftDone(e.nodes, e.states)
    ensures Closed(e.nodes, FindBranchFn(e).states)
  {
    var ps := PopExhausted(e.states);
    PopKeepsClosed(e.states, e.nodes);
    if ps != [] {
      forall q {
        FlipOnStack(ps, q);
      }
    }
  }

  /** Backtracking from a closed path keeps every explored left subtree,
      and the state turned right has its left subtree. */
  lemma FindBranchLeftDone(e: Engine)
    requires AllOrdering(e.states) && LeftDone(e.nodes, e.states)
    requires forall j :: 0 <= j < |e.states| ==> ChildPath(e.states[j]) in e.nodes
    ensures LeftDone(e.nodes, FindBranchFn(e).states)
  {
    var ss := e.states;
    var ps := PopExhausted(ss);
    if ps != [] {
      var k := |ps| - 1;
      var r := ps[..k] + [Flip(ps[k])];
      assert r[k].node + [true] == ChildPath(ss[k]);
      forall i | 0 <= i < k && !r[i].lastDecision
        ensures r[i].node + [true] in e.nodes
      {
        assert r[i] == ss[i];
      }
    }
  }

  /** Backtracking from a closed path keeps the tree being completed. */
  lemma FindBranchKeepsComplete(e: Engine)
    requires PathInv(e) && Complete(e) && e.states != [] && e.lameDuck
    ensures Complete(FindBranchFn(e))
  {
    FindBranchClosed(e);
    ChildrenOnPath(e.states, e.nodes);
    FindBranchLeftDone(e);
  }

  /** What `execute` does between two runs keeps the tree being completed. */
  lemma AfterRunKeepsComplete(e: Engine, data: seq<string>)
    requires Inv(e) && Complete(e) && e.states != []
    ensures Complete(AfterRunFn(e, data))
  {
    EndRunKeepsComplete(e, data);
    FindBranchKeepsComplete(EndRunFn(e, data));
  }

  /** A whole pass of `execute` keeps the tree being completed: the run's
      comparisons, then the close of its path and the backtracking. */
  lemma PassKeepsComplete(e: Engine, cs: seq<Comparison>, data: seq<string>)
    requires Inv(e) && Complete(e) && forall i :: 0 <= i < |cs| ==> Ordering(cs[i])
    requires Replay(e, cs).0.states != []
    ensures Inv(Replay(e, cs).0) && Complete(AfterRunFn(Replay(e, cs).0, data))
  {
    ReplayKeepsInv(e, cs);
    ReplayKeepsComplete(e, cs);
    AfterRunKeepsComplete(Replay(e, cs).0, data);
  }

  /** `TreeGenerator`: the generator an algorithm asks its comparisons of.
      `nodes` is the tree hanging from the root node; it is handed to the
      LaTeX tree when the execution ends. */
  class TreeGenerator {
    var restoring: bool
    var lameDuck: bool
    const restoringDecisions: DataStructures.Queue<bool>
    const states: DataStructures.Stack<State>
    var data: seq<string>
    var nodes: map<Path, LatexNode>
    const baseData: seq<string>
    const latexTree: LatexTree

    ghost predicate Valid()
      reads states, restoringDecisions, restoringDecisions.Repr
    {
      && states.Valid() && restoringDecisions.Valid()
      && this !in restoringDecisions.Repr && states !in restoringDecisions.Repr
      && latexTree !in restoringDecisions.Repr
    }

    /** The generator's state as an `Engine` value. */
    ghost function Model(): Engine
      reads this, states, restoringDecisions
    {
      Engine(restoring, lameDuck, restoringDecisions.Contents(), states.items, nodes)
    }

    constructor (baseData: seq<string>)
      ensures Valid() && Model() == Initial()
      ensures this.baseData == baseData && data == []
      ensures fresh(states) && fresh(restoringDecisions.Repr) && fresh(latexTree)
      ensures latexTree.nodes == map[] && latexTree.treeCode == ""
    {
      restoring := false;
      lameDuck := false;
      restoringDecisions := new DataStructures.Queue();
      states := new DataStructures.Stack();
      data := [];
      nodes := map[];
      this.baseData := baseData;
      latexTree := new LatexTree();
    }

    /** `render`: the LaTeX code of the published tree. */
    method Render() returns (code: string)
      requires [] in latexTree.nodes
      modifies latexTree`treeCode
      ensures latexTree.nodes == old(latexTree.nodes)
      ensures latexTree.treeCode == Forest(latexTree.nodes, [], "  ")
      ensures code == Rendered(latexTree.nodes)
    {
      code := latexTree.Render();
    }

    /** `get_restoring_decisions`. */
    method GetRestoringDecisions()
      requires Valid()
      modifies restoringDecisions.Repr
      ensures Valid() && fresh(restoringDecisions.Repr - old(restoringDecisions.Repr))
      ensures Model() == RestoringDecisionsFn(old(Model()))
    {
      var front := states.AllButTop();
      EnqueueDecisions(front);
      restoringDecisions.Enqueue(false);
    }

    /** The loop of `get_restoring_decisions`: queues the last decision of
        each given state, in order. */
    method EnqueueDecisions(front: seq<State>)
      requires Valid()
      modifies restoringDecisions.Repr
      ensures Valid() && fresh(restoringDecisions.Repr - old(restoringDecisions.Repr))
      ensures restoringDecisions.Contents() == old(restoringDecisions.Contents()) + Decisions(front)
    {
      for i := 0 to |front|
        invariant Valid()
        invariant fresh(restoringDecisions.Repr - old(restoringDecisions.Repr))
        invariant restoringDecisions.Contents() == old(restoringDecisions.Contents()) + Decisions(front[..i])
      {
        restoringDecisions.Enqueue(front[i].lastDecision);
        assert front[..i + 1] == front[..i] + [front[i]];
      }
      assert front[..|front|] == front;
    }

    /** `find_branch`: pops the exhausted states, then turns the deepest open
        state to its right branch. */
    method FindBranch()
      requires Valid() && AllOrdering(states.items)
      modifies this, states
      ensures Valid() && restoringDecisions.Repr == old(restoringDecisions.Repr)
      ensures Model() == FindBranchFn(old(Model()))
      ensures states.items != [] ==> data == baseData
      ensures states.items == [] ==> data == old(data)
    {
      PopExhaustedStates();
      if states.IsEmpty() {
        return;
      }
      TakeRightBranch();
    }

    /** The loop of `find_branch`: pops states while the top one has already
        taken its right branch (its last decision is False). */
    method PopExhaustedStates()
      requires Valid()
      modifies states
      ensures Valid() && states.items == PopExhausted(old(states.items))
    {
      while !states.IsEmpty() && !states.Top().lastDecision
        invariant Valid()
        invariant PopExhausted(states.items) == PopExhausted(old(states.items))
        decreases |states.items|
      {
        var _ := states.Pop();
      }
    }

    /** The end of `find_branch` once an open state is on top: restoring
        starts, the top state's decision becomes False and its comparison is
        negated, and the data is reset to the base data. */
    method TakeRightBranch()
      requires Valid() && states.items != [] && Ordering(Last(states.items).comp)
      modifies this, states
      ensures Valid() && restoringDecisions.Repr == old(restoringDecisions.Repr)
      ensures Model() == old(Model()).(restoring := true, lameDuck := false,
        states := old(states.items)[..|old(states.items)| - 1] + [Flip(Last(old(states.items)))])
      ensures data == baseData
    {
      restoring := true;
      lameDuck := false;
      var state := states.Pop();
      var newComp := Negate(state.comp);
      states.Push(State(state.node, newComp, false));
      data := baseData;
    }

    /** `add_node`. */
    method AddNode(newComp: Comparison)
      requires Valid() && states.items != []
      modifies this, states
      ensures Valid() && restoringDecisions.Repr == old(restoringDecisions.Repr)
      ensures Model() == AddNodeFn(old(Model()), newComp) && data == old(data)
    {
      var latestState := states.Top();
      var text := Str(newComp);
      var isLeft := latestState.lastDecision;
      var newNode := NewLatexNode(text, false, isLeft, false);
      if isLeft {
        nodes := Graft(nodes, latestState.node + [true], newNode);
      } else {
        nodes := Graft(nodes, latestState.node + [false], newNode);
      }
      var newState := NewState(latestState.node + [isLeft], newComp);
      states.Push(newState);
    }

    /** `terminate_path`. */
    method TerminatePath(isBlank: bool)
      requires Valid() && states.items != []
      modifies this
      ensures Valid()
      ensures Model() == TerminatePathFn(old(Model()), LeafText(isBlank, old(data))) && data == old(data)
    {
      var latestState := states.Top();
      var isLeft := latestState.lastDecision;
      var text := if isBlank then Null else Join(data);
      assert text == LeafText(isBlank, data);
      var newNode := NewLatexNode(text, true, isLeft, false);
      if isLeft {
        nodes := Graft(nodes, latestState.node + [true], newNode);
      } else {
        nodes := Graft(nodes, latestState.node + [false], newNode);
      }
      lameDuck := true;
    }

    /** `first_comp`: the root node is replaced by a node for the comparison. */
    method FirstComp(newComp: Comparison)
      requires Valid() && states.items == []
      modifies this, states
      ensures Valid() && restoringDecisions.Repr == old(restoringDecisions.Repr)
      ensures Model() == FirstCompFn(old(Model()), newComp) && data == old(data)
    {
      var text := Str(newComp);
      var newNode := NewLatexNode(text, false, true, true);
      var newState := NewState([], newComp);
      states.Push(newState);
      nodes := map[[] := newNode];
    }

    /** `terminate_if_invalid`. */
    method TerminateIfInvalid() returns (valid: bool)
      requires Valid() && states.items != [] && Last(states.items).comp.op != Ne
      modifies this
      ensures Valid()
      ensures (Model(), valid) == TerminateIfInvalidFn(old(Model())) && data == old(data)
    {
      var lastComp := states.Top().comp;
      if Contradicted(lastComp, states.AllButTop()) {
        TerminatePath(true);
        return false;
      }
      return true;
    }

    /** `comp`: the answer given to the algorithm for `e1 op e2`. */
    method Comp(e1: string, op: Op, e2: string) returns (b: bool)
      requires Valid() && Consistent(Model()) && Ordering(Comparison(e1, op, e2))
      modifies this, states, restoringDecisions
      ensures Valid() && restoringDecisions.Repr == old(restoringDecisions.Repr)
      ensures (Model(), b) == CompFn(old(Model()), Comparison(e1, op, e2)) && data == old(data)
    {
      if lameDuck {
        return false;
      }
      if restoring {
        b := restoringDecisions.Dequeue();
        if restoringDecisions.IsEmpty() {
          restoring := false;
        }
        return;
      }
      var c := Comparison(e1, op, e2);
      if states.IsEmpty() {
        FirstComp(c);
        return true;
      }
      var valid := TerminateIfInvalid();
      if !valid {
        return false;
      }
      AddNode(c);
      return true;
    }

    /** The close of a run in `execute`: `terminate_if_invalid`, then a leaf
        holding the data unless the path was already terminated. */
    method EndRun()
      requires Valid() && PathInv(Model()) && states.items != []
      modifies this
      ensures Valid() && data == old(data)
      ensures Model() == EndRunFn(old(Model()), data)
    {
      var valid := TerminateIfInvalid();
      if !lameDuck {
        TerminatePath(false);
      }
    }

    /** The backtracking of `execute`: `find_branch`, then, when a branch is
        left (`more`), `get_restoring_decisions`. */
    method Backtrack() returns (more: bool)
      requires Valid() && AllOrdering(states.items)
      modifies this, states, restoringDecisions.Repr
      ensures Valid() && fresh(restoringDecisions.Repr - old(restoringDecisions.Repr))
      ensures more <==> states.items != []
      ensures var f := FindBranchFn(old(Model()));
        Model() == if more then RestoringDecisionsFn(f) else f
      ensures more ==> data == baseData
    {
      FindBranch();
      more := !states.IsEmpty();
      if more {
        GetRestoringDecisions();
      }
    }
  }
}
