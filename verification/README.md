# Decision-tree generator, modelled in Dafny

The decision-tree generator runs a comparison-based algorithm again and again
over the same data. Each `comp(e1, op, e2)` the algorithm asks is a branch of
the tree.

- **First run.** The generator answers True at every new comparison and grows
  the leftmost path.
- **Closing a path.** At the end of a run the path is closed with a leaf: the
  data joined by spaces, or `null` when the last comparison contradicted one
  above it.
- **Backtracking.** The generator pops the states whose right ("No") branch is
  already explored and turns the deepest open state to its right branch. It
  queues the decisions that lead back there, and the next run replays them
  before exploring anew.
- **Lame duck.** Once a path is terminated, every further answer of that run
  is False.
- **Output.** When no state is left, the tree is handed to the LaTeX tree and
  rendered as `forest` code.
- **Examples.** Bubble, insertion and shell sort over strings are the example
  algorithms.

The model has six modules.

- `Extra` (`extra.dfy`) holds comparisons: their text, negation, equivalence
  and meaning under Python's string order. It also holds the per-branch
  `State` record.
- `DataStructures` (`data_structures.dfy`) holds the list-backed `Stack` and
  the linked `Queue`, as classes. The queue keeps a ghost list of its nodes.
- `Latex` (`latex.dfy`) holds LaTeX nodes and the `forest` rendering.
  - A tree is a map from paths (`true` = left/"Yes", from the root) to nodes.
  - `Forest` is the reference definition of the code rendered for a subtree.
  - `LatexTree.RenderForest` is the recursive, in-place accumulator of
    `render_forest`.
- `TreeGen` (`tree_gen.dfy`) holds the generator.
  - `Engine` is a value snapshot of the generator's state: its flags, the
    decision queue, the state stack and the node map.
  - One function per operation gives the new snapshot (`CompFn`,
    `FindBranchFn`, ...). Lemmas prove the invariant each keeps: the states
    form one path from the root, and each state's node shows the comparison
    asked there.
  - The `TreeGenerator` class updates its fields in place. Each method proves
    `Model() == XFn(old(Model()))`.
  - `Replay` gives the generator after a run asked a list of comparisons.
  - `Complete` says the tree is being completed depth-first. It holds four
    things. The nodes hang together. Leaves have no children. Every
    comparison node off the current path has both children. Every state on
    its right branch keeps its explored left subtree. Every operation keeps
    it, so when no state is left the tree is full binary (`FullBinary`).
- `Sorting` (`sorting.dfy`) gives reference functions for the three
  algorithms when every answer is the truth under a "greater than" order
  `gt`. Under any strict weak order, such as Python's order on strings, they
  sort and permute.
- `Examples` (`examples.dfy`) holds the three algorithms as loops over the
  generator's `data` that ask `g.Comp`. It also holds `execute`'s loop.
  - Each algorithm method records, as ghost outputs, the engine trail, the
    comparisons asked and the answers given.
  - Each proves that the data stays a permutation.
  - Each proves that with truthful answers the data ends as the reference
    function says, and therefore sorted.
  - Each bounds the number of comparisons asked.

## Model

| member | source | states |
|---|---|---|
| Extra.OpText | src/decision_tree/extra.py:44-48 | The printed operator is non-empty and has no space, so the text of a comparison can be split back into its parts. |
| Extra.Negation | src/decision_tree/extra.py:19-23 | The `NEGATIONS` table has an entry for every operator but '!='. '>' and '<' map to each other, and no operator maps to itself or to '=='. |
| Extra.Negate | src/decision_tree/extra.py:72-81 | The negation keeps both operands in place and follows the `NEGATIONS` table: '>' and '<' swap, '==' becomes '!=', and it is defined for every operator but '!='. |
| Extra.NegateTwice | src/decision_tree/extra.py:19-23 | Negating '>' or '<' twice gives the comparison back; '==' negates to '!=', which has no negation. |
| Extra.Equals | src/decision_tree/extra.py:50-70 | `__eq__`: None exactly where the table lookup raises KeyError (different operators, right-hand '!='). Same operators compare operands in order. Where the other's table entry equals this operator, operands are compared crossed. True only in those two cases. |
| Extra.CrossEquivalence | src/decision_tree/extra.py:61-68 | `a > b` equals `b < a` either way round, and never equals `a == b`. |
| Extra.EqualsSymmetric | src/decision_tree/extra.py:50-70 | Between '>'/'<' comparisons, `__eq__` never raises and is symmetric. |
| Extra.StrInjective | src/decision_tree/extra.py:37-48 | `__str__` determines the comparison when the first operand has no space. |
| Extra.Str | src/decision_tree/extra.py:37-48 | The text is as long as both operands and the operator together, plus two separating spaces. |
| Extra.StrParts | src/decision_tree/extra.py:37-48 | The text reads back as the first operand, a space, the operator, a space and the second operand. |
| Extra.EquivalentHoldTogether | src/decision_tree/extra.py:50-70 | Comparisons `__eq__` finds equivalent assert the same fact under Python's string order, when the left one is not '!='. |
| Extra.NotEqualMistakenForEqual | src/decision_tree/extra.py:61-68 | `__eq__` as written finds `a != b` equivalent to `b == a`, although on distinct operands one holds and the other does not. |
| Extra.EquivalentSound | src/decision_tree/extra.py:50-70 | The intended equivalence (same comparison, or converse operator with operands swapped) relates comparisons asserting the same fact, for every operator. |
| Extra.EqualsAgreesOnOrderings | src/decision_tree/extra.py:50-70 | On '>'/'<' comparisons `__eq__` as written returns exactly the intended equivalence. |
| Extra.NegationIsComplement | src/decision_tree/extra.py:72-81 | On distinct operands a comparison's negation holds exactly when the comparison does not. |
| Extra.NewState | src/decision_tree/extra.py:95-98 | A new state keeps its node and comparison and starts with last decision True. |
| Sorting.StringOrderIsStrictWeak | src/example.py:16 | Python's `>` on strings, which the examples compare with, is never both ways and its "not greater" is transitive. |
| DataStructures.Stack.constructor | src/decision_tree/data_structures.py:10-12 | A new stack holds no items. |
| DataStructures.Stack.Size | src/decision_tree/data_structures.py:14-21 | The size is the number of items. |
| DataStructures.Stack.IsEmpty | src/decision_tree/data_structures.py:23-30 | True exactly when the stack holds no items. |
| DataStructures.Stack.Push | src/decision_tree/data_structures.py:32-41 | The element is appended, becomes the top, and the size grows by one. |
| DataStructures.Stack.Top | src/decision_tree/data_structures.py:43-50 | The most recently pushed item still held. |
| DataStructures.Stack.Pop | src/decision_tree/data_structures.py:52-60 | Returns the former top; the items are the old ones without it; the size drops by one. |
| DataStructures.Stack.AllButTop | src/decision_tree/data_structures.py:62-72 | The slice `[:-1]`: the items with the top removed, empty for an empty stack. |
| DataStructures.QNode.constructor | src/decision_tree/data_structures.py:94-96 | A node holds its element and its successor. |
| DataStructures.Queue.constructor | src/decision_tree/data_structures.py:98-101 | A new queue is empty and owns only itself. |
| DataStructures.Queue.Size | src/decision_tree/data_structures.py:103-110 | The size is the number of elements in the linked list. |
| DataStructures.Queue.IsEmpty | src/decision_tree/data_structures.py:112-119 | True exactly when no element is queued. |
| DataStructures.Queue.First | src/decision_tree/data_structures.py:121-128 | The element at the head: the first one queued. |
| DataStructures.Queue.Dequeue | src/decision_tree/data_structures.py:130-143 | Removes and returns the first element, FIFO order. Head and tail become null when the queue empties. |
| DataStructures.Queue.Enqueue | src/decision_tree/data_structures.py:145-159 | Appends the element at the tail. On an empty queue the new node is both head and tail. |
| Latex.NewLatexNode | src/decision_tree/latex.py:71-87 | Internal values are wrapped in `$...$` (never `null`) and leaves are kept. The root has an empty edge label. Any other node's label is "Yes" exactly when it is a left child, else "No". |
| Latex.ChildPad | src/decision_tree/latex.py:112 | A child's pad is `TAB_PAD` (2) spaces longer than its parent's. |
| Latex.NodeTextShape | src/decision_tree/latex.py:98-110 | The text after a node's opening bracket starts with the node's value when that is shown. It ends the line exactly after a shown internal node, so a leaf's closing bracket stays on the leaf's line. |
| Latex.Close | src/decision_tree/latex.py:117-121 | The closing code ends with `]` and a newline. After an internal node it is a line of its own at the node's pad; after a leaf it is ` ]` on the leaf's line. |
| Latex.ForestShape | src/decision_tree/latex.py:89-121 | The code of every subtree starts with its pad and `[ ` and ends with a newline, so `render` can drop the last character. |
| Latex.NodeTextBalanced | src/decision_tree/latex.py:67 | The filled `NODE_TEMPLATE` (and `, phantom`) adds as many '[' as ']' to its node value and edge label. |
| Latex.ForestBalanced | src/decision_tree/latex.py:89-121 | When values, labels and pad are bracket-balanced, so is the code of every subtree. |
| Latex.ChildBalanced | src/decision_tree/latex.py:112-116 | The code of a child subtree, or nothing when the child is absent, is bracket-balanced. |
| Latex.LatexTree.constructor | src/decision_tree/latex.py:35-37 | A new LaTeX tree has empty code and no root. |
| Latex.LatexTree.RenderForest | src/decision_tree/latex.py:89-121 | `render_forest` appends to the tree code exactly `Forest` of the subtree: opening bracket, node text or phantom, left then right child subtrees with deeper pad, closing bracket. |
| Latex.LatexTree.Render | src/decision_tree/latex.py:39-50 | `render` resets the code to the root's forest code with a two-space pad. It returns that code without its final newline inside the forest and document templates. The node map is unchanged. |
| Latex.FillReadsBack | src/decision_tree/latex.py:49-50 | Filling a template loses nothing: the filling reads back from between the template's fixed head and tail. |
| Latex.NestedFillReadsBack | src/decision_tree/latex.py:49-50 | A filling inside a template inside another reads back from between both heads and both tails. |
| Latex.TemplatesReadBack | src/decision_tree/latex.py:2-23 | The document built from a tree code starts with the `LATEX_BASE` head and ends with its tail, and the tree code reads back from between the fixed pieces of `LATEX_BASE` and `FOREST_BASE`. |
| TreeGen.Initial | src/decision_tree/tree_gen.py:21-29 | A new generator restores nothing, is not a lame duck, queues nothing, has no state and no tree. |
| TreeGen.Decisions | src/decision_tree/tree_gen.py:46-47 | The last decision of each state, in stack order. |
| TreeGen.ChildPath | src/decision_tree/tree_gen.py:117-122 | A node attached below a state goes one step below its node, on the side of its last decision. |
| TreeGen.Graft | src/decision_tree/tree_gen.py:118-122 | Assigning a child makes the new node sit at that path. |
| TreeGen.GraftKeeps | src/decision_tree/tree_gen.py:118-122 | After assigning a child, the tree holds the new node and exactly the old nodes not below it, unchanged. The replaced subtree is gone. |
| TreeGen.BranchNode | src/decision_tree/tree_gen.py:110-116 | A comparison node shows `$e1 op e2$`. The root has no edge label; another node is labelled "Yes" exactly when it is a left child. |
| TreeGen.StateNodeIsPath | src/decision_tree/tree_gen.py:117-125 | On the state stack, the state at depth `i` sits at the path of the decisions of the `i` states below it. |
| TreeGen.FirstCompFn | src/decision_tree/tree_gen.py:155-173 | `first_comp`: one state for the comparison at the root, and the tree is just the root node showing it. Flags and queue are unchanged. |
| TreeGen.FirstCompKeepsPathInv | src/decision_tree/tree_gen.py:155-173 | After `first_comp` the states form a path from the root, labelled by the tree. |
| TreeGen.AddNodeFn | src/decision_tree/tree_gen.py:99-125 | `add_node`: a state for the comparison is pushed at the child path of the top, where its node is attached. Flags and queue are unchanged. |
| TreeGen.AddNodeKeepsPathInv | src/decision_tree/tree_gen.py:99-125 | `add_node` keeps the states a labelled path from the root. |
| TreeGen.TerminatePathFn | src/decision_tree/tree_gen.py:127-153 | `terminate_path` hangs a leaf with the given text below the top state, on the side of its last decision, replacing whatever hung there. It sets lame duck and keeps the root, the stack, the queue and the restoring flag. |
| TreeGen.Join | src/decision_tree/tree_gen.py:140 | `' '.join`: no data joins to the empty text, and two or more elements give a text with a space. |
| TreeGen.JoinFirst | src/decision_tree/tree_gen.py:140 | With a first element free of spaces, the joined text is that element, a space, and the join of the rest. |
| TreeGen.JoinInjective | src/decision_tree/tree_gen.py:140 | On lists of one length whose elements have no space, the joined text determines the list, so each leaf names its data. |
| TreeGen.LeafText | src/decision_tree/tree_gen.py:140 | A pruned path gets `null`. A completed path with two or more elements never does, so its leaf is never drawn as a phantom. |
| TreeGen.TerminatePathKeepsPathInv | src/decision_tree/tree_gen.py:127-153 | Attaching a leaf below the top keeps every state's node and label. |
| TreeGen.TerminateIfInvalidFn | src/decision_tree/tree_gen.py:175-188 | Returns True exactly when the top comparison's negation matches no comparison below the top; then nothing changes. Otherwise the result is `terminate_path` with `null`: a `null` leaf hangs below the top and lame duck is set. The stack never changes. |
| TreeGen.ContradictedAsWritten | src/decision_tree/tree_gen.py:185 | On '>'/'<' comparisons, the contradiction test is the source's membership test with `__eq__` as written. |
| TreeGen.Contradicted | src/decision_tree/tree_gen.py:183-187 | An ordering comparison is contradicted exactly when a state below the top holds its negation, or the same operator with the operands swapped. |
| TreeGen.PrunedPathUnsatisfiable | src/decision_tree/tree_gen.py:183-187 | Pruning is sound. On distinct operands, a contradicted top means no input satisfies every comparison on the path. |
| TreeGen.CompFn | src/decision_tree/tree_gen.py:190-224 | `comp` keeps the generator consistent: comparisons in force are orderings, and it restores exactly while decisions are queued. |
| TreeGen.CompCases | src/decision_tree/tree_gen.py:190-224 | Case by case, `comp` behaves as follows. A lame duck answers False and changes nothing. Restoring answers the queue's head, drops it, and creates nothing. A fresh run's first comparison becomes the root, answered True. Later ones answer False and set lame duck exactly when the top is contradicted; otherwise they push one state for the comparison, answered True. |
| TreeGen.CompKeepsInv | src/decision_tree/tree_gen.py:190-224 | `comp` keeps the invariant: a labelled path of states, restoring exactly while decisions are queued. |
| TreeGen.PopExhausted | src/decision_tree/tree_gen.py:82-83 | `find_branch`'s loop leaves a prefix of the stack. Every popped state had last decision False, and the new top, if any, has True. |
| TreeGen.Flip | src/decision_tree/tree_gen.py:91-95 | The state keeps its node, its decision becomes False, and its comparison is negated, so the comparison asked there is unchanged. |
| TreeGen.FindBranchFn | src/decision_tree/tree_gen.py:77-97 | `find_branch` keeps the queue and the tree. |
| TreeGen.FindBranchBacktracks | src/decision_tree/tree_gen.py:77-97 | Only exhausted states are popped. The deepest open state turns to its right branch and restoring starts, lame duck off. If none is left the stack is empty and the flags are kept. |
| TreeGen.FindBranchTurnsRight | src/decision_tree/tree_gen.py:91-95 | When backtracking leaves a state, the top state's last decision is False. |
| TreeGen.FlipKeepsPathInv | src/decision_tree/tree_gen.py:82-95 | Cutting the stack above an open state and turning it right keeps the states a labelled path. |
| TreeGen.FindBranchKeepsPathInv | src/decision_tree/tree_gen.py:77-97 | Backtracking keeps the states a labelled path from the root. |
| TreeGen.RestoringDecisionsFn | src/decision_tree/tree_gen.py:40-49 | `get_restoring_decisions` changes only the queue, which it leaves non-empty. |
| TreeGen.RestoringDecisionsQueue | src/decision_tree/tree_gen.py:40-49 | The queue grows by the last decision of each state but the top, in stack order, then False. |
| TreeGen.RightBranchPath | src/decision_tree/tree_gen.py:46-49 | On a chained stack whose top turned right, the decisions of all states but the top, then False, are the path to the top's right child. |
| TreeGen.ReplayLeadsToBranch | src/decision_tree/tree_gen.py:68-73 | After backtracking, the queued decisions are the path from the root to the right child of the flipped state, the first unexplored branch. |
| TreeGen.EndRunFn | src/decision_tree/tree_gen.py:63-66 | The close of a run keeps the path invariant, the stack, the queue and the root, and sets lame duck. An uncontradicted path that was live gets a leaf with the joined data below the top. |
| TreeGen.AfterRunFn | src/decision_tree/tree_gen.py:63-73 | Between runs the invariant is kept and the root exists. If a state is left, the generator is restoring and not a lame duck. If none is left, the tree is the one closed at the end of the run. |
| TreeGen.Replay | src/decision_tree/tree_gen.py:61 | The generator after a run of the algorithm that asked the given comparisons: one answer per comparison, consistency kept. |
| TreeGen.ReplayKeepsInv | src/decision_tree/tree_gen.py:190-224 | Any sequence of `comp` calls keeps the generator's invariant. |
| TreeGen.LameDuckReplay | src/decision_tree/tree_gen.py:202-204 | Once a lame duck, every answer of the run is False and nothing changes. |
| TreeGen.RestoringReplay | src/decision_tree/tree_gen.py:206-211 | While restoring, the answers are the queued decisions in FIFO order and no state or node is created. Restoring ends exactly when the queue is drained. |
| TreeGen.ReplayKeepsStates | src/decision_tree/tree_gen.py:190-224 | During a run the stack never shrinks and its bottom is kept. A fresh generator's first comparison creates a state. |
| TreeGen.TracedReplay | src/decision_tree/tree_gen.py:190-224 | The engine trail recorded comparison by comparison ends where `Replay` of the asked comparisons ends, with the same answers. |
| TreeGen.GraftRooted | src/decision_tree/tree_gen.py:117-122 | Attaching a node below a node of the tree keeps every node hanging from another. |
| TreeGen.GraftLeavesBare | src/decision_tree/tree_gen.py:117-122 | Attaching a node below a comparison node keeps leaves childless: what hung below the attachment point is gone. |
| TreeGen.GraftClosed | src/decision_tree/tree_gen.py:117-122 | Attaching a node keeps every other comparison node off the current path with both children. |
| TreeGen.GraftLeftDone | src/decision_tree/tree_gen.py:117-122 | Attaching below the top keeps the explored left subtree of every state on its right branch. |
| TreeGen.GraftPoint | src/decision_tree/tree_gen.py:117-122 | The node attached below the top hangs from the top's comparison node, one level below the top. |
| TreeGen.TerminatePathKeepsComplete | src/decision_tree/tree_gen.py:127-153 | `terminate_path` keeps the tree being completed depth-first. |
| TreeGen.PushKeepsClosed | src/decision_tree/tree_gen.py:123-125 | Pushing the state of a new node taken on its left side keeps the nodes off the path closed and every explored left subtree. |
| TreeGen.AddNodeKeepsComplete | src/decision_tree/tree_gen.py:99-125 | `add_node` during a live run keeps the tree being completed: the new node is on the path. |
| TreeGen.CompKeepsComplete | src/decision_tree/tree_gen.py:190-224 | `comp` keeps the tree being completed. |
| TreeGen.ExtendKeepsComplete | src/decision_tree/tree_gen.py:212-224 | A later comparison of a fresh run keeps the tree being completed, whether it prunes the path or extends it. |
| TreeGen.ReplayKeepsComplete | src/decision_tree/tree_gen.py:190-224 | Any sequence of `comp` calls keeps the tree being completed. |
| TreeGen.CheckKeepsComplete | src/decision_tree/tree_gen.py:175-188 | `terminate_if_invalid` keeps the path invariant and the tree being completed. |
| TreeGen.EndRunKeepsComplete | src/decision_tree/tree_gen.py:62-66 | Closing a run's path keeps the tree being completed. |
| TreeGen.ChildrenOnPath | src/decision_tree/tree_gen.py:63-66 | Once the path is closed, every state has its child on the side it took: the next state's node, or the leaf below the top. |
| TreeGen.PopKeepsClosed | src/decision_tree/tree_gen.py:82-83 | Popping exhausted states keeps the nodes off the path closed: a popped state had turned right, so both its children exist. |
| TreeGen.FlipOnStack | src/decision_tree/tree_gen.py:91-95 | Turning the top state right leaves the same nodes on the path. |
| TreeGen.FindBranchClosed | src/decision_tree/tree_gen.py:77-97 | Backtracking from a closed path keeps every comparison node off the path with both children. |
| TreeGen.FindBranchLeftDone | src/decision_tree/tree_gen.py:77-97 | Backtracking keeps every explored left subtree, and the state turned right has its left subtree. |
| TreeGen.FindBranchKeepsComplete | src/decision_tree/tree_gen.py:77-97 | `find_branch` after a closed run keeps the tree being completed. |
| TreeGen.AfterRunKeepsComplete | src/decision_tree/tree_gen.py:63-73 | What `execute` does between two runs keeps the tree being completed. |
| TreeGen.PassKeepsComplete | src/decision_tree/tree_gen.py:59-73 | A whole pass of `execute` keeps the invariant and the tree being completed: the run's comparisons, the close of its path and the backtracking. |
| TreeGen.TreeGenerator.constructor | src/decision_tree/tree_gen.py:21-29 | The generator starts in the initial state with its base data, empty data, a fresh stack, queue and LaTeX tree. |
| TreeGen.TreeGenerator.Render | src/decision_tree/tree_gen.py:31-38 | Returns the rendered code of the published tree. |
| TreeGen.TreeGenerator.GetRestoringDecisions | src/decision_tree/tree_gen.py:40-49 | The generator afterwards is `RestoringDecisionsFn` of the generator before. |
| TreeGen.TreeGenerator.EnqueueDecisions | src/decision_tree/tree_gen.py:46-47 | The loop queues the last decision of each given state, in order. |
| TreeGen.TreeGenerator.FindBranch | src/decision_tree/tree_gen.py:77-97 | The generator afterwards is `FindBranchFn` of the generator before. The data is reset to the base data exactly when a state is left. |
| TreeGen.TreeGenerator.PopExhaustedStates | src/decision_tree/tree_gen.py:82-83 | The loop leaves `PopExhausted` of the old stack. |
| TreeGen.TreeGenerator.TakeRightBranch | src/decision_tree/tree_gen.py:87-97 | Restoring on, lame duck off, top state flipped in place, data reset to the base data. |
| TreeGen.TreeGenerator.AddNode | src/decision_tree/tree_gen.py:99-125 | The generator afterwards is `AddNodeFn` of the generator before; data unchanged. |
| TreeGen.TreeGenerator.TerminatePath | src/decision_tree/tree_gen.py:127-153 | The generator afterwards is `TerminatePathFn` with text `null` or the data joined by spaces; data unchanged. |
| TreeGen.TreeGenerator.FirstComp | src/decision_tree/tree_gen.py:155-173 | The generator afterwards is `FirstCompFn` of the generator before. |
| TreeGen.TreeGenerator.TerminateIfInvalid | src/decision_tree/tree_gen.py:175-188 | The generator afterwards, and the result, are `TerminateIfInvalidFn` of the generator before. |
| TreeGen.TreeGenerator.Comp | src/decision_tree/tree_gen.py:190-224 | The generator afterwards, and the answer, are `CompFn` of the generator before and the comparison. |
| TreeGen.TreeGenerator.EndRun | src/decision_tree/tree_gen.py:63-66 | The generator afterwards is `EndRunFn` of the generator before and its data. |
| TreeGen.TreeGenerator.Backtrack | src/decision_tree/tree_gen.py:68-73 | `find_branch`, then `get_restoring_decisions` exactly when a state is left (`more`). When `more`, the data is the base data. |
| Sorting.TriClosedForm | src/example.py:14-15 | `Tri(n)`, the number of pairs bubble sort compares, is n(n-1)/2. |
| Sorting.PassesLeftTri | src/example.py:14-15 | The passes `i`, `i - 1`, ..., 0 of bubble sort ask `Tri(i + 2)` comparisons in all. |
| Sorting.PassCarriesMax | src/example.py:15-19 | Under a strict weak order, a bubble pass up to `j` leaves a largest element of `data[..j + 1]` at `j` and keeps the sorted suffix. |
| Sorting.BubbleFromSorts | src/example.py:14-19 | The remaining bubble passes, from a sorted suffix that bounds the rest, sort the whole sequence. |
| Sorting.BubbleSortedSorts | src/example.py:13-19 | Bubble sort answered truthfully under a strict weak order sorts, and permutes. |
| Sorting.GapScan | src/example.py:48 | The hole stops at or below where it started. If it stops at `gap` or above, the element `gap` below it is not greater than the lifted one. |
| Sorting.ScanPassedGreater | src/example.py:31 | With steps of one, every element the hole passed is greater than the lifted element. |
| Sorting.ShiftDownPermutes | src/example.py:46-51 | Shifting elements up by `gap` and dropping the lifted element into the hole is a permutation. |
| Sorting.PairsFromTri | src/example.py:28-33 | The bound on the comparisons of the insertion passes from `i` on, `PairsFrom(i, n)`, is `Tri(n) - Tri(i)`. |
| Sorting.InsertionFromSorts | src/example.py:28-34 | From a sorted prefix of length `i`, the remaining insertion passes sort the whole sequence. |
| Sorting.InsertionSortedSorts | src/example.py:27-34 | Insertion sort answered truthfully under a strict weak order sorts, and permutes. |
| Sorting.ShellSortedSorts | src/example.py:42-52 | Shell sort answered truthfully under a strict weak order sorts, and permutes. |
| Sorting.ShellFromSorts | src/example.py:44-52 | Under a strict weak order, any run of gap passes halving down to gap 1 sorts, because its last pass is an insertion sort. |
| Sorting.ShellEndsWithInsertion | src/example.py:45-51 | The pass with gap 1 is insertion sort. |
| Sorting.InsertKeepsSorted | src/example.py:29-34 | Inserting `data[i]` into a sorted prefix gives a sorted prefix one longer and leaves the rest untouched. |
| Sorting.GapInsertPermutes | src/example.py:46-51 | One insertion only moves elements around. |
| Examples.TruthfulUnderStringOrder | src/example.py:16 | Truthful answers under Python's string order are exactly the values the asked `>` comparisons evaluate to. |
| Examples.Store | src/example.py:18 | One element of the data replaced; the generator otherwise unchanged. |
| Examples.AskGt | src/example.py:16 | Asks `comp(x, '>', y)`. The trail, comparisons and answers grow by one step; the data is untouched. |
| Examples.CompareSwap | src/example.py:16-19 | Asks `data[j] > data[j + 1]` and swaps the pair exactly when the answer is True, whatever the answers. With truthful answers it is `BubbleStep`: the pair is swapped exactly when the first is greater. |
| Examples.BubbleInner | src/example.py:15-19 | Asks `i + 1` comparisons and keeps a permutation. With truthful answers the data is one bubble pass. |
| Examples.BubbleSort | src/example.py:13-19 | Asks exactly n(n-1)/2 comparisons whatever the answers and keeps a permutation. With truthful answers the data is `BubbleSorted`, which is sorted under a strict weak order. |
| Examples.ShiftStep | src/example.py:31-33 | One step of the shifting loop asks `data[h - gap] > elem`. On True the element moves up into the hole, which moves down by the gap; on False the data is unchanged. With truthful answers the hole stops where `GapScan` says. |
| Examples.InsertionStop | src/example.py:31-34 | The hole ends at or below the lifted index, one place lower per True answer. |
| Examples.ScanSnoc | src/example.py:31-33 | One more question of the shifting loop keeps the questions in order. True keeps the loop going; False stops it with the hole just above the compared element. |
| Examples.InsertionShift | src/example.py:31-33 | Whatever the answers, asks `data[i - 1] > elem`, `data[i - 2] > elem`, ... until the first False or the bottom. The hole ends one place lower per True answer and the data is shifted up to it. With truthful answers the hole stops where `GapScan` says. |
| Examples.DropIn | src/example.py:34 | Dropping the lifted element into the hole gives a permutation of the data before the insertion. |
| Examples.InsertionInner | src/example.py:29-34 | Asks between 1 and `i` comparisons and keeps a permutation. Whatever the answers, the data is shifted to the hole the answers lead to, and the lifted element dropped in. With truthful answers the data is `GapInsert` with gap 1. |
| Examples.TwoElementInsert | src/example.py:29-34 | On two elements the shifting loop asks the one comparison `d[0] > d[1]`; True swaps the two and False leaves them. |
| Examples.InsertionSort | src/example.py:27-34 | Asks between n-1 and n(n-1)/2 comparisons and keeps a permutation. On two elements it asks exactly `data[0] > data[1]`, and True swaps them. With truthful answers the data is `InsertionSorted`, which is sorted. |
| Examples.TwoElementRun | src/example.py:27-34 | Insertion sort on two elements, run against the generator, asks `data[0] > data[1]` once. The generator after it is the replay of that question, and the answer decides the data. |
| Examples.TwoElementFirstRun | src/decision_tree/tree_gen.py:59-73 | As an engine: on `b a`, the first run answers `b > a` True and hangs the leaf `a b` on the "Yes" side. Backtracking then turns the root to its "No" side with False queued. |
| Examples.TwoElementSecondRun | src/decision_tree/tree_gen.py:59-73 | The second run replays False and hangs the leaf `b a` on the "No" side. Backtracking then leaves no state. |
| Examples.TwoElementFirstPass | src/decision_tree/tree_gen.py:59-73 | The first pass of `execute` on `b a`, running `InsertionSort` itself, ends with the root `b > a`, the leaf `a b` on its "Yes" side, and the root turned to "No" with False queued. |
| Examples.TwoElementSecondPass | src/decision_tree/tree_gen.py:59-73 | The second pass replays False, hangs `b a` on the "No" side and leaves no state. |
| Examples.TwoElementInsertionSort | src/decision_tree/tree_gen.py:51-75 | `execute` of `InsertionSort` on `b a`: the LaTeX tree receives exactly the root `b > a` with the leaf `a b` on "Yes" and `b a` on "No". |
| Examples.GapShift | src/example.py:47-50 | Asks at least one comparison. The hole stays on the gap grid and the data is shifted up to it. With truthful answers the hole stops where `GapScan` says. |
| Examples.GapInsertAt | src/example.py:46-51 | Asks at least one comparison and keeps a permutation. With truthful answers the data is `GapInsert` with the gap. |
| Examples.ShellPass | src/example.py:45-51 | Asks at least `n - gap` comparisons and keeps a permutation. With truthful answers it is one gap pass. |
| Examples.ShellSort | src/example.py:42-52 | Asks at least n-1 comparisons and keeps a permutation. With truthful answers the data is `ShellSorted`, which is sorted. |
| Examples.RunAlgorithm | src/decision_tree/tree_gen.py:227-228 | The chosen algorithm asks at least one comparison on two or more elements. It leaves a permutation, and sorted data when answers are truthful under the string order. |
| Examples.TracedRun | src/decision_tree/tree_gen.py:61 | After a run, the generator is the replay of what was asked, keeps its invariant, and has a path to close. |
| Examples.TracedRunCompletes | src/decision_tree/tree_gen.py:59-73 | After a traced run, the close of its path and the backtracking keep the tree being completed. |
| Examples.RunOnce | src/decision_tree/tree_gen.py:59-73 | One pass of `execute`'s loop: the generator afterwards is `AfterRunFn` of the replay of what the algorithm asked. It keeps the tree being completed. `more` is true exactly when a branch is left, and then the generator is restoring from the base data. |
| Examples.RunUntilDone | src/decision_tree/tree_gen.py:59-73 | The loop keeps the invariant. When it finishes the stack is empty and the tree is full binary: every comparison node has a "Yes" and a "No" child and no leaf has children. Otherwise the next run starts from the base data. |
| Examples.Execute | src/decision_tree/tree_gen.py:51-75 | `execute` starts from the base data. When the exploration ends, the LaTeX tree receives the generator's tree, which has a root and is full binary. |

## Left out

- Examples.Execute: `execute` loops until no branch is left. The model
  takes a bound `runs` on the number of passes and reports whether the
  exploration finished, so termination of the exploration is not proved.
- TreeGen.TreeGenerator.Comp: the engine handles only '>' and '<'
  comparisons (a requires). With '==' the source negates to '!=' at the
  first backtrack, and negating '!=' raises KeyError. The examples ask '>'
  only.
- Examples.RunOnce: the algorithm is an `Algorithm` parameter
  (bubble, insertion, shell) rather than a subclass overriding `algorithm`.
  The hook that raises `NotImplementedError` is not modelled.
- Examples.Execute: requires at least two data elements. With fewer, no
  comparison is asked and `terminate_if_invalid` reads the top of an empty
  stack, which raises in the source.
- Latex.LatexTree.Render: requires a root, since the source
  dereferences `None` otherwise.
- DataStructures.Stack.Pop, Top, Queue.First, Queue.Dequeue: the empty case,
  where the source raises, is a precondition.
- `find_branch` updates the top `State` object in place. The model pops it
  and pushes an updated value. No other reference to a state exists, so the
  difference is not observable.
- The tree of linked `LatexNode` objects is a map from paths to node
  values. Reassigning a child drops the old subtree (`Graft`). Object
  identity and aliasing of nodes are not modelled.
- The helper methods (`CompareSwap`, `ShiftStep`, `DropIn`, `GapShift`,
  `GapInsertAt`, `EndRun`, `Backtrack`, ...) split the source's loops and
  methods into smaller proved steps. The statements are the source's, in
  the same order.
- Extra.EquivalentHoldTogether: requires the left comparison not to be
  '!=', because of the `__eq__` defect listed under Findings.
- Examples.ShellSort: only the lower bound n-1 on the number of comparisons
  is stated. No upper bound is proved.
- Sorting.BubbleSortedSorts, InsertionSortedSorts, ShellSortedSorts:
  sortedness is proved for any strict weak order `gt` and instantiated
  with Python's string order. Comparisons of other element types are not
  modelled.
- The LaTeX preamble templates `LATEX_BASE` and `FOREST_BASE` are fixed
  strings around the code. Their LaTeX meaning is not modelled.
- The `__main__` block of `src/example.py`, which prints the code, and
  `setup.py` are not modelled. The older draft `tree_gen.py` at the top
  of the repository is not part of this model.

## Findings

| source | as written | input that shows it | evidently intended | confidence | as-written member | corrected member |
|---|---|---|---|---|---|---|
| src/decision_tree/extra.py:61-68 | `__eq__` looks up the other operator in `NEGATIONS` and, on a match, compares the operands crossed. This treats the negation table as the converse table, which is right for '>'/'<' but maps '==' to '!='. | `Comparison('x', '!=', 'y') == Comparison('y', '==', 'x')` is True, although `x != y` holds and `y == x` does not. | Crossed operands with the converse operator: '>'↔'<', '=='↔'==', '!='↔'!='. | high, not executed | Extra.NotEqualMistakenForEqual | Extra.EquivalentSound |

The engine's contradiction test (`TreeGen.Contradicted`) uses the corrected
`Extra.Equivalent`. `Extra.EqualsAgreesOnOrderings` and
`TreeGen.ContradictedAsWritten` prove that on the '>'/'<' comparisons the
engine handles, it answers exactly as `__eq__` as written.
