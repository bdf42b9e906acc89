/** The LaTeX `forest` rendering of a decision tree. A tree is a map from
    paths (true = left/"Yes", false = right/"No", starting at the root) to the
    node stored there; the children of the node at `p` are at `p + [true]`
    and `p + [false]`. */
module Latex {

  type Path = seq<bool>

  /** A node: its printed value, whether it is a leaf, which side of its
      parent it hangs on, and the label of the edge from its parent. */
  datatype LatexNode = LatexNode(val: string, isLeaf: bool, isLeft: bool, edgeLabel: string)

  /** The text of a pruned leaf. */
  const Null: string := "null"

  /** Extra indentation of a child relative to its parent. */
  const TabPad: nat := 2

  /** `LatexNode.__init__`: internal values are set in math mode, leaves are
      stored as given; the edge label says which side of the parent the node is on. */
  function NewLatexNode(val: string, isLeaf: bool, isLeft: bool, root: bool): (n: LatexNode)
    ensures n.isLeaf == isLeaf && n.isLeft == isLeft
    ensures isLeaf ==> n.val == val
    ensures !isLeaf ==> n.val == "$" + val + "$" && n.val != Null
    ensures root ==> n.edgeLabel == ""
    ensures !root ==> (n.edgeLabel == "Yes" <==> isLeft) && (n.edgeLabel == "No" <==> !isLeft)
  {
    var wrapped := "$" + val + "$";
    assert wrapped[0] != Null[0];
    LatexNode(if isLeaf then val else wrapped, isLeaf, isLeft,
              if root then "" else if isLeft then "Yes" else "No")
  }

  /** The fixed pieces of `NODE_TEMPLATE` around its node, edge and newline fields. */
  const LabelOpen: string := ", edge label={node"
  const LabelPlace: string := "midway,fill=white,"
  const LabelFont: string := "font=\\tiny"
  const LabelClose: string := " {"

  /** `NODE_TEMPLATE` filled in. */
  function NodeTemplate(node: string, edge: string, newline: string): string
  {
    node + LabelOpen + "[" + LabelPlace + LabelFont + "]" + LabelClose + edge + "}}" + newline
  }

  /** The text after a node's opening bracket: the template, or `, phantom` for a pruned leaf. */
  function NodeText(n: LatexNode): string
  {
    if n.val != Null then NodeTemplate(n.val, n.edgeLabel, if !n.isLeaf then "\n" else "")
    else ", phantom"
  }

  /** A node's text starts with its value when that is shown, and it ends
      the line exactly after a shown internal node: a leaf's closing bracket
      stays on the leaf's line. */
  lemma NodeTextShape(n: LatexNode)
    ensures var r := NodeText(n);
      && |r| > 0
      && (n.val != Null ==> |r| > |n.val| && r[..|n.val|] == n.val)
      && (r[|r| - 1] == '\n' <==> n.val != Null && !n.isLeaf)
  {
    if n.val != Null {
      var newline := if !n.isLeaf then "\n" else "";
      var front := n.val + LabelOpen + "[" + LabelPlace + LabelFont + "]" + LabelClose + n.edgeLabel + "}}";
      assert NodeText(n) == front + newline;
      assert (front + newline)[..|n.val|] == front[..|n.val|];
      assert front[|front| - 1] == '}';
    }
  }

  function Spaces(k: nat): (s: string)
    ensures |s| == k && forall i :: 0 <= i < k ==> s[i] == ' '
  {
    if k == 0 then "" else " " + Spaces(k - 1)
  }

  predicate IsPrefix(p: Path, q: Path)
  {
    |p| <= |q| && q[..|p|] == p
  }

  /** The paths of the tree strictly below `p`. */
  function Below(nodes: map<Path, LatexNode>, p: Path): set<Path>
  {
    set q | q in nodes && |p| < |q| && q[..|p|] == p
  }

  lemma BelowShrinks(nodes: map<Path, LatexNode>, p: Path, b: bool)
    requires p + [b] in nodes
    ensures Below(nodes, p + [b]) < Below(nodes, p)
  {
    var c := p + [b];
    forall q | q in Below(nodes, c) ensures q in Below(nodes, p) {
      assert q[..|p|] == q[..|c|][..|p|];
    }
    assert c[..|p|] == p;
    assert c in Below(nodes, p);
  }

  /** The code `render_forest` appends for the subtree at `p`: an opening
      bracket after the pad, the node's text, the left then the right subtree,
      and a closing bracket. */
  function Forest(nodes: map<Path, LatexNode>, p: Path, pad: string): string
    requires p in nodes
    decreases Below(nodes, p), 1
  {
    pad + "[ " + NodeText(nodes[p]) + Child(nodes, p, true, pad) + Child(nodes, p, false, pad)
    + Close(nodes[p], pad)
  }

  /** The code of the child on side `b` (true = left) of the node at `p`, or
      nothing when that child is absent; children are padded two more spaces. */
  function Child(nodes: map<Path, LatexNode>, p: Path, b: bool, pad: string): string
    decreases Below(nodes, p), 0
  {
    if p + [b] in nodes then
      BelowShrinks(nodes, p, b);
      Forest(nodes, p + [b], ChildPad(pad))
    else ""
  }

  /** A child's pad: `TAB_PAD` spaces in front of its parent's pad. */
  function ChildPad(pad: string): (r: string)
    ensures |r| == |pad| + TabPad
    ensures r[TabPad..] == pad && forall i :: 0 <= i < TabPad ==> r[i] == ' '
  {
    Spaces(TabPad) + pad
  }

  /** The closing bracket: on its own padded line after an internal node,
      on the same line after a leaf. */
  function Close(n: LatexNode, pad: string): (r: string)
    ensures |r| >= 2 && r[|r| - 2..] == "]\n"
    ensures !n.isLeaf ==> |r| == |pad| + 2 && r[..|pad|] == pad
    ensures n.isLeaf ==> r == " ]\n"
  {
    if !n.isLeaf then pad + "]\n" else " ]\n"
  }

  /** Each subtree's code starts with its pad and an opening bracket, and ends with a newline. */
  lemma ForestShape(nodes: map<Path, LatexNode>, p: Path, pad: string)
    requires p in nodes
    ensures var f := Forest(nodes, p, pad);
      |f| > |pad| + 1 && f[..|pad| + 2] == pad + "[ " && f[|f| - 1] == '\n'
  {
    var f := Forest(nodes, p, pad);
    var c := Close(nodes[p], pad);
    var front := pad + "[ " + NodeText(nodes[p]) + Child(nodes, p, true, pad) + Child(nodes, p, false, pad);
    assert f == front + c;
    assert c[|c| - 1] == '\n';
    assert f[..|pad| + 2] == (pad + "[ ")[..|pad| + 2];
  }

  /** Number of occurrences of `ch` in `s`. */
  function Count(s: string, ch: char): nat
  {
    if s == [] then 0 else (if s[0] == ch then 1 else 0) + Count(s[1..], ch)
  }

  lemma {:induction false} CountAppend(s: string, t: string, ch: char)
    ensures Count(s + t, ch) == Count(s, ch) + Count(t, ch)
  {
    if s != [] {
      assert (s + t)[1..] == s[1..] + t;
      CountAppend(s[1..], t, ch);
    } else {
      assert s + t == t;
    }
  }

  lemma {:induction false} CountAbsent(s: string, ch: char)
    requires ch !in s
    ensures Count(s, ch) == 0
  {
    if s != [] {
      assert s[0] != ch;
      CountAbsent(s[1..], ch);
    }
  }

  /** A string with no bracket at all is balanced. */
  lemma NoBrackets(s: string)
    requires '[' !in s && ']' !in s
    ensures Balanced(s)
  {
    CountAbsent(s, '[');
    CountAbsent(s, ']');
  }

  predicate Balanced(s: string)
  {
    Count(s, '[') == Count(s, ']')
  }

  lemma BalancedAppend(s: string, t: string)
    requires Balanced(s) && Balanced(t)
    ensures Balanced(s + t)
  {
    CountAppend(s, t, '[');
    CountAppend(s, t, ']');
  }

  lemma LabelOpenBalanced() ensures Balanced(LabelOpen) { NoBrackets(LabelOpen); }
  lemma LabelPlaceBalanced() ensures Balanced(LabelPlace) { NoBrackets(LabelPlace); }
  lemma LabelFontBalanced() ensures Balanced(LabelFont) { NoBrackets(LabelFont); }
  lemma LabelCloseBalanced() ensures Balanced(LabelClose) { NoBrackets(LabelClose); }
  lemma BracesBalanced() ensures Balanced("}}") { NoBrackets("}}"); }

  lemma BracketSurplus() ensures Surplus("[") == 1 && Surplus("]") == -1 { }

  /** The template up to the edge label adds one '[' and one ']'. */
  lemma TemplateHeadSurplus(node: string)
    ensures Surplus(node + LabelOpen + "[" + LabelPlace + LabelFont + "]" + LabelClose) == Surplus(node)
  {
    LabelOpenBalanced();
    LabelPlaceBalanced();
    LabelFontBalanced();
    LabelCloseBalanced();
    BracketSurplus();
    var t1 := node + LabelOpen;
    var t2 := t1 + "[";
    var t3 := t2 + LabelPlace;
    var t4 := t3 + LabelFont;
    var t5 := t4 + "]";
    SurplusAppend(node, LabelOpen);
    SurplusAppend(t1, "[");
    SurplusAppend(t2, LabelPlace);
    SurplusAppend(t3, LabelFont);
    SurplusAppend(t4, "]");
    SurplusAppend(t5, LabelClose);
  }

  lemma NodeTextBalanced(n: LatexNode)
    requires Balanced(n.val) && Balanced(n.edgeLabel)
    ensures Balanced(NodeText(n))
  {
    if n.val != Null {
      var nl := if !n.isLeaf then "\n" else "";
      NoBrackets(nl);
      BracesBalanced();
      var t6 := n.val + LabelOpen + "[" + LabelPlace + LabelFont + "]" + LabelClose;
      TemplateHeadSurplus(n.val);
      SurplusAppend(t6, n.edgeLabel);
      SurplusAppend(t6 + n.edgeLabel, "}}");
      SurplusAppend(t6 + n.edgeLabel + "}}", nl);
      assert NodeText(n) == t6 + n.edgeLabel + "}}" + nl;
    } else {
      NoBrackets(", phantom");
    }
  }

  /** Surplus of opening over closing brackets. */
  function Surplus(s: string): int
  {
    Count(s, '[') - Count(s, ']')
  }

  lemma SurplusAppend(s: string, t: string)
    ensures Surplus(s + t) == Surplus(s) + Surplus(t)
  {
    CountAppend(s, t, '[');
    CountAppend(s, t, ']');
  }

  lemma OpenSurplus() ensures Surplus("[ ") == 1 { }
  lemma CloseLineSurplus() ensures Surplus("]\n") == -1 { }
  lemma CloseLeafSurplus() ensures Surplus(" ]\n") == -1 { }

  lemma CloseSurplus(n: LatexNode, pad: string)
    requires Balanced(pad)
    ensures Surplus(Close(n, pad)) == -1
  {
    if !n.isLeaf {
      CloseLineSurplus();
      SurplusAppend(pad, "]\n");
    } else {
      CloseLeafSurplus();
    }
  }

  /** When node values, edge labels and the pad have as many '[' as ']', so
      has the rendered subtree: each node contributes one opening and one
      closing bracket of its own. */
  lemma {:induction false} ForestBalanced(nodes: map<Path, LatexNode>, p: Path, pad: string)
    requires p in nodes
    requires forall q :: q in nodes ==> Balanced(nodes[q].val) && Balanced(nodes[q].edgeLabel)
    requires Balanced(pad)
    ensures Balanced(Forest(nodes, p, pad))
    decreases Below(nodes, p), 1
  {
    ChildBalanced(nodes, p, true, pad);
    ChildBalanced(nodes, p, false, pad);
    NodeTextBalanced(nodes[p]);
    CloseSurplus(nodes[p], pad);
    OpenSurplus();
    var x0 := pad + "[ ";
    var x1 := x0 + NodeText(nodes[p]);
    var x2 := x1 + Child(nodes, p, true, pad);
    var x3 := x2 + Child(nodes, p, false, pad);
    SurplusAppend(pad, "[ ");
    SurplusAppend(x0, NodeText(nodes[p]));
    SurplusAppend(x1, Child(nodes, p, true, pad));
    SurplusAppend(x2, Child(nodes, p, false, pad));
    SurplusAppend(x3, Close(nodes[p], pad));
  }

  lemma {:induction false} ChildBalanced(nodes: map<Path, LatexNode>, p: Path, b: bool, pad: string)
    requires forall q :: q in nodes ==> Balanced(nodes[q].val) && Balanced(nodes[q].edgeLabel)
    requires Balanced(pad)
    ensures Balanced(Child(nodes, p, b, pad))
    decreases Below(nodes, p), 0
  {
    if p + [b] in nodes {
      BelowShrinks(nodes, p, b);
      NoBrackets(Spaces(TabPad));
      BalancedAppend(Spaces(TabPad), pad);
      ForestBalanced(nodes, p + [b], ChildPad(pad));
    } else {
      assert Child(nodes, p, b, pad) == "";
    }
  }

  lemma AppendRegroup(s: string, a: string, b: string, l: string, r: string, c: string)
    ensures ((((s + a) + b) + l) + r) + c == s + ((((a + b) + l) + r) + c)
  {
  }

  /** The fixed text of `LATEX_BASE` before and after its content. */
  const DocumentHead: string := "\\documentclass[tikz, border=5pt]{standalone}\n\\usepackage{forest}\n\n\\begin{document}\n"
  const DocumentTail: string := "\n\\end{document}\n"

  /** The fixed text of `FOREST_BASE` before and after its tree code. */
  const ForestHead: string :=
    "\\begin{forest}\n  for tree={\n    edge label = {font=\\scriptsize},\n    circle,\n    draw,\n"
    + "    if n children=0{\n      rectangle, draw\n    }{}\n  }\n"
  const ForestTail: string := "\n\\end{forest}\n"

  /** `LATEX_BASE` with its content filled in. */
  function LatexBase(content: string): string
  {
    DocumentHead + content + DocumentTail
  }

  /** `FOREST_BASE` with the tree code filled in. */
  function ForestBase(treeCode: string): string
  {
    ForestHead + treeCode + ForestTail
  }

  /** Filling a template loses nothing: the filling reads back from between
      the template's fixed head and tail. */
  lemma {:induction false} FillReadsBack(head: string, filling: string, tail: string)
    ensures var r := head + filling + tail;
      && |r| == |head| + |filling| + |tail|
      && r[..|head|] == head && r[|r| - |tail|..] == tail
      && r[|head|..|r| - |tail|] == filling
  {
    var r := head + filling + tail;
    assert r == head + (filling + tail);
    assert r[|head|..] == filling + tail;
  }

  /** What `render` returns for a tree with a root: the root's forest code
      without its final newline, wrapped in the forest and document templates. */
  function Rendered(nodes: map<Path, LatexNode>): string
    requires [] in nodes
  {
    ForestShape(nodes, [], "  ");
    var f := Forest(nodes, [], "  ");
    LatexBase(ForestBase(f[..|f| - 1]))
  }

  /** The document `render` builds from a tree code starts with the document
      head and ends with its tail, and the tree code reads back from between
      the four fixed pieces of the two templates. */
  lemma TemplatesReadBack(code: string)
    ensures var r := LatexBase(ForestBase(code));
      && |r| == |DocumentHead| + |ForestHead| + |code| + |ForestTail| + |DocumentTail|
      && r[..|DocumentHead|] == DocumentHead && r[|r| - |DocumentTail|..] == DocumentTail
      && r[|DocumentHead| + |ForestHead|..|r| - |DocumentTail| - |ForestTail|] == code
  {
    NestedFillReadsBack(DocumentHead, ForestHead, code, ForestTail, DocumentTail);
  }

  /** A filling inside a template inside another reads back from between both heads and both tails. */
  lemma {:induction false} NestedFillReadsBack(h1: string, h2: string, code: string, t2: string, t1: string)
    ensures var r := h1 + (h2 + code + t2) + t1;
      && |r| == |h1| + |h2| + |code| + |t2| + |t1|
      && r[..|h1|] == h1 && r[|r| - |t1|..] == t1
      && r[|h1| + |h2|..|r| - |t1| - |t2|] == code
  {
    var body := h2 + code + t2;
    var r := h1 + body + t1;
    FillReadsBack(h2, code, t2);
    FillReadsBack(h1, body, t1);
    assert r[|h1| + |h2|..|r| - |t1| - |t2|] == r[|h1|..|r| - |t1|][|h2|..|body| - |t2|];
  }

  /** The rendered tree: the node map reachable from the root, and the code accumulator. */
  class LatexTree {
    var treeCode: string
    var nodes: map<Path, LatexNode>

    /** The tree has a root exactly when the empty path is present. */
    constructor ()
      ensures treeCode == "" && nodes == map[]
    {
      treeCode := "";
      nodes := map[];
    }

    /** `render_forest` of the node at `p`: appends that subtree's code to `treeCode`. */
    method RenderForest(p: Path, pad: string)
      requires p in nodes
      modifies this`treeCode
      ensures treeCode == old(treeCode) + Forest(nodes, p, pad)
      decreases Below(nodes, p)
    {
      var n := nodes[p];
      ghost var start := treeCode;
      treeCode := treeCode + (pad + "[ ");
      var newline := if !n.isLeaf then "\n" else "";
      if !(n.val == Null) {
        treeCode := treeCode + NodeTemplate(n.val, n.edgeLabel, newline);
      } else {
        treeCode := treeCode + ", phantom";
      }
      ghost var head := start + (pad + "[ ") + NodeText(n);
      assert treeCode == head;
      var newPad := Spaces(TabPad) + pad;
      if p + [true] in nodes {
        BelowShrinks(nodes, p, true);
        RenderForest(p + [true], newPad);
      }
      ghost var withLeft := head + Child(nodes, p, true, pad);
      assert treeCode == withLeft;
      if p + [false] in nodes {
        BelowShrinks(nodes, p, false);
        RenderForest(p + [false], newPad);
      }
      ghost var withRight := withLeft + Child(nodes, p, false, pad);
      assert treeCode == withRight;
      if !n.isLeaf {
        treeCode := treeCode + (pad + "]\n");
      } else {
        treeCode := treeCode + " ]\n";
      }
      assert treeCode == withRight + Close(n, pad);
      ghost var body := pad + "[ " + NodeText(n) + Child(nodes, p, true, pad) + Child(nodes, p, false, pad) + Close(n, pad);
      assert Forest(nodes, p, pad) == body;
      AppendRegroup(start, pad + "[ ", NodeText(n), Child(nodes, p, true, pad), Child(nodes, p, false, pad), Close(n, pad));
    }

    /** `render`: resets the accumulator, renders from the root with a
        two-space pad, drops the final newline and wraps the code. */
    method Render() returns (code: string)
      requires [] in nodes
      modifies this`treeCode
      ensures treeCode == Forest(nodes, [], "  ")
      ensures |treeCode| > 0 && treeCode[|treeCode| - 1] == '\n'
      ensures nodes == old(nodes) && code == Rendered(nodes)
    {
      treeCode := "";
      RenderForest([], "  ");
      ForestShape(nodes, [], "  ");
      code := LatexBase(ForestBase(treeCode[..|treeCode| - 1]));
    }
  }
}
