/** Comparisons between two data elements, their negation and equivalence,
    and the per-branch state record of the tree generator. */
module Extra {
  import Latex

  datatype Option<T> = None | Some(value: T)

  /** The relational operators a comparison may carry. */
  datatype Op = Gt | Lt | Eq | Ne

  /** The operator as it is printed. */
  function OpText(op: Op): (t: string)
    ensures |t| > 0 && ' ' !in t
  {
    match op
    case Gt => ">"
    case Lt => "<"
    case Eq => "=="
    case Ne => "!="
  }

  /** The `NEGATIONS` table: '>' and '<' swap, '==' becomes '!=', and '!=' has no entry. */
  function Negation(op: Op): (r: Option<Op>)
    ensures r.None? <==> op == Ne
    ensures r.Some? ==> r.value != op && r.value != Eq
    ensures r == Some(Lt) <==> op == Gt
    ensures r == Some(Gt) <==> op == Lt
  {
    match op
    case Gt => Some(Lt)
    case Lt => Some(Gt)
    case Eq => Some(Ne)
    case Ne => None
  }

  datatype Comparison = Comparison(e1: string, op: Op, e2: string)

  /** The comparisons the engine handles: '>' and '<'. */
  predicate Ordering(c: Comparison)
  {
    c.op == Gt || c.op == Lt
  }

  /** The negation keeps both operands in place and only replaces the operator. */
  function Negate(c: Comparison): (r: Comparison)
    requires c.op != Ne
    ensures r.e1 == c.e1 && r.e2 == c.e2
    ensures (c.op == Gt <==> r.op == Lt) && (c.op == Lt <==> r.op == Gt) && (c.op == Eq <==> r.op == Ne)
    ensures Ordering(c) <==> Ordering(r)
  {
    Comparison(c.e1, Negation(c.op).value, c.e2)
  }

  /** Negating an ordering comparison twice gives it back; '==' negates to '!=', which has no negation. */
  lemma NegateTwice(c: Comparison)
    requires c.op != Ne
    ensures Ordering(c) ==> Negate(Negate(c)) == c
    ensures c.op == Eq ==> Negation(Negate(c).op) == None
  {
  }

  /** Equivalence of two comparisons; None where the source raises a KeyError,
      which happens when the operators differ and the right-hand one is '!='. */
  function Equals(c: Comparison, other: Comparison): (r: Option<bool>)
    ensures r == None <==> c.op != other.op && other.op == Ne
    ensures c.op == other.op ==> r == Some(c.e1 == other.e1 && c.e2 == other.e2)
    ensures c.op != other.op && Negation(other.op) == Some(c.op) ==> r == Some(c.e1 == other.e2 && c.e2 == other.e1)
    ensures r == Some(true) ==> c.op == other.op || Negation(other.op) == Some(c.op)
  {
    if c.op != other.op then
      match Negation(other.op)
      case None => None
      case Some(otherOp) =>
        if c.op != otherOp then Some(false)
        else Some(c.e1 == other.e2 && c.e2 == other.e1)
    else
      Some(c.e1 == other.e1 && c.e2 == other.e2)
  }

  /** `a > b` is equivalent to `b < a` (both ways round) and never to `a == b`. */
  lemma CrossEquivalence(a: string, b: string)
    ensures Equals(Comparison(a, Gt, b), Comparison(b, Lt, a)) == Some(true)
    ensures Equals(Comparison(b, Lt, a), Comparison(a, Gt, b)) == Some(true)
    ensures Equals(Comparison(a, Gt, b), Comparison(a, Eq, b)) == Some(false)
    ensures Equals(Comparison(a, Eq, b), Comparison(a, Gt, b)) == Some(false)
  {
  }

  /** Between ordering comparisons, equivalence is defined and symmetric. */
  lemma EqualsSymmetric(c: Comparison, d: Comparison)
    requires Ordering(c) && Ordering(d)
    ensures Equals(c, d).Some? && Equals(c, d) == Equals(d, c)
  {
  }

  /** `__str__`: the operands and the operator, separated by single spaces. */
  function Str(c: Comparison): (r: string)
    ensures |r| == |c.e1| + |OpText(c.op)| + |c.e2| + 2
  {
    c.e1 + " " + OpText(c.op) + " " + c.e2
  }

  /** The printed form reads back as its parts: the first operand, a space,
      the operator, a space and the second operand. */
  lemma StrParts(c: Comparison)
    ensures var r := Str(c);
      && r[..|c.e1|] == c.e1 && r[|c.e1|] == ' ' && r[|r| - |c.e2|..] == c.e2
      && r[|c.e1| + 1..|r| - |c.e2| - 1] == OpText(c.op) && r[|r| - |c.e2| - 1] == ' '
  {
    var r := Str(c);
    var front := c.e1 + " " + OpText(c.op) + " ";
    assert r == front + c.e2;
    assert r[..|front|] == front;
  }

  /** Index of the first space in `s`, or `|s|` when there is none. */
  function FirstSpace(s: string): (k: nat)
    ensures k <= |s|
  {
    if s == [] || s[0] == ' ' then 0 else 1 + FirstSpace(s[1..])
  }

  lemma {:induction false} FirstSpaceAfter(a: string, b: string)
    requires ' ' !in a
    ensures FirstSpace(a + " " + b) == |a|
  {
    if a != [] {
      assert (a + " " + b)[1..] == a[1..] + " " + b;
      FirstSpaceAfter(a[1..], b);
    }
  }

  /** Splitting at the first space: the part before it is fixed when it has no space. */
  lemma SplitAtSpace(a: string, b: string, x: string, y: string)
    requires ' ' !in a && ' ' !in x
    requires a + " " + b == x + " " + y
    ensures a == x && b == y
  {
    var s := a + " " + b;
    FirstSpaceAfter(a, b);
    FirstSpaceAfter(x, y);
    assert a == s[..|a|] == x;
    assert b == s[|a| + 1..] == y;
  }

  /** The printed form determines the comparison when the first operand has no space. */
  lemma StrInjective(c: Comparison, d: Comparison)
    requires ' ' !in c.e1 && ' ' !in d.e1
    requires Str(c) == Str(d)
    ensures c == d
  {
    assert Str(c) == c.e1 + " " + (OpText(c.op) + " " + c.e2);
    assert Str(d) == d.e1 + " " + (OpText(d.op) + " " + d.e2);
    SplitAtSpace(c.e1, OpText(c.op) + " " + c.e2, d.e1, OpText(d.op) + " " + d.e2);
    SplitAtSpace(OpText(c.op), c.e2, OpText(d.op), d.e2);
  }

  /** Python's `>` on strings: lexicographic by code point, a proper prefix is smaller. */
  predicate StrGt(x: string, y: string)
  {
    if y == [] then x != []
    else if x == [] then false
    else if x[0] != y[0] then x[0] > y[0]
    else StrGt(x[1..], y[1..])
  }

  lemma {:induction false} StrGtAsymmetric(x: string, y: string)
    ensures StrGt(x, y) ==> !StrGt(y, x)
  {
    if x != [] && y != [] && x[0] == y[0] {
      StrGtAsymmetric(x[1..], y[1..]);
    }
  }

  lemma {:induction false} StrGtTotal(x: string, y: string)
    ensures x != y ==> StrGt(x, y) || StrGt(y, x)
  {
    if x != [] && y != [] && x[0] == y[0] {
      StrGtTotal(x[1..], y[1..]);
      if x[1..] == y[1..] {
        assert x == [x[0]] + x[1..] && y == [y[0]] + y[1..];
      }
    }
  }

  /** "Not greater" is transitive, so the string order is a strict weak order. */
  lemma {:induction false} StrGeTransitive(x: string, y: string, z: string)
    ensures !StrGt(x, y) && !StrGt(y, z) ==> !StrGt(x, z)
  {
    if x != [] && y != [] && z != [] && x[0] == y[0] == z[0] {
      StrGeTransitive(x[1..], y[1..], z[1..]);
    }
  }

  /** What a comparison asserts about its operands under Python's string order. */
  predicate Holds(c: Comparison)
  {
    match c.op
    case Gt => StrGt(c.e1, c.e2)
    case Lt => StrGt(c.e2, c.e1)
    case Eq => c.e1 == c.e2
    case Ne => c.e1 != c.e2
  }

  /** Equivalent comparisons assert the same fact. */
  lemma EquivalentHoldTogether(c: Comparison, d: Comparison)
    requires c.op != Ne
    requires Equals(c, d) == Some(true)
    ensures Holds(c) == Holds(d)
  {
  }

  /** `__eq__` takes the `NEGATIONS` table for the converse of an operator,
      which is right for '>' and '<' but not for '==': `a != b` is found
      equivalent to `b == a`, although on distinct operands the first holds
      and the second does not. */
  lemma NotEqualMistakenForEqual(a: string, b: string)
    ensures Equals(Comparison(a, Ne, b), Comparison(b, Eq, a)) == Some(true)
    ensures a != b ==> Holds(Comparison(a, Ne, b)) && !Holds(Comparison(b, Eq, a))
  {
  }

  /** The operator that holds with the operands swapped. */
  function Converse(op: Op): Op
  {
    match op
    case Gt => Lt
    case Lt => Gt
    case Eq => Eq
    case Ne => Ne
  }

  /** Equivalence as evidently intended: the same comparison, or the
      converse operator with the operands swapped. */
  predicate Equivalent(c: Comparison, d: Comparison)
  {
    || (c.op == d.op && c.e1 == d.e1 && c.e2 == d.e2)
    || (c.op == Converse(d.op) && c.e1 == d.e2 && c.e2 == d.e1)
  }

  /** Equivalent comparisons assert the same fact, whatever their operators. */
  lemma EquivalentSound(c: Comparison, d: Comparison)
    requires Equivalent(c, d)
    ensures Holds(c) == Holds(d)
  {
  }

  /** Between '>' and '<' comparisons, `__eq__` as written never raises and
      agrees with the intended equivalence. */
  lemma EqualsAgreesOnOrderings(c: Comparison, d: Comparison)
    requires Ordering(c) && Ordering(d)
    ensures Equals(c, d) == Some(Equivalent(c, d))
  {
  }

  /** On distinct operands the negation asserts exactly the opposite fact, which is
      what makes a branch contradicting an earlier one unreachable. */
  lemma NegationIsComplement(c: Comparison)
    requires c.op != Ne
    requires c.op != Eq ==> c.e1 != c.e2
    ensures Holds(Negate(c)) == !Holds(c)
  {
    StrGtAsymmetric(c.e1, c.e2);
    StrGtTotal(c.e1, c.e2);
  }

  /** Information about the execution at one branch: its tree node, the
      comparison in force there, and the decision last taken. */
  datatype State = State(node: Latex.Path, comp: Comparison, lastDecision: bool)

  /** A new state starts on its left ("Yes") side. */
  function NewState(node: Latex.Path, comp: Comparison): (s: State)
    ensures s.lastDecision
    ensures s.node == node && s.comp == comp
  {
    State(node, comp, true)
  }
}
