/** The symbolic expression tree and the operators that combine expressions.

    Every builder below consumes its two operands and wraps them, in order,
    in one new interior node. No builder folds constants, drops a neutral or
    absorbing operand, negates, or checks anything: the result always has
    exactly the builder's own variant.
 */
module Algebra {

  /** The payload of `Const`: a signed 64-bit integer. No arithmetic is ever
      performed on it, so only its range is modelled. */
  newtype I64 = x: int | -0x8000_0000_0000_0000 <= x < 0x8000_0000_0000_0000

  /** A formula over 64-bit integer constants and named symbols. Each interior
      node exclusively owns its children, so a value is a finite tree. The
      `==` used in the lemmas is equality of these modelled values; the
      program itself defines no equality on expressions. */
  datatype Expression =
    | Const(value: I64)
    | Symbol(name: string)
    | Add(lhs: Expression, rhs: Expression)
    | Sub(lhs: Expression, rhs: Expression)
    | Mul(lhs: Expression, rhs: Expression)
    | Div(lhs: Expression, rhs: Expression)
    | Pow(base: Expression, index: Expression)
    | Neg(inner: Expression)
    | Exp(inner: Expression)

  predicate IsLeaf(e: Expression) {
    e.Const? || e.Symbol?
  }

  // ---------------------------------------------------------------------
  // Tree measures used to state what the builders do
  // ---------------------------------------------------------------------

  /** Number of nodes in the tree. */
  function Size(e: Expression): (n: nat)
    ensures n >= 1
    ensures IsLeaf(e) <==> n == 1
  {
    match e
    case Const(_) => 1
    case Symbol(_) => 1
    case Add(l, r) => 1 + Size(l) + Size(r)
    case Sub(l, r) => 1 + Size(l) + Size(r)
    case Mul(l, r) => 1 + Size(l) + Size(r)
    case Div(l, r) => 1 + Size(l) + Size(r)
    case Pow(b, i) => 1 + Size(b) + Size(i)
    case Neg(x) => 1 + Size(x)
    case Exp(x) => 1 + Size(x)
  }

  /** The direct children of a node, left to right. */
  function Children(e: Expression): (cs: seq<Expression>)
    ensures IsLeaf(e) <==> cs == []
    ensures |cs| <= 2
    ensures forall c :: c in cs ==> Size(c) < Size(e)
  {
    match e
    case Const(_) => []
    case Symbol(_) => []
    case Add(l, r) => [l, r]
    case Sub(l, r) => [l, r]
    case Mul(l, r) => [l, r]
    case Div(l, r) => [l, r]
    case Pow(b, i) => [b, i]
    case Neg(x) => [x]
    case Exp(x) => [x]
  }

  /** `s` is a subtree of `e` (every tree is a subtree of itself). */
  predicate Occurs(s: Expression, e: Expression)
    decreases Size(e)
  {
    s == e || exists c :: c in Children(e) && Occurs(s, c)
  }

  /** The leaves of the tree (constants and symbols), left to right. */
  function Leaves(e: Expression): (ls: seq<Expression>)
    ensures 1 <= |ls| <= Size(e)
    ensures forall i :: 0 <= i < |ls| ==> IsLeaf(ls[i])
  {
    match e
    case Const(_) => [e]
    case Symbol(_) => [e]
    case Add(l, r) => Leaves(l) + Leaves(r)
    case Sub(l, r) => Leaves(l) + Leaves(r)
    case Mul(l, r) => Leaves(l) + Leaves(r)
    case Div(l, r) => Leaves(l) + Leaves(r)
    case Pow(b, i) => Leaves(b) + Leaves(i)
    case Neg(x) => Leaves(x)
    case Exp(x) => Leaves(x)
  }

  // ---------------------------------------------------------------------
  // Builders
  // ---------------------------------------------------------------------

  /** `base.Pow(index)`: raises `base` to an arbitrary expression. */
  function PowExpr(base: Expression, index: Expression): (r: Expression)
    ensures r.Pow? && r.base == base && r.index == index
  {
    Pow(base, index)
  }

  /** `lhs + rhs` */
  function AddExpr(lhs: Expression, rhs: Expression): (r: Expression)
    ensures r.Add? && r.lhs == lhs && r.rhs == rhs
  {
    Add(lhs, rhs)
  }

  /** `lhs - rhs` */
  function SubExpr(lhs: Expression, rhs: Expression): (r: Expression)
    ensures r.Sub? && r.lhs == lhs && r.rhs == rhs
  {
    Sub(lhs, rhs)
  }

  /** `lhs * rhs` */
  function MulExpr(lhs: Expression, rhs: Expression): (r: Expression)
    ensures r.Mul? && r.lhs == lhs && r.rhs == rhs
  {
    Mul(lhs, rhs)
  }

  /** `lhs / rhs`, for every `rhs`, `Const(0)` included. */
  function DivExpr(lhs: Expression, rhs: Expression): (r: Expression)
    ensures r.Div? && r.lhs == lhs && r.rhs == rhs
  {
    Div(lhs, rhs)
  }

  // ---------------------------------------------------------------------
  // Properties of the builders
  // ---------------------------------------------------------------------

  /** Each builder is injective: equal results come from equal operands. */
  lemma BuildersInjective(l1: Expression, r1: Expression, l2: Expression, r2: Expression)
    ensures PowExpr(l1, r1) == PowExpr(l2, r2) <==> l1 == l2 && r1 == r2
    ensures AddExpr(l1, r1) == AddExpr(l2, r2) <==> l1 == l2 && r1 == r2
    ensures SubExpr(l1, r1) == SubExpr(l2, r2) <==> l1 == l2 && r1 == r2
    ensures MulExpr(l1, r1) == MulExpr(l2, r2) <==> l1 == l2 && r1 == r2
    ensures DivExpr(l1, r1) == DivExpr(l2, r2) <==> l1 == l2 && r1 == r2
  {
  }

  /** Two different builders never agree, on any operands. */
  lemma BuildersDistinct(l1: Expression, r1: Expression, l2: Expression, r2: Expression)
    ensures PowExpr(l1, r1) != AddExpr(l2, r2) && PowExpr(l1, r1) != SubExpr(l2, r2)
    ensures PowExpr(l1, r1) != MulExpr(l2, r2) && PowExpr(l1, r1) != DivExpr(l2, r2)
    ensures AddExpr(l1, r1) != SubExpr(l2, r2) && AddExpr(l1, r1) != MulExpr(l2, r2)
    ensures AddExpr(l1, r1) != DivExpr(l2, r2)
    ensures SubExpr(l1, r1) != MulExpr(l2, r2) && SubExpr(l1, r1) != DivExpr(l2, r2)
    ensures MulExpr(l1, r1) != DivExpr(l2, r2)
  {
  }

  /** `e` is what one of the five builders returns on `l` and `r`. */
  predicate BuiltFrom(e: Expression, l: Expression, r: Expression) {
    || e == PowExpr(l, r)
    || e == AddExpr(l, r)
    || e == SubExpr(l, r)
    || e == MulExpr(l, r)
    || e == DivExpr(l, r)
  }

  /** Every builder adds exactly one node on top of its operands. */
  lemma BuilderAddsOneNode(e: Expression, l: Expression, r: Expression)
    requires BuiltFrom(e, l, r)
    ensures Size(e) == 1 + Size(l) + Size(r)
    ensures Size(e) > Size(l) && Size(e) > Size(r)
  {
  }

  /** Every builder makes its operands the direct children of the new node,
      unchanged and in order; the leaves read left to right are those of
      the left operand followed by those of the right one. */
  lemma BuilderKeepsOperandOrder(e: Expression, l: Expression, r: Expression)
    requires BuiltFrom(e, l, r)
    ensures Children(e) == [l, r]
    ensures Leaves(e) == Leaves(l) + Leaves(r)
  {
  }

  /** No builder simplifies: the result is never a leaf (no constant folding,
      no absorbing zero), never a negation, and never one of its operands (no
      neutral element is dropped). */
  lemma BuilderNeverFolds(e: Expression, l: Expression, r: Expression)
    requires BuiltFrom(e, l, r)
    ensures !IsLeaf(e) && !e.Neg?
    ensures e != l && e != r
  {
    BuilderAddsOneNode(e, l, r);
  }

  /** The operands that a simplifier would fold are kept as they are. */
  lemma NeutralOperandsKept(e: Expression, f: Expression, a: I64, b: I64)
    ensures AddExpr(Const(0), e) != e && AddExpr(e, Const(0)) != e
    ensures !AddExpr(Const(a), Const(b)).Const?
    ensures SubExpr(Const(0), e) != e && SubExpr(Const(0), e) != Neg(e)
    ensures SubExpr(Const(0), e).rhs == e
    ensures MulExpr(Const(0), e) != Const(0) && MulExpr(e, Const(0)) != Const(0)
    ensures MulExpr(Const(1), e) != e && MulExpr(e, Const(1)) != e
    ensures !MulExpr(Const(a), Const(b)).Const? && !MulExpr(e, f).Sub?
    ensures DivExpr(e, Const(0)).rhs == Const(0) && DivExpr(e, Const(1)) != e
    ensures PowExpr(e, Const(1)) != e
  {
    BuilderNeverFolds(AddExpr(Const(0), e), Const(0), e);
    BuilderNeverFolds(AddExpr(e, Const(0)), e, Const(0));
    BuilderNeverFolds(SubExpr(Const(0), e), Const(0), e);
    BuilderNeverFolds(MulExpr(Const(1), e), Const(1), e);
    BuilderNeverFolds(MulExpr(e, Const(1)), e, Const(1));
    BuilderNeverFolds(DivExpr(e, Const(1)), e, Const(1));
    BuilderNeverFolds(PowExpr(e, Const(1)), e, Const(1));
  }

  // ---------------------------------------------------------------------
  // The tree is finite and acyclic
  // ---------------------------------------------------------------------

  /** A subtree is never larger than the tree, and only the tree itself has
      the same size. */
  lemma {:induction false} OccursSize(s: Expression, e: Expression)
    requires Occurs(s, e)
    ensures Size(s) <= Size(e)
    ensures Size(s) == Size(e) ==> s == e
    decreases Size(e)
  {
    if s != e {
      var c :| c in Children(e) && Occurs(s, c);
      OccursSize(s, c);
    }
  }

  /** A subtree of a subtree is a subtree. */
  lemma {:induction false} OccursTransitive(a: Expression, b: Expression, e: Expression)
    requires Occurs(a, b) && Occurs(b, e)
    ensures Occurs(a, e)
    decreases Size(e)
  {
    if b != e {
      var c :| c in Children(e) && Occurs(b, c);
      OccursTransitive(a, b, c);
    }
  }

  /** No node occurs inside one of its own children: ownership of the
      children admits no cycle. */
  lemma NoNodeInsideItsChild(e: Expression, c: Expression)
    requires c in Children(e)
    ensures !Occurs(e, c)
  {
    if Occurs(e, c) {
      OccursSize(e, c);
    }
  }

  /** The subtrees of a builder's result are exactly the result itself and the
      subtrees of its two operands; the new node occurs in neither operand. */
  lemma BuilderSubtrees(e: Expression, l: Expression, r: Expression, s: Expression)
    requires BuiltFrom(e, l, r)
    ensures Occurs(s, e) <==> s == e || Occurs(s, l) || Occurs(s, r)
    ensures !Occurs(e, l) && !Occurs(e, r)
  {
    assert Children(e) == [l, r];
    assert l in Children(e) && r in Children(e);
    NoNodeInsideItsChild(e, l);
    NoNodeInsideItsChild(e, r);
  }
}
