/** The one use of the expression builders in the demonstration program:
    the sum of the symbols `a` and `b`. */
module Program {
  import opened Algebra

  /** The expression the program builds: `Symbol("a") + Symbol("b")`. */
  function SumOfAAndB(): (c: Expression)
    ensures c.Add? && c.lhs == Symbol("a") && c.rhs == Symbol("b")
  {
    AddExpr(Symbol("a"), Symbol("b"))
  }

  /** It is a three-node tree whose leaves are `a` then `b`. */
  lemma SumOfAAndBShape()
    ensures Size(SumOfAAndB()) == 3
    ensures Leaves(SumOfAAndB()) == [Symbol("a"), Symbol("b")]
    ensures SumOfAAndB() != Symbol("a") && SumOfAAndB() != Symbol("b")
  {
    BuilderAddsOneNode(SumOfAAndB(), Symbol("a"), Symbol("b"));
  }
}
