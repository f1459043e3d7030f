# Symbolic expressions of cfd-in-twelve, in Dafny

This project models the expression type of `src/algebra.rs`: a closed tree of
nine variants. The leaves are `Const` (a signed 64-bit integer) and `Symbol`
(a name). `Add`, `Sub`, `Mul`, `Div` and `Pow` have two children; `Neg` and
`Exp` have one. The builders are `Pow(self, index)` and the `+`, `-`, `*`, `/`
operators. Each builder moves its two operands, in order, into one new node
of its own variant. It folds nothing and checks nothing.

The Rust `Box` indirection disappears in the Dafny `datatype`
`Algebra.Expression`. Each Rust value owns its children exclusively. The
datatype is an inductive value type, so its trees are finite and acyclic.
The Rust `Expression` derives no `PartialEq`, `Clone` or `Debug`, so the
program itself cannot compare expressions. The `==` in the lemmas is equality
of the modelled values, used only to state the properties.

Moving an operand into a new node leaves nothing observable behind, so every
builder is a pure function of its operands. The
builders are `Algebra.PowExpr`, `Algebra.AddExpr`, `Algebra.SubExpr`,
`Algebra.MulExpr` and `Algebra.DivExpr`; the variant names themselves are
taken by the datatype's constructors.

The proofs use three measures of a tree: its node count (`Size`), its direct
children (`Children`) and its leaves from left to right (`Leaves`). There is
also a subtree relation (`Occurs`). With these, the lemmas state the
following for every builder:

- It is injective.
- No two builders ever agree.
- It never returns a leaf, a negation or one of its operands.
- It adds exactly one node.
- It keeps both operands as direct children, in order.
- The new node occurs inside neither operand.

Module `Program` models the one use of the builders in `src/main.rs`:
`Symbol("a") + Symbol("b")`.

No builder simplifies. There is no constant folding, and `0` and `1`
operands are kept. `0 - x` stays `Sub(Const(0), x)`, and `*` builds `Mul`
(src/algebra.rs:41). The file has no differentiation and no text rendering.
`NeutralOperandsKept` states that none of these identities is applied.

## Model

| member | source | states |
|---|---|---|
| `Algebra.Size` | src/algebra.rs:3-13 | every tree has at least one node, and exactly one iff it is a `Const` or `Symbol` leaf |
| `Algebra.Children` | src/algebra.rs:3-13 | leaves have no children, interior nodes one or two, and each child is strictly smaller than its parent (each box owns a strictly smaller tree) |
| `Algebra.Leaves` | src/algebra.rs:3-13 | every tree has between one and `Size` leaves, and each of them is a `Const` or `Symbol` |
| `Algebra.OccursSize` | src/algebra.rs:3-13 | a subtree is no larger than the tree that contains it, and equal size means it is that tree |
| `Algebra.OccursTransitive` | src/algebra.rs:3-13 | a subtree of a subtree is a subtree |
| `Algebra.NoNodeInsideItsChild` | src/algebra.rs:6-12 | no node occurs inside one of its own children (exclusive ownership admits no cycle) |
| `Algebra.PowExpr` | src/algebra.rs:16-18 | `base.Pow(index)` is a `Pow` node whose base is `base` and whose index is `index`, for any index expression |
| `Algebra.AddExpr` | src/algebra.rs:24-26 | `lhs + rhs` is an `Add` node with `lhs` on the left and `rhs` on the right |
| `Algebra.SubExpr` | src/algebra.rs:32-34 | `lhs - rhs` is a `Sub` node with `lhs` on the left and `rhs` on the right |
| `Algebra.MulExpr` | src/algebra.rs:40-42 | `lhs * rhs` is a `Mul` node with `lhs` on the left and `rhs` on the right |
| `Algebra.DivExpr` | src/algebra.rs:48-50 | `lhs / rhs` is a `Div` node with `lhs` on the left and `rhs` on the right, for every `rhs` (no precondition) |
| `Algebra.BuildersInjective` | src/algebra.rs:16-50 | for each builder, two results are equal iff both pairs of operands are equal |
| `Algebra.BuildersDistinct` | src/algebra.rs:6-10 | results of two different builders are never equal, whatever the operands |
| `Algebra.BuilderAddsOneNode` | src/algebra.rs:16-50 | a builder's result has exactly `1 + Size(lhs) + Size(rhs)` nodes, so it is strictly larger than either operand |
| `Algebra.BuilderKeepsOperandOrder` | src/algebra.rs:16-50 | a builder's result has exactly the operands as its direct children, in order, and its leaves are the left operand's leaves followed by the right operand's |
| `Algebra.BuilderNeverFolds` | src/algebra.rs:16-50 | a builder's result is never a constant or symbol, never a negation, and never equal to either operand |
| `Algebra.NeutralOperandsKept` | src/algebra.rs:16-50 | `0 + e`, `e + 0`, `0 - e`, `1 * e`, `e * 1`, `e / 1` and `e.Pow(1)` are not `e`, and `0 - e` is not `-e`. `0 * e` and `e * 0` are not `Const(0)`. Constant operands are not folded into a constant. `e * f` is never a `Sub` node, for any `e` and `f`. `e / 0` keeps `Const(0)` as its divisor |
| `Algebra.BuilderSubtrees` | src/algebra.rs:16-50 | the subtrees of a builder's result are the result itself and the subtrees of its operands, and the result occurs inside neither operand |
| `Program.SumOfAAndB` | src/main.rs:37-39 | `Symbol("a") + Symbol("b")` is an `Add` node with `a` on the left and `b` on the right |
| `Program.SumOfAAndBShape` | src/main.rs:37-39 | that expression has three nodes, its leaves are `a` then `b`, and it equals neither operand |

## Left out

- The finite-difference steppers `diffusion`, `nonlinear_convection` and `linear_convection` in `src/main.rs` are not modelled: they are floating-point numerics over `Vec<f64>`.
- `RunConfig::new` in `src/main.rs` is not modelled: it only does `f64` arithmetic.
- `plot` and the printing in `main` are not modelled: they are file, bitmap and console output through the external `plotters` crate.
- `Const` holds a bounded `I64`, but no arithmetic is done on it anywhere, so there is no overflow to model.
- Rust's move semantics (operands consumed by the builders) is not modelled: on immutable values nothing can observe a moved-from operand.
- Simplification rules, differentiation and text rendering are not modelled: they are not in `src/algebra.rs`.
