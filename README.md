# Fixed-shape matrices: a verified model

This project models the core of a small Rust matrix library (`src/lib.rs`):
the type `Matrix<R, C>`, stored as `[[f32; R]; C]`. It models:

- its constructors `new` and `ident`;
- `transpose`;
- the operators `+`, `-`, `+=`, `-=` and `*`;
- the Gauss-Jordan `inverse` of a square matrix;
- the 4x4 transform builders `translation`, `scale` and `rotation`;
- the homogeneous point `point`;
- the conversions between matrices, `Vec3` and `Vec4`.

Throughout, the OUTER index of the storage ranges over C and the inner one
over R. Entry `[i][j]` exists for `i < C` and `j < R`, as in the source.

The project has four modules:

- `MatrixCore` (`matrix.dfy`) holds the values.
  - `Matrix(R, C, cells)` is a datatype with a `Valid()` shape predicate. A Rust matrix is `Copy`, so a value is the right model.
  - It also holds the functions that specify each operation (`New`, `Identity`, `Transposed`, `Plus`, `Minus`, `Product`) and the algebraic laws proved about them.
  - `Dot(u, rows, j, n)` is the running sum that `mul` accumulates into one cell, in the same order.
- `MatrixOps` (`operations.dfy`) holds the loops.
  - Each operation that fills storage cell by cell is a method that does so in a local `array2<real>`.
  - Each method is proved to return exactly its specification function.
  - The source's uninitialised `empty()` is an array allocated without an initialiser, so the proofs show that every cell is written before it is used.
  - `+=` and `-=` update the receiver's storage in place.
- `Inversion` (`inverse.dfy`) models `inverse`.
  - The algorithm is specified pass by pass: `Stage(A, n)` is the pair (working copy, accumulator) after n passes.
  - The method runs the source's three nested loops on two arrays and is proved to return `InverseOf(A)`.
  - `InverseOf(A)` is `None` exactly when some reached pivot is zero. Otherwise it is a left inverse, `r * A == ident()`, and also a right inverse, `A * r == ident()`.
  - The right inverse comes from undoing the passes. `Undo(A, n)` multiplies together the inverses of the row operations of the first n passes, so `Undo(A, n) * res == ident()` at every stage. With associativity of the product, `Undo(A, S)` is then A itself.
- `Transforms` (`transforms.dfy`) models the 4x4 builders, `point` and the conversions.
  - It also has lemmas about how `point(p) * M` moves a point. That is the only product the shapes allow: a one-row `Matrix<4, 1>` times a `Matrix<4, 4>`.

Where the code and the library's documented behaviour differ, the model
follows the code:

- **Direction of the quarter turn.**
  - The documentation says that `rotation((0, 0, 1), π/2)` applied to the point (1, 0, 0) gives (0, 1, 0).
  - The only product the types allow is `point(p) * rotation`, and it gives (0, -1, 0) (`Transforms.QuarterTurnAboutZ`). About z, a row vector is turned by the transpose of the textbook matrix.
- **The rotation formula.**
  - The documentation calls `rotation` the standard axis-angle (Rodrigues) matrix, but entry `[0][2]` has the wrong sign (see "Findings").
  - `Rotation` and `From<Vec4>` keep the entry as written.

As designed, `inverse` never exchanges rows (no partial pivoting), and the
model reproduces that. A zero pivot ends the run even when a row exchange
would succeed. `Inversion.SwapNotInverted` shows this on `[[0, 1], [1, 0]]`,
which is its own inverse.

## Model

| member | source | states |
|---|---|---|
| MatrixCore.New | src/lib.rs:14-16 | `new()` has the shape R x C and every entry is 0 |
| MatrixCore.Identity | src/lib.rs:17-23 | the identity of any shape: 1 at `[i][i]` for every i < min(R, C), 0 at every other entry |
| MatrixCore.Transposed | src/lib.rs:24-32 | the transpose has the swapped shape and entry `[j][i]` equal to the input's `[i][j]` |
| MatrixCore.Plus | src/lib.rs:173-184 | `a + b` keeps the shape and sums entry by entry |
| MatrixCore.Minus | src/lib.rs:196-207 | `a - b` keeps the shape and subtracts entry by entry |
| MatrixCore.Product | src/lib.rs:287-301 | `Matrix<B, C> * Matrix<R, B>` is a `Matrix<R, C>` whose cell `[i][j]` is the sum over k < B of `self[i][k] * rhs[k][j]`, added in the order of k |
| MatrixCore.TransposeTwice | src/lib.rs:24-32 | transposing twice gives back the matrix |
| MatrixCore.PlusCommutes | src/lib.rs:173-184 | `a + b == b + a` |
| MatrixCore.PlusNew | src/lib.rs:173-184 | `a + new() == a` |
| MatrixCore.MinusUndoesPlus | src/lib.rs:196-207 | `(a + b) - b == a` |
| MatrixCore.DotUnitRow | src/lib.rs:294-296 | the sum with the unit row e_i as left factor picks out row i |
| MatrixCore.DotUnitColumn | src/lib.rs:294-296 | the sum against the unit column e_j picks out entry j of the row |
| MatrixCore.DotScaled | src/lib.rs:294-296 | scaling the left row by d scales the sum by d |
| MatrixCore.DotMinusMultiple | src/lib.rs:294-296 | subtracting f times one left row from another subtracts f times its sum |
| MatrixCore.DotPlusMultiple | src/lib.rs:294-296 | adding f times one left row to another adds f times its sum |
| MatrixCore.RowTimesStep | src/lib.rs:287-301 | one more term of the left row adds that term times the next row of the middle factor to the double sum |
| MatrixCore.DotSwap | src/lib.rs:287-301 | the double sum of u, b and c gives the same value in either order of summation |
| MatrixCore.ProductAssociative | src/lib.rs:287-301 | `(a * b) * c == a * (b * c)` |
| MatrixCore.ProductNotCommutative | src/lib.rs:287-301 | the product does not commute: `e01 * e10 != e10 * e01` for the 2x2 unit matrices |
| MatrixCore.ProductIdentityLeft | src/lib.rs:287-301 | `ident() * A == A` |
| MatrixCore.ProductIdentityRight | src/lib.rs:287-301 | `A * ident() == A` |
| MatrixOps.Thaw | src/lib.rs:142 | copying a value into fresh storage (`let mut mat = *self`) holds the same value |
| MatrixOps.Ident | src/lib.rs:17-23 | `ident()` as written (start from zeros, set `[i][i] = 1` for i < min(C, R)) returns `Identity(R, C)` |
| MatrixOps.Transpose | src/lib.rs:24-32 | the loops fill all of the uninitialised result and return `Transposed(m)` |
| MatrixOps.Add | src/lib.rs:173-184 | the loops fill all of the uninitialised result and return `Plus(a, b)` |
| MatrixOps.Sub | src/lib.rs:196-207 | the loops fill all of the uninitialised result and return `Minus(a, b)` |
| MatrixOps.AddAssign | src/lib.rs:186-194 | after `self += rhs` the receiver holds `Plus(old self, rhs)`, the value `self + rhs` returns |
| MatrixOps.SubAssign | src/lib.rs:209-217 | after `self -= rhs` the receiver holds `Minus(old self, rhs)`, the value `self - rhs` returns |
| MatrixOps.Mul | src/lib.rs:287-301 | the triple loop (zero the cell, then accumulate over k) returns `Product(a, b)` |
| Inversion.ScaleRow | src/lib.rs:153-156 | row i multiplied by d, every other row unchanged |
| Inversion.ClearColumn | src/lib.rs:158-166 | every row k other than i loses `factors[k][i]` times row i; row i unchanged |
| Inversion.PivotStep | src/lib.rs:151-166 | one pass with a nonzero pivot keeps both working matrices S x S |
| Inversion.Stage | src/lib.rs:142-167 | the working state after n passes keeps both matrices S x S |
| Inversion.InverseOf | src/lib.rs:141-170 | what `inverse` returns: on `Some`, an S x S matrix (the accumulator after all S passes); `None` whenever `A[0][0] == 0`, the first pivot |
| Inversion.ScaleRowProduct | src/lib.rs:153-156 | scaling row i of `res` scales row i of `res * A` by the same factor |
| Inversion.ClearedRowDot | src/lib.rs:158-166 | a cleared row of `res`, times A, is the old row's sums minus the factor times row i's sums |
| Inversion.ClearColumnProductAt | src/lib.rs:158-166 | one cell of `ClearColumnProduct`, for any factors |
| Inversion.ClearColumnProduct | src/lib.rs:158-166 | clearing column i of `res`, with any factors, does the same row operations to `res * A` |
| Inversion.PivotStepInvariant | src/lib.rs:151-166 | a pass keeps `mat == res * A` and turns column i of `mat` into a unit column |
| Inversion.StageInvariant | src/lib.rs:145-167 | after every reached stage n, `mat == res * A` and columns 0..n-1 of `mat` are unit columns |
| Inversion.InverseSound | src/lib.rs:141-170 | when no pivot is zero, the final accumulator r satisfies `r * A == ident()` |
| Inversion.ScaleRowUndo | src/lib.rs:153-156 | scaling row i by d and then by p gives back the matrix when `d * p == 1` |
| Inversion.ClearColumnUndo | src/lib.rs:158-166 | clearing column i with the negated factors adds back what clearing subtracted, giving back the matrix |
| Inversion.ScaleRowIsProduct | src/lib.rs:153-156 | scaling row i is multiplying on the left by the identity with row i scaled |
| Inversion.ClearColumnIsProduct | src/lib.rs:158-166 | clearing column i is multiplying on the left by the identity with column i cleared by the same factors |
| Inversion.UndoPassIsProduct | src/lib.rs:151-166 | undoing a pass is multiplying on the left by the undone identity |
| Inversion.PivotStepUndo | src/lib.rs:151-166 | the undone identity with the pass's pivot, times the accumulator after the pass, gives the accumulator before it |
| Inversion.UndoStep | src/lib.rs:145-167 | a nonzero pivot at pass n multiplies `Undo(A, n)` on the right by that pass undone |
| Inversion.ProductThrough | src/lib.rs:287-301 | `(U * E) * X == U * Y` whenever `E * X == Y` |
| Inversion.UndoPreserved | src/lib.rs:151-166 | a pass with a nonzero pivot keeps `Undo(A, n) * res` |
| Inversion.UndoInvariant | src/lib.rs:145-167 | at every reached stage n, `Undo(A, n) * res == ident()` |
| Inversion.InverseRight | src/lib.rs:141-170 | when no pivot is zero, the final accumulator r also satisfies `A * r == ident()` |
| Inversion.StageStep | src/lib.rs:145-167 | a nonzero pivot at pass n makes stage n + 1 one `PivotStep` from stage n |
| Inversion.FirstZeroPivot | src/lib.rs:146-149 | if some pivot before n is zero, there is a first one, reached after nonzero pivots only |
| Inversion.InverseNoneIff | src/lib.rs:146-149 | `inverse` returns `None` if and only if the pivot found at some pass i, reached after i nonzero pivots, is 0 |
| Inversion.SwapNotInverted | src/lib.rs:146-149 | `[[0, 1], [1, 0]]` times itself is `ident()`, yet `inverse` returns `None` for it |
| Inversion.ScaleRowsInPlace | src/lib.rs:153-156 | the scaling loop multiplies row i of both arrays by d in place and changes nothing else |
| Inversion.ScaleRows | src/lib.rs:153-156 | the scaling loop turns both matrix values into `ScaleRow` of them |
| Inversion.SubtractMultiples | src/lib.rs:161-164 | the innermost loop subtracts fac times row i from row k of both arrays and changes no other row |
| Inversion.EliminateRow | src/lib.rs:159-165 | with `fac = mat[k][i]` read first, row k of both arrays becomes row k of `ClearColumn`, other rows unchanged |
| Inversion.EliminateColumn | src/lib.rs:158-166 | the loop over k turns `mat` into `ClearColumn(mat, mat, i)` and `res` into `ClearColumn(res, mat, i)` |
| Inversion.Inverse | src/lib.rs:141-170 | returns `InverseOf(A)`; on `Some(r)`, `r * A == ident()` and `A * r == ident()`; `None` whenever `A[0][0] == 0` |
| Transforms.Translation | src/lib.rs:220-227 | a 4x4 matrix; its action on points is `TranslatePoint` |
| Transforms.Scale | src/lib.rs:228-235 | a 4x4 matrix; its action on points is `ScalePoint` |
| Transforms.Rotation | src/lib.rs:236-266 | outer row 3 is (0, 0, 0, 1) and entry 3 of every other row is 0, for every axis and angle |
| Transforms.RotationCorrected | src/lib.rs:261 | the Rodrigues matrix: the source's rotation with `[0][2]` larger by `2 y sin` and every other entry equal to the source's |
| Transforms.Point | src/lib.rs:270-272 | `point(p)` is a `Matrix<4, 1>` whose single row ends in 1 |
| Transforms.FromRow | src/lib.rs:281-285 | `From<[f32; S]>` makes the array the single outer row of a `Matrix<S, 1>` |
| Transforms.ToVec3 | src/lib.rs:363-366 | `From<Matrix<4, 1>> for Vec3` reads back `[0][0]`, `[0][1]`, `[0][2]` and drops only `[0][3]`: those three and the dropped entry rebuild the matrix |
| Transforms.FromVec4 | src/lib.rs:346-350 | `From<Vec4>` is the rotation about axis (x, y, z) by angle w, with last row (0, 0, 0, 1) |
| Transforms.FromVec3 | src/lib.rs:336-344 | `From<Vec3>` (patch `ident()` at `[3][0..3]`) returns exactly `translation(v)` |
| Transforms.Dot4 | src/lib.rs:294-296 | a sum over a shared dimension of 4 is the four products added in order |
| Transforms.PointTimes | src/lib.rs:287-301 | `point(p) * M` has entries `p.x M[0][j] + p.y M[1][j] + p.z M[2][j] + M[3][j]` |
| Transforms.PointRoundTrip | src/lib.rs:363-366 | `Vec3::from(point(p)) == p`, and `point(p)` is `From<[f32; 4]>` of (x, y, z, 1) |
| Transforms.Vec3RoundTrip | src/lib.rs:363-366 | a `Matrix<4, 1>` whose last entry is 1 is `point` of its `Vec3` |
| Transforms.TranslatePoint | src/lib.rs:220-227 | `point(p) * translation(t) == point(p + t)` |
| Transforms.ScalePoint | src/lib.rs:228-235 | `point(p) * scale(s) == point(p.x s.x, p.y s.y, p.z s.z)` |
| Transforms.RotatePointIsPoint | src/lib.rs:236-266 | `point(p) * rotation(..)` is again a point (last entry 1) |
| Transforms.RotateAboutZ | src/lib.rs:236-266 | about the z axis, `point(p) * rotation` is (x cos + y sin, y cos - x sin, z) |
| Transforms.QuarterTurnAboutZ | src/lib.rs:236-266 | with sine 1 and cosine 0 about z, the point (1, 0, 0) goes to (0, -1, 0) |
| Transforms.RotationCollapsesPoint | src/lib.rs:261 | as written, the rotation about y with sine equal to cosine sends (1, 0, 1) to the origin |
| Transforms.RotateAboutYCorrected | src/lib.rs:261 | with the corrected entry, about y a point goes to (x cos - z sin, y, x sin + z cos) |
| Transforms.RotationCorrectedKeepsLength | src/lib.rs:261 | with the corrected entry and sin² + cos² = 1, rotation about y keeps the length of every point |

## Left out

- `f32` arithmetic: entries are exact reals.
  - No rounding, overflow, infinities or NaN.
  - The tests `diag == 0.0` and the division `1.0 / diag` are exact.
  - A tiny nonzero pivot is accepted, as in the source, but its rounding error is not modelled.
- `f32::sin_cos` is a foreign computation. It is the parameter `sinCos: real -> (real, real)`, and lemmas that need particular values state them as preconditions.
- Compile-time shapes (const generics) are the `Valid()` predicate plus shape preconditions. A shape mismatch, which Rust rejects at compile time, is excluded by `requires`.
- `unsafe fn empty()` has no member of its own. It is modelled as storage allocated without an initialiser.
- `From<[[f32; R]; C]>` (src/lib.rs:275-279) wraps the array unchanged, so it is the datatype constructor `Matrix(R, C, cells)`.
- `Vec3::new` and `Vec4::new` are the datatype constructors `Vec3(x, y, z)` and `Vec4(x, y, z, w)`.
- The convenience macros (`matrix!`, `identity!`, `point!`, `translate!`, `rotate!`, `scale!`) and the `Debug` impls (text formatting) are not part of this model.
- The updates of `+=` and `-=` are modelled on the receiver's storage array. Because the source's `self` is an exclusive `&mut`, aliasing between `self` and `rhs` cannot arise and is not modelled.
- Rotation (Transforms.Rotation): no claim of orthogonality or of length preservation for a general axis. The source does not normalise the axis, and as written the matrix is not a rotation (see "Findings"). Only the behaviour about the coordinate axes is proved.

## Findings

| source | as written | input that shows it | evidently intended | confidence | as-written member | corrected member |
|---|---|---|---|---|---|---|
| src/lib.rs:261 | entry `[0][2]` of `rotation` is `zxc - ys`, the same expression as the mirrored entry `[2][0]` (src/lib.rs:263) | axis (0, 1, 0) and an angle whose sine equals its cosine (45 degrees): `point((1, 0, 1)) * rotation` is the origin, so the matrix is singular | `zxc + ys`, the Rodrigues entry, which makes every other entry already in the source consistent; about y it then turns (z, x) and keeps lengths | high; not executed | Transforms.RotationCollapsesPoint | Transforms.RotationCorrectedKeepsLength |

`Transforms.Rotation`, and through it `Transforms.FromVec4`, keep the entry
as written, because they model the code. The corrected matrix is
`Transforms.RotationCorrected`. The two agree whenever `axis.y * sin == 0`,
which includes rotations about the x and z axes.
