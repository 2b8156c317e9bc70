/** `Matrix<S, S>::inverse`: Gauss-Jordan elimination without pivoting.
    A working copy `mat` of the input and an accumulator `res` that starts as
    the identity receive the same row operations; a zero diagonal entry in
    `mat` ends the run with `None`.  The specification is the sequence of
    states `Stage(A, n)` after n pivot steps; the main results are that a
    successful run returns a left inverse, `res * A == ident()`, which is
    also a right inverse, `A * res == ident()`. */
module Inversion {
  import opened MatrixCore
  import opened MatrixOps

  datatype Option<T> = None | Some(value: T)

  /** The state of the two working matrices. */
  datatype Elimination = Elimination(mat: Matrix, res: Matrix)

  ghost predicate IsSquare(m: Matrix) {
    m.Valid() && m.R == m.C
  }

  ghost predicate Shaped(st: Elimination, S: nat) {
    st.mat.Valid() && st.res.Valid() && st.mat.R == S && st.mat.C == S && st.res.R == S && st.res.C == S
  }

  /** Row i multiplied by d; the other rows are kept. */
  function ScaleRow(m: Matrix, i: nat, d: real): (r: Matrix)
    requires m.Valid() && i < m.C
    ensures r.Valid() && r.R == m.R && r.C == m.C
    ensures forall k, j {:trigger r.cells[k][j]} :: 0 <= k < m.C && 0 <= j < m.R ==>
              r.cells[k][j] == if k == i then m.cells[k][j] * d else m.cells[k][j]
  {
    Matrix(m.R, m.C, m.cells[i := seq(m.R, j requires 0 <= j < m.R => m.cells[i][j] * d)])
  }

  /** Every row k other than i loses `factors[k][i]` times row i; row i is kept. */
  function ClearColumn(m: Matrix, factors: Matrix, i: nat): (r: Matrix)
    requires m.Valid() && factors.Valid() && factors.C == m.C && i < m.C && i < factors.R
    ensures r.Valid() && r.R == m.R && r.C == m.C
    ensures forall k, j {:trigger r.cells[k][j]} :: 0 <= k < m.C && 0 <= j < m.R ==>
              r.cells[k][j] == if k == i then m.cells[k][j] else m.cells[k][j] - factors.cells[k][i] * m.cells[i][j]
  {
    Matrix(m.R, m.C, seq(m.C, k requires 0 <= k < m.C =>
                          if k == i then m.cells[k]
                          else seq(m.R, j requires 0 <= j < m.R => m.cells[k][j] - factors.cells[k][i] * m.cells[i][j])))
  }

  /** One pass of the outer loop with a nonzero pivot `mat[i][i]`: scale row i
      of both matrices by 1 / pivot, then clear column i of `mat` from every
      other row, with the factors read from the scaled `mat`. */
  function PivotStep(st: Elimination, i: nat): (next: Elimination)
    requires Shaped(st, st.mat.C) && i < st.mat.C && st.mat.cells[i][i] != 0.0
    ensures Shaped(next, st.mat.C)
  {
    var d := 1.0 / st.mat.cells[i][i];
    var mat := ScaleRow(st.mat, i, d);
    var res := ScaleRow(st.res, i, d);
    Elimination(ClearColumn(mat, mat, i), ClearColumn(res, mat, i))
  }

  /** The working state after the first n passes: `mat` starts as A and
      `res` as the identity; a pass whose pivot is zero changes nothing
      (the method has returned by then). */
  function Stage(A: Matrix, n: nat): (st: Elimination)
    requires IsSquare(A) && n <= A.C
    ensures Shaped(st, A.C)
  {
    if n == 0 then Elimination(A, Identity(A.C, A.C))
    else
      var st := Stage(A, n - 1);
      if st.mat.cells[n - 1][n - 1] == 0.0 then st else PivotStep(st, n - 1)
  }

  /** The first n passes all found a nonzero pivot. */
  ghost predicate PivotsNonzero(A: Matrix, n: nat)
    requires IsSquare(A) && n <= A.C
  {
    forall i :: 0 <= i < n ==> Stage(A, i).mat.cells[i][i] != 0.0
  }

  /** What `inverse` returns: `None` when some pass meets a zero pivot,
      otherwise the accumulator after all S passes. */
  ghost function InverseOf(A: Matrix): (r: Option<Matrix>)
    requires IsSquare(A)
    ensures r.Some? ==> r.value.Valid() && r.value.R == A.C && r.value.C == A.C
    ensures A.C > 0 && A.cells[0][0] == 0.0 ==> r.None?
  {
    assert Stage(A, 0).mat == A;
    if PivotsNonzero(A, A.C) then Some(Stage(A, A.C).res) else None
  }

  /** Columns 0 .. n-1 of m are unit columns. */
  ghost predicate UnitColumns(m: Matrix, n: nat)
    requires m.Valid()
  {
    forall k, c :: 0 <= k < m.C && 0 <= c < n && c < m.R ==> m.cells[k][c] == if k == c then 1.0 else 0.0
  }

  /** Scaling a row of `res` scales the same row of `res * A`. */
  lemma ScaleRowProduct(res: Matrix, A: Matrix, i: nat, d: real)
    requires res.Valid() && A.Valid() && res.R == A.C && i < res.C
    ensures ScaleRow(Product(res, A), i, d) == Product(ScaleRow(res, i, d), A)
  {
    var lhs, rhs := ScaleRow(Product(res, A), i, d), Product(ScaleRow(res, i, d), A);
    forall j | 0 <= j < A.R
      ensures lhs.cells[i][j] == rhs.cells[i][j]
    {
      DotScaled(ScaleRow(res, i, d).cells[i], res.cells[i], d, A.cells, j, A.C);
    }
    Ext(lhs, rhs);
  }

  /** Row k of `ClearColumn(res, F, i)` times A, as sums over rows of res. */
  lemma ClearedRowDot(res: Matrix, F: Matrix, A: Matrix, i: nat, k: nat, j: nat)
    requires res.Valid() && F.Valid() && A.Valid() && res.R == A.C
    requires F.C == res.C && i < res.C && i < F.R && k < res.C && j < A.R && k != i
    ensures Dot(ClearColumn(res, F, i).cells[k], A.cells, j, A.C)
         == Dot(res.cells[k], A.cells, j, A.C) - F.cells[k][i] * Dot(res.cells[i], A.cells, j, A.C)
  {
    DotMinusMultiple(ClearColumn(res, F, i).cells[k], res.cells[k], res.cells[i], F.cells[k][i], A.cells, j, A.C);
  }

  /** One cell of `ClearColumnProduct`, for any matrix of factors F. */
  lemma ClearColumnProductAt(res: Matrix, F: Matrix, A: Matrix, i: nat, k: nat, j: nat)
    requires res.Valid() && F.Valid() && A.Valid() && res.R == A.C
    requires F.C == res.C && i < res.C && i < F.R && k < res.C && j < A.R
    ensures Product(ClearColumn(res, F, i), A).cells[k][j]
         == if k == i then Product(res, A).cells[k][j]
            else Product(res, A).cells[k][j] - F.cells[k][i] * Product(res, A).cells[i][j]
  {
    if k == i {
      assert ClearColumn(res, F, i).cells[i] == res.cells[i];
    } else {
      ClearedRowDot(res, F, A, i, k, j);
    }
  }

  /** Subtracting multiples of row i from the other rows of `res` does the
      same to `res * A`, whatever the matrix F of factors. */
  lemma ClearColumnProduct(res: Matrix, F: Matrix, A: Matrix, i: nat)
    requires res.Valid() && F.Valid() && A.Valid() && res.R == A.C
    requires F.C == res.C && i < res.C && i < F.R
    ensures ClearColumn(Product(res, A), F, i) == Product(ClearColumn(res, F, i), A)
  {
    var lhs, rhs := ClearColumn(Product(res, A), F, i), Product(ClearColumn(res, F, i), A);
    forall k, j | 0 <= k < res.C && 0 <= j < A.R
      ensures lhs.cells[k][j] == rhs.cells[k][j]
    {
      ClearColumnProductAt(res, F, A, i, k, j);
    }
    Ext(lhs, rhs);
  }

  /** A pass keeps `mat == res * A` and turns column i into a unit column. */
  lemma PivotStepInvariant(A: Matrix, st: Elimination, i: nat)
    requires IsSquare(A) && Shaped(st, A.C) && i < A.C && st.mat.cells[i][i] != 0.0
    requires st.mat == Product(st.res, A) && UnitColumns(st.mat, i)
    ensures PivotStep(st, i).mat == Product(PivotStep(st, i).res, A)
    ensures UnitColumns(PivotStep(st, i).mat, i + 1)
  {
    var p := st.mat.cells[i][i];
    var d := 1.0 / p;
    var mat := ScaleRow(st.mat, i, d);
    var res := ScaleRow(st.res, i, d);
    ScaleRowProduct(st.res, A, i, d);
    ClearColumnProduct(res, mat, A, i);
    assert mat.cells[i][i] == 1.0;
    var next := ClearColumn(mat, mat, i);
    forall k, c | 0 <= k < A.C && 0 <= c < i + 1
      ensures next.cells[k][c] == if k == c then 1.0 else 0.0
    {
      if c < i {
        assert mat.cells[i][c] == 0.0;
        if k != i {
          assert next.cells[k][c] == mat.cells[k][c] - mat.cells[k][i] * 0.0;
        }
      } else if k != i {
        assert next.cells[k][c] == mat.cells[k][i] - mat.cells[k][i] * 1.0;
      }
    }
  }

  /** The loop invariant of the elimination, for every stage reached. */
  lemma {:induction false} StageInvariant(A: Matrix, n: nat)
    requires IsSquare(A) && n <= A.C && PivotsNonzero(A, n)
    ensures Stage(A, n).mat == Product(Stage(A, n).res, A)
    ensures UnitColumns(Stage(A, n).mat, n)
  {
    if n == 0 {
      ProductIdentityLeft(A);
    } else {
      var st := Stage(A, n - 1);
      assert PivotsNonzero(A, n - 1) && st.mat.cells[n - 1][n - 1] != 0.0;
      var next := PivotStep(st, n - 1);
      assert Stage(A, n) == next;
      StageInvariant(A, n - 1);
      PivotStepInvariant(A, st, n - 1);
      assert UnitColumns(next.mat, n);
    }
  }

  /** A successful `inverse` returns a left inverse: `r * A == ident()`. */
  lemma InverseSound(A: Matrix)
    requires IsSquare(A) && InverseOf(A).Some?
    ensures Product(InverseOf(A).value, A) == Identity(A.C, A.C)
  {
    StageInvariant(A, A.C);
    Ext(Stage(A, A.C).mat, Identity(A.C, A.C));
  }

  /** Every entry of F with its sign changed. */
  function Negated(F: Matrix): (g: Matrix)
    requires F.Valid()
    ensures g.Valid() && g.R == F.R && g.C == F.C
    ensures forall k, j :: 0 <= k < F.C && 0 <= j < F.R ==> g.cells[k][j] + F.cells[k][j] == 0.0
  {
    Matrix(F.R, F.C, seq(F.C, k requires 0 <= k < F.C => seq(F.R, j requires 0 <= j < F.R => -F.cells[k][j])))
  }

  /** Scaling row i by d and then by p restores the matrix when d * p == 1. */
  lemma ScaleRowUndo(X: Matrix, i: nat, d: real, p: real)
    requires X.Valid() && i < X.C && d * p == 1.0
    ensures ScaleRow(ScaleRow(X, i, d), i, p) == X
  {
    var Y := ScaleRow(ScaleRow(X, i, d), i, p);
    forall j | 0 <= j < X.R
      ensures Y.cells[i][j] == X.cells[i][j]
    {
      assert X.cells[i][j] * d * p == X.cells[i][j] * (d * p);
    }
    Ext(Y, X);
  }

  /** Adding back the multiples of row i that `ClearColumn` subtracted
      restores the matrix: row i itself is never changed. */
  lemma ClearColumnUndo(X: Matrix, F: Matrix, i: nat)
    requires X.Valid() && F.Valid() && F.C == X.C && i < X.C && i < F.R
    ensures ClearColumn(ClearColumn(X, F, i), Negated(F), i) == X
  {
    var Y := ClearColumn(X, F, i);
    var Z := ClearColumn(Y, Negated(F), i);
    forall k, j | 0 <= k < X.C && 0 <= j < X.R && k != i
      ensures Z.cells[k][j] == X.cells[k][j]
    {
      var f, g := F.cells[k][i], Negated(F).cells[k][i];
      assert Z.cells[k][j] == (X.cells[k][j] - f * X.cells[i][j]) - g * X.cells[i][j];
      assert g == -f;
    }
    Ext(Z, X);
  }

  /** Scaling row i is multiplying on the left by the identity with row i scaled. */
  lemma ScaleRowIsProduct(X: Matrix, i: nat, d: real)
    requires X.Valid() && i < X.C
    ensures ScaleRow(X, i, d) == Product(ScaleRow(Identity(X.C, X.C), i, d), X)
  {
    ScaleRowProduct(Identity(X.C, X.C), X, i, d);
    ProductIdentityLeft(X);
  }

  /** Clearing column i is multiplying on the left by the identity with
      column i cleared by the same factors. */
  lemma ClearColumnIsProduct(X: Matrix, F: Matrix, i: nat)
    requires X.Valid() && F.Valid() && F.C == X.C && i < X.C && i < F.R
    ensures ClearColumn(X, F, i) == Product(ClearColumn(Identity(X.C, X.C), F, i), X)
  {
    ClearColumnProduct(Identity(X.C, X.C), F, X, i);
    ProductIdentityLeft(X);
  }

  /** The row operations of a pass, undone: add back the multiples of row
      i, then scale row i by the pivot p. */
  function UndoPass(X: Matrix, F: Matrix, i: nat, p: real): (r: Matrix)
    requires X.Valid() && F.Valid() && F.C == X.C && i < X.C && i < F.R
    ensures r.Valid() && r.R == X.R && r.C == X.C
  {
    ScaleRow(ClearColumn(X, Negated(F), i), i, p)
  }

  /** Undoing a pass is multiplying on the left by the undone identity. */
  lemma UndoPassIsProduct(X: Matrix, F: Matrix, i: nat, p: real)
    requires X.Valid() && F.Valid() && F.C == X.C && i < X.C && i < F.R
    ensures UndoPass(X, F, i, p) == Product(UndoPass(Identity(X.C, X.C), F, i, p), X)
  {
    var I := Identity(X.C, X.C);
    ClearColumnIsProduct(X, Negated(F), i);
    ScaleRowProduct(ClearColumn(I, Negated(F), i), X, i, p);
  }

  /** The matrix that undoes the first n passes: `Undo(A, n) * Stage(A, n).res`
      is the identity (`UndoInvariant`). */
  ghost function Undo(A: Matrix, n: nat): (u: Matrix)
    requires IsSquare(A) && n <= A.C
    ensures u.Valid() && u.R == A.C && u.C == A.C
  {
    if n == 0 then Identity(A.C, A.C)
    else
      var st := Stage(A, n - 1);
      var p := st.mat.cells[n - 1][n - 1];
      if p == 0.0 then Undo(A, n - 1)
      else
        var F := ScaleRow(st.mat, n - 1, 1.0 / p);
        Product(Undo(A, n - 1), UndoPass(Identity(A.C, A.C), F, n - 1, p))
  }

  /** A pass is undone by multiplying on the left by `UndoPass` of the
      identity, with the pivot it divided by. */
  lemma PivotStepUndo(st: Elimination, i: nat)
    requires Shaped(st, st.mat.C) && i < st.mat.C && st.mat.cells[i][i] != 0.0
    ensures Product(UndoPass(Identity(st.mat.C, st.mat.C), ScaleRow(st.mat, i, 1.0 / st.mat.cells[i][i]), i, st.mat.cells[i][i]),
                    PivotStep(st, i).res)
         == st.res
  {
    var p := st.mat.cells[i][i];
    var d := 1.0 / p;
    var F := ScaleRow(st.mat, i, d);
    UndoPassIsProduct(PivotStep(st, i).res, F, i, p);
    ClearColumnUndo(ScaleRow(st.res, i, d), F, i);
    ScaleRowUndo(st.res, i, d, p);
  }

  /** One more pass with a nonzero pivot multiplies the undo matrix on the
      right by that pass undone. */
  lemma UndoStep(A: Matrix, n: nat)
    requires IsSquare(A) && n < A.C && Stage(A, n).mat.cells[n][n] != 0.0
    ensures Undo(A, n + 1)
         == Product(Undo(A, n), UndoPass(Identity(A.C, A.C), ScaleRow(Stage(A, n).mat, n, 1.0 / Stage(A, n).mat.cells[n][n]),
                                         n, Stage(A, n).mat.cells[n][n]))
  {
  }

  /** `(U * E) * X == U * Y` when `E * X == Y`. */
  lemma ProductThrough(U: Matrix, E: Matrix, X: Matrix, Y: Matrix)
    requires U.Valid() && E.Valid() && X.Valid() && U.R == E.C && E.R == X.C
    requires Product(E, X) == Y
    ensures Product(Product(U, E), X) == Product(U, Y)
  {
    ProductAssociative(U, E, X);
  }

  /** A pass with a nonzero pivot keeps `Undo(A, n) * Stage(A, n).res`. */
  lemma UndoPreserved(A: Matrix, n: nat)
    requires IsSquare(A) && n < A.C && Stage(A, n).mat.cells[n][n] != 0.0
    ensures Product(Undo(A, n + 1), Stage(A, n + 1).res) == Product(Undo(A, n), Stage(A, n).res)
  {
    var st := Stage(A, n);
    var p := st.mat.cells[n][n];
    var E := UndoPass(Identity(A.C, A.C), ScaleRow(st.mat, n, 1.0 / p), n, p);
    assert Stage(A, n + 1) == PivotStep(st, n);
    UndoStep(A, n);
    PivotStepUndo(st, n);
    ProductThrough(Undo(A, n), E, PivotStep(st, n).res, st.res);
  }

  /** Every stage's accumulator has the left inverse `Undo(A, n)`. */
  lemma UndoInvariant(A: Matrix, n: nat)
    requires IsSquare(A) && n <= A.C && PivotsNonzero(A, n)
    ensures Product(Undo(A, n), Stage(A, n).res) == Identity(A.C, A.C)
  {
    ProductIdentityLeft(Identity(A.C, A.C));
    var k := 0;
    while k < n
      invariant k <= n
      invariant Product(Undo(A, k), Stage(A, k).res) == Identity(A.C, A.C)
    {
      assert Stage(A, k).mat.cells[k][k] != 0.0;
      UndoPreserved(A, k);
      k := k + 1;
    }
  }

  /** A successful `inverse` also returns a right inverse: `A * r == ident()`.
      The undo matrix U has `U * r == ident()`, and with `r * A == ident()`
      associativity gives `U == U * (r * A) == (U * r) * A == A`. */
  lemma InverseRight(A: Matrix)
    requires IsSquare(A) && InverseOf(A).Some?
    ensures Product(A, InverseOf(A).value) == Identity(A.C, A.C)
  {
    var r, U := InverseOf(A).value, Undo(A, A.C);
    InverseSound(A);
    UndoInvariant(A, A.C);
    ProductAssociative(U, r, A);
    ProductIdentityLeft(A);
    ProductIdentityRight(U);
    assert U == A;
  }

  /** One more pass with a nonzero pivot is the step from stage n to n + 1. */
  lemma StageStep(A: Matrix, n: nat)
    requires IsSquare(A) && n < A.C && PivotsNonzero(A, n) && Stage(A, n).mat.cells[n][n] != 0.0
    ensures Stage(A, n + 1) == PivotStep(Stage(A, n), n)
    ensures PivotsNonzero(A, n + 1)
  {
  }

  /** Some pass before n meets a zero pivot, so a first one does. */
  lemma {:induction false} FirstZeroPivot(A: Matrix, n: nat)
    requires IsSquare(A) && n <= A.C && !PivotsNonzero(A, n)
    ensures exists i :: 0 <= i < n && PivotsNonzero(A, i) && Stage(A, i).mat.cells[i][i] == 0.0
  {
    if PivotsNonzero(A, n - 1) {
      assert Stage(A, n - 1).mat.cells[n - 1][n - 1] == 0.0;
    } else {
      FirstZeroPivot(A, n - 1);
    }
  }

  /** `inverse` fails exactly when the pass at some step i, reached after i
      nonzero pivots, finds `mat[i][i] == 0`. */
  lemma InverseNoneIff(A: Matrix)
    requires IsSquare(A)
    ensures InverseOf(A).None? <==>
            exists i :: 0 <= i < A.C && PivotsNonzero(A, i) && Stage(A, i).mat.cells[i][i] == 0.0
  {
    if InverseOf(A).None? {
      FirstZeroPivot(A, A.C);
    }
  }

  /** The elimination never exchanges rows, so it calls the row swap
      [[0, 1], [1, 0]] singular although the matrix is its own inverse. */
  lemma SwapNotInverted()
    ensures Product(Matrix(2, 2, [[0.0, 1.0], [1.0, 0.0]]), Matrix(2, 2, [[0.0, 1.0], [1.0, 0.0]])) == Identity(2, 2)
    ensures InverseOf(Matrix(2, 2, [[0.0, 1.0], [1.0, 0.0]])) == None
  {
    var P := Matrix(2, 2, [[0.0, 1.0], [1.0, 0.0]]);
    Ext(Product(P, P), Identity(2, 2));
    assert Stage(P, 0).mat.cells[0][0] == 0.0;
  }

  /** Row i of both arrays is multiplied by d, entry by entry (the first
      inner loop); no other row changes. */
  method ScaleRowsInPlace(mat: array2<real>, res: array2<real>, i: nat, d: real)
    requires mat != res
    requires mat.Length0 == mat.Length1 == res.Length0 == res.Length1 && i < mat.Length0
    modifies mat, res
    ensures forall r, c :: 0 <= r < mat.Length0 && 0 <= c < mat.Length0 ==>
              mat[r, c] == if r == i then old(mat[i, c]) * d else old(mat[r, c])
    ensures forall r, c :: 0 <= r < mat.Length0 && 0 <= c < mat.Length0 ==>
              res[r, c] == if r == i then old(res[i, c]) * d else old(res[r, c])
  {
    var S := mat.Length0;
    for j := 0 to S
      invariant forall r, c :: 0 <= r < S && 0 <= c < S ==>
                  mat[r, c] == if r == i && c < j then old(mat[i, c]) * d else old(mat[r, c])
      invariant forall r, c :: 0 <= r < S && 0 <= c < S ==>
                  res[r, c] == if r == i && c < j then old(res[i, c]) * d else old(res[r, c])
    {
      mat[i, j] := mat[i, j] * d;
      res[i, j] := res[i, j] * d;
    }
  }

  /** The scaling pass as a change of the two matrix values. */
  method ScaleRows(mat: array2<real>, res: array2<real>, i: nat, d: real)
    requires mat != res
    requires mat.Length0 == mat.Length1 == res.Length0 == res.Length1 && i < mat.Length0
    modifies mat, res
    ensures Freeze(mat) == ScaleRow(old(Freeze(mat)), i, d)
    ensures Freeze(res) == ScaleRow(old(Freeze(res)), i, d)
  {
    ghost var mat0, res0 := Freeze(mat), Freeze(res);
    ScaleRowsInPlace(mat, res, i, d);
    FrozenAs(mat, ScaleRow(mat0, i, d));
    FrozenAs(res, ScaleRow(res0, i, d));
  }

  /** Row k of both arrays loses fac times their row i, entry by entry (the
      innermost loop); no other row changes. */
  method SubtractMultiples(mat: array2<real>, res: array2<real>, k: nat, i: nat, fac: real)
    requires mat != res
    requires mat.Length0 == mat.Length1 == res.Length0 == res.Length1 && k < mat.Length0 && i < mat.Length0 && k != i
    modifies mat, res
    ensures forall r, c :: 0 <= r < mat.Length0 && 0 <= c < mat.Length0 ==>
              mat[r, c] == if r == k then old(mat[k, c]) - fac * old(mat[i, c]) else old(mat[r, c])
    ensures forall r, c :: 0 <= r < mat.Length0 && 0 <= c < mat.Length0 ==>
              res[r, c] == if r == k then old(res[k, c]) - fac * old(res[i, c]) else old(res[r, c])
  {
    var S := mat.Length0;
    for j := 0 to S
      invariant forall r, c :: 0 <= r < S && 0 <= c < S ==>
                  mat[r, c] == if r == k && c < j then old(mat[k, c]) - fac * old(mat[i, c]) else old(mat[r, c])
      invariant forall r, c :: 0 <= r < S && 0 <= c < S ==>
                  res[r, c] == if r == k && c < j then old(res[k, c]) - fac * old(res[i, c]) else old(res[r, c])
    {
      mat[k, j] := mat[k, j] - fac * mat[i, j];
      res[k, j] := res[k, j] - fac * res[i, j];
    }
  }

  /** Row k of both arrays loses `mat[k][i]` (read once, before the row
      updates) times row i.  Rows k and i hold those of the values m0 and
      r0; row k ends up as in `ClearColumn` of them. */
  method EliminateRow(mat: array2<real>, res: array2<real>, i: nat, k: nat, ghost m0: Matrix, ghost r0: Matrix)
    requires mat != res
    requires mat.Length0 == mat.Length1 == res.Length0 == res.Length1 && i < mat.Length0 && k < mat.Length0 && i != k
    requires m0.Valid() && r0.Valid() && m0.R == m0.C == r0.R == r0.C == mat.Length0
    requires forall c :: 0 <= c < mat.Length0 ==> mat[k, c] == m0.cells[k][c] && mat[i, c] == m0.cells[i][c]
    requires forall c :: 0 <= c < mat.Length0 ==> res[k, c] == r0.cells[k][c] && res[i, c] == r0.cells[i][c]
    modifies mat, res
    ensures forall c :: 0 <= c < mat.Length0 ==> mat[k, c] == ClearColumn(m0, m0, i).cells[k][c]
    ensures forall c :: 0 <= c < mat.Length0 ==> res[k, c] == ClearColumn(r0, m0, i).cells[k][c]
    ensures forall r, c :: 0 <= r < mat.Length0 && r != k && 0 <= c < mat.Length0 ==> mat[r, c] == old(mat[r, c])
    ensures forall r, c :: 0 <= r < mat.Length0 && r != k && 0 <= c < mat.Length0 ==> res[r, c] == old(res[r, c])
  {
    var fac := mat[k, i];
    SubtractMultiples(mat, res, k, i, fac);
  }

  /** Clears column i of `mat` from every row but i, doing the same row
      operations on `res` (the loop over k). */
  method EliminateColumn(mat: array2<real>, res: array2<real>, i: nat)
    requires mat != res
    requires mat.Length0 == mat.Length1 == res.Length0 == res.Length1 && i < mat.Length0
    modifies mat, res
    ensures Freeze(mat) == ClearColumn(old(Freeze(mat)), old(Freeze(mat)), i)
    ensures Freeze(res) == ClearColumn(old(Freeze(res)), old(Freeze(mat)), i)
  {
    var S := mat.Length0;
    ghost var mat0, res0 := Freeze(mat), Freeze(res);
    ghost var mat1, res1 := ClearColumn(mat0, mat0, i), ClearColumn(res0, mat0, i);
    for k := 0 to S
      invariant forall r, c :: 0 <= r < S && 0 <= c < S ==>
                  mat[r, c] == if r < k then mat1.cells[r][c] else mat0.cells[r][c]
      invariant forall r, c :: 0 <= r < S && 0 <= c < S ==>
                  res[r, c] == if r < k then res1.cells[r][c] else res0.cells[r][c]
    {
      if i != k {
        EliminateRow(mat, res, i, k, mat0, res0);
      }
    }
    FrozenAs(mat, mat1);
    FrozenAs(res, res1);
  }

  /** `inverse`: `Some(r)` with `r * A == A * r == ident()`, or `None` when a pivot is
      zero, in particular whenever `A[0][0] == 0`. */
  method Inverse(A: Matrix) returns (r: Option<Matrix>)
    requires IsSquare(A)
    ensures r == InverseOf(A)
    ensures r.Some? ==> Product(r.value, A) == Identity(A.C, A.C)
    ensures r.Some? ==> Product(A, r.value) == Identity(A.C, A.C)
    ensures A.C > 0 && A.cells[0][0] == 0.0 ==> r.None?
  {
    var S := A.C;
    var mat := Thaw(A);
    var id := Ident(S, S);
    var res := Thaw(id);
    for i := 0 to S
      invariant PivotsNonzero(A, i)
      invariant Freeze(mat) == Stage(A, i).mat && Freeze(res) == Stage(A, i).res
    {
      var diag := mat[i, i];
      if diag == 0.0 {
        assert !PivotsNonzero(A, S);
        return None;
      }
      diag := 1.0 / diag;
      ghost var st := Stage(A, i);
      ScaleRows(mat, res, i, diag);
      EliminateColumn(mat, res, i);
      StageStep(A, i);
      assert Freeze(mat) == PivotStep(st, i).mat;
    }
    assert Stage(A, 0).mat == A;
    r := Some(Freeze(res));
    InverseSound(A);
    InverseRight(A);
  }
}
