/** The value side of the fixed-shape matrix type: `Matrix<R, C>` wraps the
    storage `[[f32; R]; C]`, so the OUTER index ranges over C and the inner
    one over R, and entry `[i][j]` exists for `i < C`, `j < R`.  Entries are
    exact reals here.  This module holds the datatypes, the specification
    functions of the arithmetic, and the algebraic laws proved about them. */
module MatrixCore {

  /** A matrix of shape `Matrix<R, C>`: `cells` has C outer rows of R entries. */
  datatype Matrix = Matrix(R: nat, C: nat, cells: seq<seq<real>>)
  {
    ghost predicate Valid() {
      |cells| == C && forall i :: 0 <= i < C ==> |cells[i]| == R
    }
  }

  /** `Vec3::new` and `Vec4::new` are the constructors of these datatypes. */
  datatype Vec3 = Vec3(x: real, y: real, z: real)
  datatype Vec4 = Vec4(x: real, y: real, z: real, w: real)

  /** `Matrix::new`: every entry is 0. */
  function New(R: nat, C: nat): (m: Matrix)
    ensures m.Valid() && m.R == R && m.C == C
    ensures forall i, j :: 0 <= i < C && 0 <= j < R ==> m.cells[i][j] == 0.0
  {
    Matrix(R, C, seq(C, _ => seq(R, _ => 0.0)))
  }

  /** The matrix `Matrix::ident` builds: 1 on the leading diagonal, which
      has min(R, C) entries, and 0 everywhere else, for every shape. */
  function Identity(R: nat, C: nat): (m: Matrix)
    ensures m.Valid() && m.R == R && m.C == C
    ensures forall i :: 0 <= i < C && i < R ==> m.cells[i][i] == 1.0
    ensures forall i, j :: 0 <= i < C && 0 <= j < R && i != j ==> m.cells[i][j] == 0.0
  {
    Matrix(R, C, seq(C, i => seq(R, j => if i == j then 1.0 else 0.0)))
  }

  /** The `Matrix<C, R>` that `transpose` returns. */
  function Transposed(m: Matrix): (t: Matrix)
    requires m.Valid()
    ensures t.Valid() && t.R == m.C && t.C == m.R
    ensures forall i, j :: 0 <= i < m.C && 0 <= j < m.R ==> t.cells[j][i] == m.cells[i][j]
  {
    Matrix(m.C, m.R, seq(m.R, j requires 0 <= j < m.R =>
                          seq(m.C, i requires 0 <= i < m.C => m.cells[i][j])))
  }

  /** Element-wise sum, the value of both `a + b` and `a += b`. */
  function Plus(a: Matrix, b: Matrix): (s: Matrix)
    requires a.Valid() && b.Valid() && a.R == b.R && a.C == b.C
    ensures s.Valid() && s.R == a.R && s.C == a.C
    ensures forall i, j :: 0 <= i < a.C && 0 <= j < a.R ==> s.cells[i][j] == a.cells[i][j] + b.cells[i][j]
  {
    Matrix(a.R, a.C, seq(a.C, i requires 0 <= i < a.C =>
                          seq(a.R, j requires 0 <= j < a.R => a.cells[i][j] + b.cells[i][j])))
  }

  /** Element-wise difference, the value of both `a - b` and `a -= b`. */
  function Minus(a: Matrix, b: Matrix): (d: Matrix)
    requires a.Valid() && b.Valid() && a.R == b.R && a.C == b.C
    ensures d.Valid() && d.R == a.R && d.C == a.C
    ensures forall i, j :: 0 <= i < a.C && 0 <= j < a.R ==> d.cells[i][j] == a.cells[i][j] - b.cells[i][j]
  {
    Matrix(a.R, a.C, seq(a.C, i requires 0 <= i < a.C =>
                          seq(a.R, j requires 0 <= j < a.R => a.cells[i][j] - b.cells[i][j])))
  }

  /** The first n terms of the sum `mul` accumulates into one cell:
      u[0] * rows[0][j] + ... + u[n-1] * rows[n-1][j], added in that order. */
  function Dot(u: seq<real>, rows: seq<seq<real>>, j: nat, n: nat): real
    requires n <= |u| && n <= |rows|
    requires forall k :: 0 <= k < n ==> j < |rows[k]|
  {
    if n == 0 then 0.0 else Dot(u, rows, j, n - 1) + u[n - 1] * rows[n - 1][j]
  }

  /** The product `Matrix<B, C> * Matrix<R, B> -> Matrix<R, C>`: the shared
      dimension B is `a.R == b.C`. */
  function Product(a: Matrix, b: Matrix): (p: Matrix)
    requires a.Valid() && b.Valid() && a.R == b.C
    ensures p.Valid() && p.R == b.R && p.C == a.C
    ensures forall i, j {:trigger p.cells[i][j]} :: 0 <= i < a.C && 0 <= j < b.R ==>
              p.cells[i][j] == Dot(a.cells[i], b.cells, j, a.R)
  {
    Matrix(b.R, a.C, seq(a.C, i requires 0 <= i < a.C =>
                          seq(b.R, j requires 0 <= j < b.R => Dot(a.cells[i], b.cells, j, a.R))))
  }

  /** Two matrices of one shape with the same entries are the same value. */
  lemma Ext(a: Matrix, b: Matrix)
    requires a.Valid() && b.Valid() && a.R == b.R && a.C == b.C
    requires forall i, j :: 0 <= i < a.C && 0 <= j < a.R ==> a.cells[i][j] == b.cells[i][j]
    ensures a == b
  {
    forall i | 0 <= i < a.C
      ensures a.cells[i] == b.cells[i]
    {
      assert forall j :: 0 <= j < a.R ==> a.cells[i][j] == b.cells[i][j];
    }
  }

  lemma TransposeTwice(m: Matrix)
    requires m.Valid()
    ensures Transposed(Transposed(m)) == m
  {
    Ext(Transposed(Transposed(m)), m);
  }

  lemma PlusCommutes(a: Matrix, b: Matrix)
    requires a.Valid() && b.Valid() && a.R == b.R && a.C == b.C
    ensures Plus(a, b) == Plus(b, a)
  {
    Ext(Plus(a, b), Plus(b, a));
  }

  lemma PlusNew(a: Matrix)
    requires a.Valid()
    ensures Plus(a, New(a.R, a.C)) == a
  {
    Ext(Plus(a, New(a.R, a.C)), a);
  }

  lemma MinusUndoesPlus(a: Matrix, b: Matrix)
    requires a.Valid() && b.Valid() && a.R == b.R && a.C == b.C
    ensures Minus(Plus(a, b), b) == a
  {
    Ext(Minus(Plus(a, b), b), a);
  }

  /** A sum whose row vector is the unit vector e_i picks out row i. */
  lemma {:induction false} DotUnitRow(u: seq<real>, rows: seq<seq<real>>, i: nat, j: nat, n: nat)
    requires n <= |u| && n <= |rows|
    requires forall k :: 0 <= k < n ==> j < |rows[k]|
    requires forall k :: 0 <= k < n ==> u[k] == if k == i then 1.0 else 0.0
    ensures Dot(u, rows, j, n) == if i < n then rows[i][j] else 0.0
  {
    if n > 0 {
      DotUnitRow(u, rows, i, j, n - 1);
    }
  }

  /** A sum against the unit column e_j picks out entry j of the row. */
  lemma {:induction false} DotUnitColumn(u: seq<real>, rows: seq<seq<real>>, j: nat, n: nat)
    requires n <= |u| && n <= |rows|
    requires forall k :: 0 <= k < n ==> j < |rows[k]|
    requires forall k :: 0 <= k < n ==> rows[k][j] == if k == j then 1.0 else 0.0
    ensures Dot(u, rows, j, n) == if j < n then u[j] else 0.0
  {
    if n > 0 {
      DotUnitColumn(u, rows, j, n - 1);
    }
  }

  /** Scaling the row vector scales the sum. */
  lemma {:induction false} DotScaled(w: seq<real>, u: seq<real>, d: real, rows: seq<seq<real>>, j: nat, n: nat)
    requires n <= |w| && n <= |u| && n <= |rows|
    requires forall k :: 0 <= k < n ==> j < |rows[k]|
    requires forall k :: 0 <= k < n ==> w[k] == u[k] * d
    ensures Dot(w, rows, j, n) == Dot(u, rows, j, n) * d
  {
    if n > 0 {
      DotScaled(w, u, d, rows, j, n - 1);
      var b := rows[n - 1][j];
      assert (u[n - 1] * d) * b == (u[n - 1] * b) * d;
    }
  }

  /** Subtracting f times one row vector from another subtracts f times its sum. */
  lemma {:induction false} DotMinusMultiple(w: seq<real>, u: seq<real>, v: seq<real>, f: real,
                                            rows: seq<seq<real>>, j: nat, n: nat)
    requires n <= |w| && n <= |u| && n <= |v| && n <= |rows|
    requires forall k :: 0 <= k < n ==> j < |rows[k]|
    requires forall k :: 0 <= k < n ==> w[k] == u[k] - f * v[k]
    ensures Dot(w, rows, j, n) == Dot(u, rows, j, n) - f * Dot(v, rows, j, n)
  {
    if n > 0 {
      DotMinusMultiple(w, u, v, f, rows, j, n - 1);
      var b := rows[n - 1][j];
      assert (u[n - 1] - f * v[n - 1]) * b == u[n - 1] * b - f * (v[n - 1] * b);
    }
  }

  /** Adding f times one row vector to another adds f times its sum. */
  lemma {:induction false} DotPlusMultiple(w: seq<real>, u: seq<real>, v: seq<real>, f: real,
                                           rows: seq<seq<real>>, j: nat, n: nat)
    requires n <= |w| && n <= |u| && n <= |v| && n <= |rows|
    requires forall k :: 0 <= k < n ==> j < |rows[k]|
    requires forall k :: 0 <= k < n ==> w[k] == u[k] + f * v[k]
    ensures Dot(w, rows, j, n) == Dot(u, rows, j, n) + f * Dot(v, rows, j, n)
  {
    if n > 0 {
      DotPlusMultiple(w, u, v, f, rows, j, n - 1);
      var b := rows[n - 1][j];
      assert (u[n - 1] + f * v[n - 1]) * b == u[n - 1] * b + f * (v[n - 1] * b);
    }
  }

  /** The first m terms of the sums of u against every column t < n of
      `rows`: row i of a product when u is row i of the left factor. */
  function RowTimes(u: seq<real>, rows: seq<seq<real>>, m: nat, n: nat): (w: seq<real>)
    requires m <= |u| && m <= |rows| && forall s :: 0 <= s < m ==> n <= |rows[s]|
    ensures |w| == n && forall t :: 0 <= t < n ==> w[t] == Dot(u, rows, t, m)
  {
    seq(n, t requires 0 <= t < n => Dot(u, rows, t, m))
  }

  /** Extending the row u * b by one more term of u adds that term times
      row m - 1 of b to it, and so to its sum against column j of c. */
  lemma RowTimesStep(u: seq<real>, b: seq<seq<real>>, c: seq<seq<real>>, j: nat, m: nat, n: nat)
    requires 0 < m <= |u| && m <= |b| && n <= |c|
    requires forall s :: 0 <= s < m ==> n <= |b[s]|
    requires forall t :: 0 <= t < n ==> j < |c[t]|
    ensures Dot(RowTimes(u, b, m, n), c, j, n)
         == Dot(RowTimes(u, b, m - 1, n), c, j, n) + u[m - 1] * Dot(b[m - 1], c, j, n)
  {
    var w, w' := RowTimes(u, b, m, n), RowTimes(u, b, m - 1, n);
    assert forall t :: 0 <= t < n ==> w[t] == w'[t] + u[m - 1] * b[m - 1][t];
    DotPlusMultiple(w, w', b[m - 1], u[m - 1], c, j, n);
  }

  /** The two orders of a double sum agree: summing the row u * b against
      column j of c gives the sum of u against the column q = b * c. */
  lemma {:induction false} DotSwap(u: seq<real>, b: seq<seq<real>>, c: seq<seq<real>>, q: seq<seq<real>>,
                                   j: nat, m: nat, n: nat)
    requires m <= |u| && m <= |b| && m <= |q| && n <= |c|
    requires forall s :: 0 <= s < m ==> n <= |b[s]| && j < |q[s]|
    requires forall t :: 0 <= t < n ==> j < |c[t]|
    requires forall s :: 0 <= s < m ==> q[s][j] == Dot(b[s], c, j, n)
    ensures Dot(RowTimes(u, b, m, n), c, j, n) == Dot(u, q, j, m)
  {
    if m == 0 {
      var w := RowTimes(u, b, 0, n);
      DotScaled(w, w, 0.0, c, j, n);
    } else {
      RowTimesStep(u, b, c, j, m, n);
      DotSwap(u, b, c, q, j, m - 1, n);
      var last, f := q[m - 1][j], u[m - 1];
      assert last == Dot(b[m - 1], c, j, n);
      assert Dot(u, q, j, m) == Dot(u, q, j, m - 1) + f * last;
    }
  }

  /** `(a * b) * c == a * (b * c)`. */
  lemma ProductAssociative(a: Matrix, b: Matrix, c: Matrix)
    requires a.Valid() && b.Valid() && c.Valid() && a.R == b.C && b.R == c.C
    ensures Product(Product(a, b), c) == Product(a, Product(b, c))
  {
    var ab, bc := Product(a, b), Product(b, c);
    forall i, j | 0 <= i < a.C && 0 <= j < c.R
      ensures Product(ab, c).cells[i][j] == Product(a, bc).cells[i][j]
    {
      assert ab.cells[i] == RowTimes(a.cells[i], b.cells, a.R, b.R);
      DotSwap(a.cells[i], b.cells, c.cells, bc.cells, j, a.R, b.R);
    }
    Ext(Product(ab, c), Product(a, bc));
  }

  /** The product does not commute: for the 2x2 unit matrices e01 and e10,
      `e01 * e10` has a 1 at `[0][0]` and `e10 * e01` has a 0 there. */
  lemma ProductNotCommutative()
    ensures Product(Matrix(2, 2, [[0.0, 1.0], [0.0, 0.0]]), Matrix(2, 2, [[0.0, 0.0], [1.0, 0.0]]))
         != Product(Matrix(2, 2, [[0.0, 0.0], [1.0, 0.0]]), Matrix(2, 2, [[0.0, 1.0], [0.0, 0.0]]))
  {
    var e01, e10 := Matrix(2, 2, [[0.0, 1.0], [0.0, 0.0]]), Matrix(2, 2, [[0.0, 0.0], [1.0, 0.0]]);
    assert Product(e01, e10).cells[0][0] == 1.0;
    assert Product(e10, e01).cells[0][0] == 0.0;
  }

  /** `ident() * A == A`. */
  lemma ProductIdentityLeft(a: Matrix)
    requires a.Valid()
    ensures Product(Identity(a.C, a.C), a) == a
  {
    var id := Identity(a.C, a.C);
    forall i, j | 0 <= i < a.C && 0 <= j < a.R
      ensures Product(id, a).cells[i][j] == a.cells[i][j]
    {
      DotUnitRow(id.cells[i], a.cells, i, j, a.C);
    }
    Ext(Product(id, a), a);
  }

  /** `A * ident() == A`. */
  lemma ProductIdentityRight(a: Matrix)
    requires a.Valid()
    ensures Product(a, Identity(a.R, a.R)) == a
  {
    var id := Identity(a.R, a.R);
    forall i, j | 0 <= i < a.C && 0 <= j < a.R
      ensures Product(a, id).cells[i][j] == a.cells[i][j]
    {
      DotUnitColumn(a.cells[i], id.cells, j, a.R);
    }
    Ext(Product(a, id), a);
  }
}
