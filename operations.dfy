/** The operations of the matrix type that fill or update storage cell by
    cell: a Rust `Matrix` is a `Copy` value, so each method takes and returns
    `Matrix` values and does its work in a local `array2<real>` whose
    `Length0` is the outer dimension C and `Length1` the inner dimension R,
    as the Rust loops do in their local `res`. */
module MatrixOps {
  import opened MatrixCore

  /** The matrix value held in a storage array. */
  function Freeze(a: array2<real>): (m: Matrix)
    reads a
    ensures m.Valid() && m.R == a.Length1 && m.C == a.Length0
    ensures forall i, j :: 0 <= i < a.Length0 && 0 <= j < a.Length1 ==> m.cells[i][j] == a[i, j]
  {
    Matrix(a.Length1, a.Length0,
           seq(a.Length0, i requires 0 <= i < a.Length0 reads a =>
                 seq(a.Length1, j requires 0 <= j < a.Length1 reads a => a[i, j])))
  }

  lemma FrozenAs(a: array2<real>, m: Matrix)
    requires m.Valid() && m.R == a.Length1 && m.C == a.Length0
    requires forall i, j :: 0 <= i < a.Length0 && 0 <= j < a.Length1 ==> a[i, j] == m.cells[i][j]
    ensures Freeze(a) == m
  {
    Ext(Freeze(a), m);
  }

  /** Copies a value into fresh storage (`let mut m = value;`). */
  method Thaw(m: Matrix) returns (a: array2<real>)
    requires m.Valid()
    ensures fresh(a) && Freeze(a) == m
  {
    a := new real[m.C, m.R]((i, j) requires 0 <= i < m.C && 0 <= j < m.R => m.cells[i][j]);
    FrozenAs(a, m);
  }

  /** `Matrix::ident`: start from `new()` and set `[i][i] = 1` for i < min(C, R). */
  method Ident(R: nat, C: nat) returns (m: Matrix)
    ensures m == Identity(R, C)
  {
    var a := Thaw(New(R, C));
    for i := 0 to if C < R then C else R
      invariant forall k, c :: 0 <= k < C && 0 <= c < R ==>
                  a[k, c] == if k == c && k < i then 1.0 else 0.0
    {
      a[i, i] := 1.0;
    }
    FrozenAs(a, Identity(R, C));
    m := Freeze(a);
  }

  /** `transpose`: `res[j][i] = self[i][j]` into storage whose contents start
      out unknown (the source's uninitialised `empty()`). */
  method Transpose(m: Matrix) returns (t: Matrix)
    requires m.Valid()
    ensures t == Transposed(m)
  {
    var res := new real[m.R, m.C];
    for i := 0 to m.C
      invariant forall i', j' :: 0 <= i' < i && 0 <= j' < m.R ==> res[j', i'] == m.cells[i'][j']
    {
      for j := 0 to m.R
        invariant forall i', j' :: 0 <= i' < i && 0 <= j' < m.R ==> res[j', i'] == m.cells[i'][j']
        invariant forall j' :: 0 <= j' < j ==> res[j', i] == m.cells[i][j']
      {
        res[j, i] := m.cells[i][j];
      }
    }
    FrozenAs(res, Transposed(m));
    t := Freeze(res);
  }

  /** `impl Add`: a fresh result, cell by cell. */
  method Add(a: Matrix, b: Matrix) returns (r: Matrix)
    requires a.Valid() && b.Valid() && a.R == b.R && a.C == b.C
    ensures r == Plus(a, b)
  {
    var res := new real[a.C, a.R];
    for i := 0 to a.C
      invariant forall i', j' :: 0 <= i' < i && 0 <= j' < a.R ==> res[i', j'] == a.cells[i'][j'] + b.cells[i'][j']
    {
      for j := 0 to a.R
        invariant forall i', j' :: 0 <= i' < i && 0 <= j' < a.R ==> res[i', j'] == a.cells[i'][j'] + b.cells[i'][j']
        invariant forall j' :: 0 <= j' < j ==> res[i, j'] == a.cells[i][j'] + b.cells[i][j']
      {
        res[i, j] := a.cells[i][j] + b.cells[i][j];
      }
    }
    FrozenAs(res, Plus(a, b));
    r := Freeze(res);
  }

  /** `impl Sub`: a fresh result, cell by cell. */
  method Sub(a: Matrix, b: Matrix) returns (r: Matrix)
    requires a.Valid() && b.Valid() && a.R == b.R && a.C == b.C
    ensures r == Minus(a, b)
  {
    var res := new real[a.C, a.R];
    for i := 0 to a.C
      invariant forall i', j' :: 0 <= i' < i && 0 <= j' < a.R ==> res[i', j'] == a.cells[i'][j'] - b.cells[i'][j']
    {
      for j := 0 to a.R
        invariant forall i', j' :: 0 <= i' < i && 0 <= j' < a.R ==> res[i', j'] == a.cells[i'][j'] - b.cells[i'][j']
        invariant forall j' :: 0 <= j' < j ==> res[i, j'] == a.cells[i][j'] - b.cells[i][j']
      {
        res[i, j] := a.cells[i][j] - b.cells[i][j];
      }
    }
    FrozenAs(res, Minus(a, b));
    r := Freeze(res);
  }

  /** `impl AddAssign`: the receiver's storage `self` gains `rhs` cell by
      cell; it ends up holding exactly the value `self + rhs` would return. */
  method AddAssign(self: array2<real>, rhs: Matrix)
    requires rhs.Valid() && self.Length0 == rhs.C && self.Length1 == rhs.R
    modifies self
    ensures Freeze(self) == Plus(old(Freeze(self)), rhs)
  {
    ghost var before := Freeze(self);
    for i := 0 to rhs.C
      invariant forall i', j' :: 0 <= i' < rhs.C && 0 <= j' < rhs.R ==>
                  self[i', j'] == if i' < i then before.cells[i'][j'] + rhs.cells[i'][j'] else before.cells[i'][j']
    {
      for j := 0 to rhs.R
        invariant forall i', j' :: 0 <= i' < rhs.C && 0 <= j' < rhs.R ==>
                    self[i', j'] == if i' < i || (i' == i && j' < j) then before.cells[i'][j'] + rhs.cells[i'][j']
                                    else before.cells[i'][j']
      {
        self[i, j] := self[i, j] + rhs.cells[i][j];
      }
    }
    FrozenAs(self, Plus(before, rhs));
  }

  /** `impl SubAssign`: the receiver's storage `self` loses `rhs` cell by
      cell; it ends up holding exactly the value `self - rhs` would return. */
  method SubAssign(self: array2<real>, rhs: Matrix)
    requires rhs.Valid() && self.Length0 == rhs.C && self.Length1 == rhs.R
    modifies self
    ensures Freeze(self) == Minus(old(Freeze(self)), rhs)
  {
    ghost var before := Freeze(self);
    for i := 0 to rhs.C
      invariant forall i', j' :: 0 <= i' < rhs.C && 0 <= j' < rhs.R ==>
                  self[i', j'] == if i' < i then before.cells[i'][j'] - rhs.cells[i'][j'] else before.cells[i'][j']
    {
      for j := 0 to rhs.R
        invariant forall i', j' :: 0 <= i' < rhs.C && 0 <= j' < rhs.R ==>
                    self[i', j'] == if i' < i || (i' == i && j' < j) then before.cells[i'][j'] - rhs.cells[i'][j']
                                    else before.cells[i'][j']
      {
        self[i, j] := self[i, j] - rhs.cells[i][j];
      }
    }
    FrozenAs(self, Minus(before, rhs));
  }

  /** `impl Mul`: each result cell is set to 0 and then accumulates
      `self[i][k] * rhs[k][j]` for k = 0, 1, ..., B - 1. */
  method Mul(a: Matrix, b: Matrix) returns (r: Matrix)
    requires a.Valid() && b.Valid() && a.R == b.C
    ensures r == Product(a, b)
  {
    var res := new real[a.C, b.R];
    for i := 0 to a.C
      invariant forall i', j' :: 0 <= i' < i && 0 <= j' < b.R ==> res[i', j'] == Dot(a.cells[i'], b.cells, j', a.R)
    {
      for j := 0 to b.R
        invariant forall i', j' :: 0 <= i' < i && 0 <= j' < b.R ==> res[i', j'] == Dot(a.cells[i'], b.cells, j', a.R)
        invariant forall j' :: 0 <= j' < j ==> res[i, j'] == Dot(a.cells[i], b.cells, j', a.R)
      {
        res[i, j] := 0.0;
        for k := 0 to a.R
          invariant forall i', j' :: 0 <= i' < i && 0 <= j' < b.R ==> res[i', j'] == Dot(a.cells[i'], b.cells, j', a.R)
          invariant forall j' :: 0 <= j' < j ==> res[i, j'] == Dot(a.cells[i], b.cells, j', a.R)
          invariant res[i, j] == Dot(a.cells[i], b.cells, j, k)
        {
          res[i, j] := res[i, j] + a.cells[i][k] * b.cells[k][j];
        }
      }
    }
    FrozenAs(res, Product(a, b));
    r := Freeze(res);
  }
}
