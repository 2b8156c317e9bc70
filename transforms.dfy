/** The 4x4 transform builders (`Matrix<4, 4>`) and the homogeneous point
    (`Matrix<4, 1>`, ONE outer row `[x, y, z, 1]`), with the conversions
    between them and `Vec3` / `Vec4`.  A point is transformed by the only
    product the shapes allow, `point * transform` (a row vector times the
    matrix), which is what the lemmas below state. */
module Transforms {
  import opened MatrixCore
  import opened MatrixOps

  /** `Matrix::translation`: the identity with `t` in outer row 3. */
  function Translation(t: Vec3): (m: Matrix)
    ensures m.Valid() && m.R == 4 && m.C == 4
  {
    Matrix(4, 4, [[1.0, 0.0, 0.0, 0.0],
                  [0.0, 1.0, 0.0, 0.0],
                  [0.0, 0.0, 1.0, 0.0],
                  [t.x, t.y, t.z, 1.0]])
  }

  /** `Matrix::scale`: the diagonal matrix (s.x, s.y, s.z, 1). */
  function Scale(s: Vec3): (m: Matrix)
    ensures m.Valid() && m.R == 4 && m.C == 4
  {
    Matrix(4, 4, [[s.x, 0.0, 0.0, 0.0],
                  [0.0, s.y, 0.0, 0.0],
                  [0.0, 0.0, s.z, 0.0],
                  [0.0, 0.0, 0.0, 1.0]])
  }

  /** `Matrix::rotation`, entry for entry as the source writes it.  The
      sine and cosine of the angle come from `sinCos`, which stands for
      `f32::sin_cos`.  Outer row 3 is (0, 0, 0, 1) and entry 3 of every other
      row is 0, whatever the axis and the angle. */
  function Rotation(axis: Vec3, angle: real, sinCos: real -> (real, real)): (m: Matrix)
    ensures m.Valid() && m.R == 4 && m.C == 4
    ensures m.cells[3] == [0.0, 0.0, 0.0, 1.0]
    ensures forall k :: 0 <= k < 3 ==> m.cells[k][3] == 0.0
  {
    var s := sinCos(angle).0;
    var cc := sinCos(angle).1;
    var c := 1.0 - cc;
    var x, y, z := axis.x, axis.y, axis.z;
    var xc, yc, zc := x * c, y * c, z * c;
    var xyc, yzc, zxc := y * xc, z * yc, x * zc;
    var xxc, yyc, zzc := x * xc, y * yc, z * zc;
    var ys, xs, zs := y * s, x * s, z * s;
    Matrix(4, 4, [[xxc + cc, xyc - zs, zxc - ys, 0.0],
                  [xyc + zs, yyc + cc, yzc - xs, 0.0],
                  [zxc - ys, yzc + xs, zzc + cc, 0.0],
                  [0.0, 0.0, 0.0, 1.0]])
  }

  /** The axis-angle (Rodrigues) rotation that `Matrix::rotation` evidently
      means: `Rotation` with entry `[0][2]` set to `zxc + ys`, where the
      source writes `zxc - ys`, the value of the mirrored entry `[2][0]`. */
  function RotationCorrected(axis: Vec3, angle: real, sinCos: real -> (real, real)): (m: Matrix)
    ensures m.Valid() && m.R == 4 && m.C == 4
    ensures m.cells[3] == [0.0, 0.0, 0.0, 1.0]
    ensures forall k :: 0 <= k < 3 ==> m.cells[k][3] == 0.0
    ensures m.cells[0][2] - Rotation(axis, angle, sinCos).cells[0][2] == 2.0 * (axis.y * sinCos(angle).0)
    ensures forall k, j :: 0 <= k < 4 && 0 <= j < 4 && !(k == 0 && j == 2) ==>
              m.cells[k][j] == Rotation(axis, angle, sinCos).cells[k][j]
  {
    var r := Rotation(axis, angle, sinCos);
    var s := sinCos(angle).0;
    var cc := sinCos(angle).1;
    var zxc := axis.x * (axis.z * (1.0 - cc));
    Matrix(4, 4, r.cells[0 := r.cells[0][2 := zxc + axis.y * s]])
  }

  /** `Matrix::point`: the one-row matrix [p.x, p.y, p.z, 1]. */
  function Point(p: Vec3): (m: Matrix)
    ensures m.Valid() && m.R == 4 && m.C == 1
    ensures m.cells[0][3] == 1.0
  {
    Matrix(4, 1, [[p.x, p.y, p.z, 1.0]])
  }

  /** `From<[f32; S]> for Matrix<S, 1>`: the array becomes the single outer row. */
  function FromRow(v: seq<real>): (m: Matrix)
    ensures m.Valid() && m.R == |v| && m.C == 1 && m.cells[0] == v
  {
    Matrix(|v|, 1, [v])
  }

  /** `From<Matrix<4, 1>> for Vec3`: reads back `[0][0]`, `[0][1]`, `[0][2]`
      and drops `[0][3]`. */
  function ToVec3(m: Matrix): (v: Vec3)
    requires m.Valid() && m.R == 4 && m.C == 1
    ensures FromRow([v.x, v.y, v.z, m.cells[0][3]]) == m
  {
    assert m.cells[0] == [m.cells[0][0], m.cells[0][1], m.cells[0][2], m.cells[0][3]];
    assert m.cells == [m.cells[0]];
    Vec3(m.cells[0][0], m.cells[0][1], m.cells[0][2])
  }

  /** `From<Vec4> for Matrix<4, 4>`: the fourth component is taken as the
      ANGLE of a rotation about the axis (x, y, z), not as a homogeneous
      weight. */
  function FromVec4(v: Vec4, sinCos: real -> (real, real)): (m: Matrix)
    ensures m == Rotation(Vec3(v.x, v.y, v.z), v.w, sinCos)
    ensures m.cells[3] == [0.0, 0.0, 0.0, 1.0]
  {
    Rotation(Vec3(v.x, v.y, v.z), v.w, sinCos)
  }

  /** `From<Vec3> for Matrix<4, 4>`: `ident()` patched in place at
      `[3][0]`, `[3][1]` and `[3][2]`; the same matrix as `translation`. */
  method FromVec3(v: Vec3) returns (m: Matrix)
    ensures m == Translation(v)
  {
    var id := Ident(4, 4);
    var a := Thaw(id);
    a[3, 0] := v.x;
    a[3, 1] := v.y;
    a[3, 2] := v.z;
    FrozenAs(a, Translation(v));
    m := Freeze(a);
  }

  /** The four terms of one cell of a product whose shared dimension is 4. */
  lemma Dot4(u: seq<real>, rows: seq<seq<real>>, j: nat)
    requires |u| == 4 && |rows| == 4 && forall k :: 0 <= k < 4 ==> j < |rows[k]|
    ensures Dot(u, rows, j, 4) == u[0] * rows[0][j] + u[1] * rows[1][j] + u[2] * rows[2][j] + u[3] * rows[3][j]
  {
    assert Dot(u, rows, j, 1) == u[0] * rows[0][j];
    assert Dot(u, rows, j, 2) == Dot(u, rows, j, 1) + u[1] * rows[1][j];
    assert Dot(u, rows, j, 3) == Dot(u, rows, j, 2) + u[2] * rows[2][j];
  }

  /** `point(p) * M` for a 4x4 M: row-vector times matrix. */
  lemma PointTimes(p: Vec3, M: Matrix)
    requires M.Valid() && M.R == 4 && M.C == 4
    ensures forall j :: 0 <= j < 4 ==>
              Product(Point(p), M).cells[0][j]
              == p.x * M.cells[0][j] + p.y * M.cells[1][j] + p.z * M.cells[2][j] + M.cells[3][j]
  {
    forall j | 0 <= j < 4
      ensures Product(Point(p), M).cells[0][j]
              == p.x * M.cells[0][j] + p.y * M.cells[1][j] + p.z * M.cells[2][j] + M.cells[3][j]
    {
      Dot4(Point(p).cells[0], M.cells, j);
    }
  }

  /** Reading a point back gives the coordinates it was built from. */
  lemma PointRoundTrip(p: Vec3)
    ensures ToVec3(Point(p)) == p
    ensures Point(p) == FromRow([p.x, p.y, p.z, 1.0])
  {
  }

  /** A 4x1 matrix whose entry `[0][3]` is 1 is the point of its coordinates. */
  lemma Vec3RoundTrip(m: Matrix)
    requires m.Valid() && m.R == 4 && m.C == 1 && m.cells[0][3] == 1.0
    ensures Point(ToVec3(m)) == m
  {
    Ext(Point(ToVec3(m)), m);
  }

  /** `point(p) * translation(t)` is the point p + t. */
  lemma TranslatePoint(p: Vec3, t: Vec3)
    ensures Product(Point(p), Translation(t)) == Point(Vec3(p.x + t.x, p.y + t.y, p.z + t.z))
  {
    PointTimes(p, Translation(t));
    Ext(Product(Point(p), Translation(t)), Point(Vec3(p.x + t.x, p.y + t.y, p.z + t.z)));
  }

  /** `point(p) * scale(s)` scales each coordinate. */
  lemma ScalePoint(p: Vec3, s: Vec3)
    ensures Product(Point(p), Scale(s)) == Point(Vec3(p.x * s.x, p.y * s.y, p.z * s.z))
  {
    PointTimes(p, Scale(s));
    Ext(Product(Point(p), Scale(s)), Point(Vec3(p.x * s.x, p.y * s.y, p.z * s.z)));
  }

  /** A rotation maps a point to a point: the homogeneous entry stays 1. */
  lemma RotatePointIsPoint(p: Vec3, axis: Vec3, angle: real, sinCos: real -> (real, real))
    ensures Product(Point(p), Rotation(axis, angle, sinCos))
         == Point(ToVec3(Product(Point(p), Rotation(axis, angle, sinCos))))
  {
    var R := Rotation(axis, angle, sinCos);
    PointTimes(p, R);
    Vec3RoundTrip(Product(Point(p), R));
  }

  /** About the z axis, `point(p) * rotation` keeps z and turns (x, y) by
      the angle clockwise: (x cos + y sin, y cos - x sin). */
  lemma RotateAboutZ(p: Vec3, angle: real, sinCos: real -> (real, real), s: real, cc: real)
    requires sinCos(angle) == (s, cc)
    ensures Product(Point(p), Rotation(Vec3(0.0, 0.0, 1.0), angle, sinCos))
         == Point(Vec3(p.x * cc + p.y * s, p.y * cc - p.x * s, p.z))
  {
    var R := Rotation(Vec3(0.0, 0.0, 1.0), angle, sinCos);
    assert R.cells == [[cc, -s, 0.0, 0.0], [s, cc, 0.0, 0.0], [0.0, 0.0, 1.0, 0.0], [0.0, 0.0, 0.0, 1.0]];
    PointTimes(p, R);
    Ext(Product(Point(p), R), Point(Vec3(p.x * cc + p.y * s, p.y * cc - p.x * s, p.z)));
  }

  /** A quarter turn about z (sine 1, cosine 0) takes the point (1, 0, 0)
      to (0, -1, 0). */
  lemma QuarterTurnAboutZ(angle: real, sinCos: real -> (real, real))
    requires sinCos(angle) == (1.0, 0.0)
    ensures Product(Point(Vec3(1.0, 0.0, 0.0)), Rotation(Vec3(0.0, 0.0, 1.0), angle, sinCos))
         == Point(Vec3(0.0, -1.0, 0.0))
  {
    RotateAboutZ(Vec3(1.0, 0.0, 0.0), angle, sinCos, 1.0, 0.0);
  }

  /** As written, `rotation` about the y axis by 45 degrees (sine equal to
      cosine) sends the point (1, 0, 1) to the origin: the matrix is
      singular, so it is no rotation. */
  lemma RotationCollapsesPoint(angle: real, sinCos: real -> (real, real), s: real)
    requires sinCos(angle) == (s, s) && s * s + s * s == 1.0
    ensures Product(Point(Vec3(1.0, 0.0, 1.0)), Rotation(Vec3(0.0, 1.0, 0.0), angle, sinCos))
         == Point(Vec3(0.0, 0.0, 0.0))
  {
    var R := Rotation(Vec3(0.0, 1.0, 0.0), angle, sinCos);
    assert R.cells == [[s, 0.0, -s, 0.0], [0.0, 1.0, 0.0, 0.0], [-s, 0.0, s, 0.0], [0.0, 0.0, 0.0, 1.0]];
    PointTimes(Vec3(1.0, 0.0, 1.0), R);
    Ext(Product(Point(Vec3(1.0, 0.0, 1.0)), R), Point(Vec3(0.0, 0.0, 0.0)));
  }

  /** With the corrected entry, `point(p) * rotation` about the y axis turns
      (z, x) by the angle and keeps y. */
  lemma RotateAboutYCorrected(p: Vec3, angle: real, sinCos: real -> (real, real), s: real, cc: real)
    requires sinCos(angle) == (s, cc)
    ensures Product(Point(p), RotationCorrected(Vec3(0.0, 1.0, 0.0), angle, sinCos))
         == Point(Vec3(p.x * cc - p.z * s, p.y, p.x * s + p.z * cc))
  {
    var R0 := Rotation(Vec3(0.0, 1.0, 0.0), angle, sinCos);
    assert R0.cells == [[cc, 0.0, -s, 0.0], [0.0, 1.0, 0.0, 0.0], [-s, 0.0, cc, 0.0], [0.0, 0.0, 0.0, 1.0]];
    var R := RotationCorrected(Vec3(0.0, 1.0, 0.0), angle, sinCos);
    assert R.cells == R0.cells[0 := R0.cells[0][2 := s]];
    assert R.cells[0] == [cc, 0.0, s, 0.0];
    assert R.cells == [[cc, 0.0, s, 0.0], [0.0, 1.0, 0.0, 0.0], [-s, 0.0, cc, 0.0], [0.0, 0.0, 0.0, 1.0]];
    PointTimes(p, R);
    Ext(Product(Point(p), R), Point(Vec3(p.x * cc - p.z * s, p.y, p.x * s + p.z * cc)));
  }

  /** The corrected rotation about the y axis keeps the length of every point
      when (sine, cosine) lie on the unit circle. */
  lemma RotationCorrectedKeepsLength(p: Vec3, angle: real, sinCos: real -> (real, real), s: real, cc: real)
    requires sinCos(angle) == (s, cc) && s * s + cc * cc == 1.0
    ensures var q := ToVec3(Product(Point(p), RotationCorrected(Vec3(0.0, 1.0, 0.0), angle, sinCos)));
            q.x * q.x + q.y * q.y + q.z * q.z == p.x * p.x + p.y * p.y + p.z * p.z
  {
    RotateAboutYCorrected(p, angle, sinCos, s, cc);
    var u, w := p.x * cc - p.z * s, p.x * s + p.z * cc;
    assert u * u + w * w == p.x * p.x * (cc * cc + s * s) + p.z * p.z * (s * s + cc * cc);
  }
}
