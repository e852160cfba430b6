/** Posing a studio model: local bone matrices are composed along the parent chain. Over the reals. */
module BoneTransforms {

  import opened Vectors

  /** A 3x4 matrix by its columns: the images of the axes, and of the origin. */
  datatype Affine = Affine(c0: Vec, c1: Vec, c2: Vec, origin: Vec)

  function Linear(m: Affine, v: Vec): Vec {
    Vec(
      m.c0.x * v.x + m.c1.x * v.y + m.c2.x * v.z,
      m.c0.y * v.x + m.c1.y * v.y + m.c2.y * v.z,
      m.c0.z * v.x + m.c1.z * v.y + m.c2.z * v.z)
  }

  function Apply(m: Affine, v: Vec): Vec {
    var l := Linear(m, v);
    Vec(l.x + m.origin.x, l.y + m.origin.y, l.z + m.origin.z)
  }

  function Concatenated(in1: Affine, in2: Affine): Affine {
    Affine(Linear(in1, in2.c0), Linear(in1, in2.c1), Linear(in1, in2.c2), Apply(in1, in2.origin))
  }

  /** The concatenation does what its second matrix does, and then its first. */
  lemma ConcatComposes(a: Affine, b: Affine, v: Vec)
    ensures Apply(Concatenated(a, b), v) == Apply(a, Apply(b, v))
  {
    hide Linear;
    var c, w := Concatenated(a, b), Apply(b, v);
    LinearTerms(b, v);
    LinearTerms(c, v);
    LinearTerms(a, w);
    LinearTerms(a, b.c0);
    LinearTerms(a, b.c1);
    LinearTerms(a, b.c2);
    LinearTerms(a, b.origin);
    Row(a.c0.x, a.c1.x, a.c2.x, b, v, c.c0.x, c.c1.x, c.c2.x, Linear(a, b.origin).x, w);
    Row(a.c0.y, a.c1.y, a.c2.y, b, v, c.c0.y, c.c1.y, c.c2.y, Linear(a, b.origin).y, w);
    Row(a.c0.z, a.c1.z, a.c2.z, b, v, c.c0.z, c.c1.z, c.c2.z, Linear(a, b.origin).z, w);
  }

  lemma LinearTerms(m: Affine, v: Vec)
    ensures Linear(m, v).x == m.c0.x * v.x + m.c1.x * v.y + m.c2.x * v.z
    ensures Linear(m, v).y == m.c0.y * v.x + m.c1.y * v.y + m.c2.y * v.z
    ensures Linear(m, v).z == m.c0.z * v.x + m.c1.z * v.y + m.c2.z * v.z
  {
  }

  /** One row of the composition. */
  lemma Row(
    r0: real, r1: real, r2: real, b: Affine, v: Vec, p0: real, p1: real, p2: real, q: real, w: Vec
  )
    requires p0 == r0 * b.c0.x + r1 * b.c0.y + r2 * b.c0.z
    requires p1 == r0 * b.c1.x + r1 * b.c1.y + r2 * b.c1.z
    requires p2 == r0 * b.c2.x + r1 * b.c2.y + r2 * b.c2.z
    requires q == r0 * b.origin.x + r1 * b.origin.y + r2 * b.origin.z
    requires w == Apply(b, v)
    ensures p0 * v.x + p1 * v.y + p2 * v.z + q == r0 * w.x + r1 * w.y + r2 * w.z
  {
    hide Linear;
    LinearTerms(b, v);
    assert p0 * v.x == r0 * (b.c0.x * v.x) + r1 * (b.c0.y * v.x) + r2 * (b.c0.z * v.x);
    assert p1 * v.y == r0 * (b.c1.x * v.y) + r1 * (b.c1.y * v.y) + r2 * (b.c1.z * v.y);
    assert p2 * v.z == r0 * (b.c2.x * v.z) + r1 * (b.c2.y * v.z) + r2 * (b.c2.z * v.z);
    assert r0 * w.x == r0 * (b.c0.x * v.x) + r0 * (b.c1.x * v.y) + r0 * (b.c2.x * v.z) + r0 * b.origin.x;
    assert r1 * w.y == r1 * (b.c0.y * v.x) + r1 * (b.c1.y * v.y) + r1 * (b.c2.y * v.z) + r1 * b.origin.y;
    assert r2 * w.z == r2 * (b.c0.z * v.x) + r2 * (b.c1.z * v.y) + r2 * (b.c2.z * v.z) + r2 * b.origin.z;
  }

  /** The axes stay perpendicular and of unit length. */
  predicate IsRigid(m: Affine) {
    && Dot(m.c0, m.c0) == 1.0 && Dot(m.c1, m.c1) == 1.0 && Dot(m.c2, m.c2) == 1.0
    && Dot(m.c0, m.c1) == 0.0 && Dot(m.c0, m.c2) == 0.0 && Dot(m.c1, m.c2) == 0.0
  }

  lemma DotCommutes(u: Vec, v: Vec)
    ensures Dot(u, v) == Dot(v, u)
  {
  }

  lemma SumOfProducts(u: Vec, v: Vec)
    ensures Dot(u, v) == u.x * v.x + u.y * v.y + u.z * v.z
  {
  }

  /** The image of a vector is a sum of columns, and a dot product distributes over it. */
  lemma DotOfLinear(m: Affine, u: Vec, w: Vec)
    ensures Dot(Linear(m, u), w) == u.x * Dot(m.c0, w) + u.y * Dot(m.c1, w) + u.z * Dot(m.c2, w)
  {
  }

  /** A rigid matrix keeps all angles and lengths. */
  lemma RigidKeepsDot(m: Affine, u: Vec, v: Vec)
    requires IsRigid(m)
    ensures Dot(Linear(m, u), Linear(m, v)) == Dot(u, v)
  {
    hide Dot, Linear;
    var w := Linear(m, v);
    DotOfLinear(m, u, w);
    DotOfLinear(m, v, m.c0);
    DotOfLinear(m, v, m.c1);
    DotOfLinear(m, v, m.c2);
    DotCommutes(m.c0, w);
    DotCommutes(m.c1, w);
    DotCommutes(m.c2, w);
    DotCommutes(m.c0, m.c1);
    DotCommutes(m.c0, m.c2);
    DotCommutes(m.c1, m.c2);
    SumOfProducts(u, v);
  }

  /** ... and so all distances between vertices. */
  lemma RigidKeepsDistance(m: Affine, u: Vec, v: Vec)
    requires IsRigid(m)
    ensures DistanceSquared(Apply(m, u), Apply(m, v)) == DistanceSquared(u, v)
  {
    assert Minus(Apply(m, u), Apply(m, v)) == Linear(m, Minus(u, v));
    RigidKeepsDot(m, Minus(u, v), Minus(u, v));
  }

  lemma ConcatRigid(a: Affine, b: Affine)
    requires IsRigid(a) && IsRigid(b)
    ensures IsRigid(Concatenated(a, b))
  {
    hide Dot, Linear;
    RigidKeepsDot(a, b.c0, b.c0);
    RigidKeepsDot(a, b.c1, b.c1);
    RigidKeepsDot(a, b.c2, b.c2);
    RigidKeepsDot(a, b.c0, b.c1);
    RigidKeepsDot(a, b.c0, b.c2);
    RigidKeepsDot(a, b.c1, b.c2);
  }

  datatype Quaternion = Quaternion(x: real, y: real, z: real, w: real)

  predicate IsUnit(q: Quaternion) {
    q.x * q.x + q.y * q.y + q.z * q.z + q.w * q.w == 1.0
  }

  // The three kinds of entries of a rotation matrix.

  function Diagonal(a: real, b: real): real {
    1.0 - 2.0 * a * a - 2.0 * b * b
  }

  function SumEntry(a: real, b: real, c: real, d: real): real {
    2.0 * a * b + 2.0 * c * d
  }

  function DifferenceEntry(a: real, b: real, c: real, d: real): real {
    2.0 * a * b - 2.0 * c * d
  }

  function Column0(q: Quaternion): Vec {
    Vec(Diagonal(q.y, q.z), SumEntry(q.x, q.y, q.w, q.z), DifferenceEntry(q.x, q.z, q.w, q.y))
  }

  function Column1(q: Quaternion): Vec {
    Vec(DifferenceEntry(q.x, q.y, q.w, q.z), Diagonal(q.x, q.z), SumEntry(q.y, q.z, q.w, q.x))
  }

  function Column2(q: Quaternion): Vec {
    Vec(SumEntry(q.x, q.z, q.w, q.y), DifferenceEntry(q.y, q.z, q.w, q.x), Diagonal(q.x, q.y))
  }

  /** The rotation of a quaternion, with the bone's position as its last column. */
  function RotationOf(q: Quaternion, pos: Vec): Affine {
    Affine(Column0(q), Column1(q), Column2(q), pos)
  }

  /** The same vector with its components renamed. */
  function Turned(v: Vec): Vec {
    Vec(v.y, v.z, v.x)
  }

  lemma TurnedDot(u: Vec, v: Vec)
    ensures Dot(Turned(u), Turned(v)) == Dot(u, v)
  {
  }

  function Product(a: real, b: real): real {
    a * b
  }

  lemma DotByProducts(u: Vec, v: Vec)
    ensures Dot(u, v) == Product(u.x, v.x) + Product(u.y, v.y) + Product(u.z, v.z)
  {
  }

  /** The squares of the first column's components. */
  lemma SquareTerms(x: real, y: real, z: real, w: real)
    requires x * x + y * y + z * z + w * w == 1.0
    ensures
      var cx, cy, cz := Diagonal(y, z), SumEntry(x, y, w, z), DifferenceEntry(x, z, w, y);
      Product(cx, cx) + Product(cy, cy) + Product(cz, cz) == 1.0
  {
  }

  /** The products of the first two columns' components. */
  lemma CrossTerms(x: real, y: real, z: real, w: real)
    requires x * x + y * y + z * z + w * w == 1.0
    ensures
      Product(Diagonal(y, z), DifferenceEntry(x, y, w, z))
      + Product(SumEntry(x, y, w, z), Diagonal(x, z))
      + Product(DifferenceEntry(x, z, w, y), SumEntry(y, z, w, x))
      == 0.0
  {
    var a, b, c, d := x * x, y * y, z * z, w * w;
    var p, r := x * y, w * z;
    FirstCrossTerms(a, b, c, p, r);
    LastCrossTerm(x, y, z, w);
    SumsToZero(p, r, a, b, c, d);
    assert 2.0 * x * y == 2.0 * p && 2.0 * w * z == 2.0 * r;
    assert 2.0 * x * x == 2.0 * a && 2.0 * y * y == 2.0 * b && 2.0 * z * z == 2.0 * c;
  }

  lemma FirstCrossTerms(a: real, b: real, c: real, p: real, r: real)
    ensures
      (1.0 - 2.0 * b - 2.0 * c) * (2.0 * p - 2.0 * r) + (2.0 * p + 2.0 * r) * (1.0 - 2.0 * a - 2.0 * c)
      == 4.0 * p - 4.0 * (p * (a + b + 2.0 * c)) + 4.0 * (r * (b - a))
  {
  }

  lemma LastCrossTerm(x: real, y: real, z: real, w: real)
    ensures
      (2.0 * x * z - 2.0 * w * y) * (2.0 * y * z + 2.0 * w * x)
      == 4.0 * ((x * y) * (z * z) + (w * z) * (x * x) - (w * z) * (y * y) - (x * y) * (w * w))
  {
  }

  lemma SumsToZero(p: real, r: real, a: real, b: real, c: real, d: real)
    requires a + b + c + d == 1.0
    ensures
      4.0 * p - 4.0 * (p * (a + b + 2.0 * c)) + 4.0 * (r * (b - a))
      + 4.0 * (p * c + r * a - r * b - p * d) == 0.0
  {
  }

  /** The quaternion with its imaginary components renamed likewise. */
  function TurnedQuaternion(q: Quaternion): Quaternion {
    Quaternion(q.y, q.z, q.x, q.w)
  }

  /** Renaming the components renames the columns: the second becomes the first, and so on. */
  lemma TurnedColumns(q: Quaternion)
    ensures Turned(Column1(q)) == Column0(TurnedQuaternion(q))
    ensures Turned(Column2(q)) == Column1(TurnedQuaternion(q))
    ensures Turned(Column0(q)) == Column2(TurnedQuaternion(q))
  {
  }

  lemma EntriesCommute(a: real, b: real, c: real, d: real)
    ensures Diagonal(a, b) == Diagonal(b, a)
    ensures SumEntry(a, b, c, d) == SumEntry(b, a, c, d)
    ensures DifferenceEntry(a, b, c, d) == DifferenceEntry(b, a, c, d)
  {
  }

  lemma TurnedUnit(q: Quaternion)
    requires IsUnit(q)
    ensures IsUnit(TurnedQuaternion(q))
  {
  }

  lemma FirstColumns(q: Quaternion)
    requires IsUnit(q)
    ensures Dot(Column0(q), Column0(q)) == 1.0 && Dot(Column0(q), Column1(q)) == 0.0
  {
    hide Dot, Product, Diagonal, SumEntry, DifferenceEntry;
    DotByProducts(Column0(q), Column0(q));
    DotByProducts(Column0(q), Column1(q));
    SquareTerms(q.x, q.y, q.z, q.w);
    CrossTerms(q.x, q.y, q.z, q.w);
  }

  lemma NextColumns(q: Quaternion)
    requires IsUnit(q)
    ensures Dot(Column1(q), Column1(q)) == 1.0 && Dot(Column1(q), Column2(q)) == 0.0
  {
    hide *;
    TurnedUnit(q);
    FirstColumns(TurnedQuaternion(q));
    TurnedColumns(q);
    TurnedDot(Column1(q), Column1(q));
    TurnedDot(Column1(q), Column2(q));
  }

  lemma LastColumns(q: Quaternion)
    requires IsUnit(q)
    ensures Dot(Column2(q), Column2(q)) == 1.0 && Dot(Column2(q), Column0(q)) == 0.0
  {
    hide *;
    TurnedUnit(q);
    NextColumns(TurnedQuaternion(q));
    TurnedColumns(q);
    TurnedDot(Column2(q), Column2(q));
    TurnedDot(Column2(q), Column0(q));
  }

  lemma UnitQuaternionRigid(q: Quaternion, pos: Vec)
    requires IsUnit(q)
    ensures IsRigid(RotationOf(q, pos))
  {
    hide Column0, Column1, Column2, Dot, IsUnit;
    FirstColumns(q);
    NextColumns(q);
    LastColumns(q);
    DotCommutes(Column2(q), Column0(q));
  }

  // What the matrix is for: it turns a vector as the quaternion does.

  function HamiltonProduct(p: Quaternion, q: Quaternion): Quaternion {
    Quaternion(
      p.w * q.x + p.x * q.w + p.y * q.z - p.z * q.y,
      p.w * q.y - p.x * q.z + p.y * q.w + p.z * q.x,
      p.w * q.z + p.x * q.y - p.y * q.x + p.z * q.w,
      p.w * q.w - p.x * q.x - p.y * q.y - p.z * q.z)
  }

  /** The product in the terms of its units: i j = k, j k = i, k i = j, and each squared is -1. */
  lemma HamiltonUnits()
    ensures
      var i, j, k := Quaternion(1.0, 0.0, 0.0, 0.0), Quaternion(0.0, 1.0, 0.0, 0.0), Quaternion(0.0, 0.0, 1.0, 0.0);
      && HamiltonProduct(i, j) == k && HamiltonProduct(j, k) == i && HamiltonProduct(k, i) == j
      && HamiltonProduct(i, i) == HamiltonProduct(j, j) == HamiltonProduct(k, k) == Quaternion(0.0, 0.0, 0.0, -1.0)
  {
    hide HamiltonProduct;
    var i, j, k := Quaternion(1.0, 0.0, 0.0, 0.0), Quaternion(0.0, 1.0, 0.0, 0.0), Quaternion(0.0, 0.0, 1.0, 0.0);
    ProductTerms(i, j);
    ProductTerms(j, k);
    ProductTerms(k, i);
    ProductTerms(i, i);
    ProductTerms(j, j);
    ProductTerms(k, k);
  }

  lemma ProductTerms(p: Quaternion, q: Quaternion)
    ensures HamiltonProduct(p, q).x == p.w * q.x + p.x * q.w + p.y * q.z - p.z * q.y
    ensures HamiltonProduct(p, q).y == p.w * q.y - p.x * q.z + p.y * q.w + p.z * q.x
    ensures HamiltonProduct(p, q).z == p.w * q.z + p.x * q.y - p.y * q.x + p.z * q.w
    ensures HamiltonProduct(p, q).w == p.w * q.w - p.x * q.x - p.y * q.y - p.z * q.z
  {
  }

  function Conjugate(q: Quaternion): Quaternion {
    Quaternion(-q.x, -q.y, -q.z, q.w)
  }

  function Pure(v: Vec): Quaternion {
    Quaternion(v.x, v.y, v.z, 0.0)
  }

  // The first component of the product with a vector, and with a conjugate; the others differ by the names.

  function TimesVector(x: real, y: real, z: real, w: real, a: real, b: real, c: real): real {
    w * a + y * c - z * b
  }

  function TimesConjugate(x: real, y: real, z: real, w: real, a: real, b: real, c: real, d: real): real {
    w * a - z * b + y * c + x * d
  }

  function Scalar(x: real, y: real, z: real, a: real, b: real, c: real): real {
    x * a + y * b + z * c
  }

  /** Both products, one after the other. */
  function TurnedTerms(x: real, y: real, z: real, w: real, a: real, b: real, c: real): real {
    TimesConjugate(
      x, y, z, w,
      TimesVector(x, y, z, w, a, b, c), TimesVector(y, z, x, w, b, c, a), TimesVector(z, x, y, w, c, a, b),
      Scalar(x, y, z, a, b, c))
  }

  lemma TurnedByQuaternion(q: Quaternion, v: Vec)
    ensures
      var r := HamiltonProduct(HamiltonProduct(q, Pure(v)), Conjugate(q));
      && r.x == TurnedTerms(q.x, q.y, q.z, q.w, v.x, v.y, v.z)
      && r.y == TurnedTerms(q.y, q.z, q.x, q.w, v.y, v.z, v.x)
      && r.z == TurnedTerms(q.z, q.x, q.y, q.w, v.z, v.x, v.y)
      && r.w == 0.0
  {
    hide HamiltonProduct, Conjugate, TimesVector, TimesConjugate, Scalar;
    PureProduct(q, v);
    ConjugateProduct(HamiltonProduct(q, Pure(v)), q);
    ScalarTurned(q.x, q.y, q.z, v.x, v.y, v.z);
    NoScalarLeft(q.x, q.y, q.z, q.w, v.x, v.y, v.z);
  }

  lemma PureProduct(q: Quaternion, v: Vec)
    ensures
      HamiltonProduct(q, Pure(v)) ==
      Quaternion(
        TimesVector(q.x, q.y, q.z, q.w, v.x, v.y, v.z),
        TimesVector(q.y, q.z, q.x, q.w, v.y, v.z, v.x),
        TimesVector(q.z, q.x, q.y, q.w, v.z, v.x, v.y),
        -Scalar(q.x, q.y, q.z, v.x, v.y, v.z))
  {
  }

  lemma ConjugateProduct(m: Quaternion, q: Quaternion)
    ensures
      HamiltonProduct(m, Conjugate(q)) ==
      Quaternion(
        TimesConjugate(q.x, q.y, q.z, q.w, m.x, m.y, m.z, -m.w),
        TimesConjugate(q.y, q.z, q.x, q.w, m.y, m.z, m.x, -m.w),
        TimesConjugate(q.z, q.x, q.y, q.w, m.z, m.x, m.y, -m.w),
        q.w * m.w + Scalar(q.x, q.y, q.z, m.x, m.y, m.z))
  {
  }

  lemma ScalarTurned(x: real, y: real, z: real, a: real, b: real, c: real)
    ensures Scalar(x, y, z, a, b, c) == Scalar(y, z, x, b, c, a) == Scalar(z, x, y, c, a, b)
  {
  }

  lemma NoScalarLeft(x: real, y: real, z: real, w: real, a: real, b: real, c: real)
    ensures
      w * -Scalar(x, y, z, a, b, c)
      + Scalar(
        x, y, z,
        TimesVector(x, y, z, w, a, b, c), TimesVector(y, z, x, w, b, c, a), TimesVector(z, x, y, w, c, a, b))
      == 0.0
  {
  }

  lemma TurnedByMatrix(x: real, y: real, z: real, w: real, a: real, b: real, c: real)
    requires x * x + y * y + z * z + w * w == 1.0
    ensures
      TurnedTerms(x, y, z, w, a, b, c)
      == Diagonal(y, z) * a + DifferenceEntry(x, y, w, z) * b + SumEntry(x, z, w, y) * c
  {
    hide TimesConjugate;
    Multiplied(
      x, y, z, w, a, b, c,
      w * a + y * c - z * b, w * b + z * a - x * c, w * c + x * b - y * a, x * a + y * b + z * c,
      Diagonal(y, z), DifferenceEntry(x, y, w, z), SumEntry(x, z, w, y));
  }

  lemma Multiplied(
    x: real, y: real, z: real, w: real, a: real, b: real, c: real,
    p: real, q: real, r: real, d: real, k: real, l: real, m: real
  )
    requires p == w * a + y * c - z * b && q == w * b + z * a - x * c && r == w * c + x * b - y * a
    requires d == x * a + y * b + z * c
    requires k == x * x + w * w - y * y - z * z && l == 2.0 * x * y - 2.0 * w * z && m == 2.0 * x * z + 2.0 * w * y
    ensures TimesConjugate(x, y, z, w, p, q, r, d) == k * a + l * b + m * c
  {
    assert w * p == w * w * a + w * y * c - w * z * b && z * q == w * z * b + z * z * a - x * z * c;
    assert y * r == w * y * c + x * y * b - y * y * a && x * d == x * x * a + x * y * b + x * z * c;
    assert k * a == x * x * a + w * w * a - y * y * a - z * z * a;
    assert l * b == 2.0 * (x * y * b) - 2.0 * (w * z * b) && m * c == 2.0 * (x * z * c) + 2.0 * (w * y * c);
  }

  lemma MatrixTurnsAsQuaternion(q: Quaternion, pos: Vec, v: Vec)
    requires IsUnit(q)
    ensures Pure(Linear(RotationOf(q, pos), v)) == HamiltonProduct(HamiltonProduct(q, Pure(v)), Conjugate(q))
  {
    hide HamiltonProduct, Diagonal, SumEntry, DifferenceEntry, TurnedTerms;
    TurnedByQuaternion(q, v);
    TurnedByMatrix(q.x, q.y, q.z, q.w, v.x, v.y, v.z);
    TurnedByMatrix(q.y, q.z, q.x, q.w, v.y, v.z, v.x);
    TurnedByMatrix(q.z, q.x, q.y, q.w, v.z, v.x, v.y);
    EntriesCommute(q.x, q.y, q.w, q.z);
    EntriesCommute(q.x, q.z, q.w, q.y);
    EntriesCommute(q.y, q.z, q.w, q.x);
  }

  /** The quaternion of three angles, from the sines and cosines of their halves. */
  function AngleQuaternion(sr: real, cr: real, sp: real, cp: real, sy: real, cy: real): Quaternion {
    Quaternion(
      sr * cp * cy - cr * sp * sy,
      cr * sp * cy + sr * cp * sy,
      cr * cp * sy - sr * sp * cy,
      cr * cp * cy + sr * sp * sy)
  }

  /** It turns about the first axis, then about the second, then about the third. */
  lemma AnglesInTurn(sr: real, cr: real, sp: real, cp: real, sy: real, cy: real)
    ensures
      AngleQuaternion(sr, cr, sp, cp, sy, cy) ==
      HamiltonProduct(
        Quaternion(0.0, 0.0, sy, cy),
        HamiltonProduct(Quaternion(0.0, sp, 0.0, cp), Quaternion(sr, 0.0, 0.0, cr)))
  {
    hide HamiltonProduct;
    var pitch, roll := Quaternion(0.0, sp, 0.0, cp), Quaternion(sr, 0.0, 0.0, cr);
    ProductTerms(pitch, roll);
    assert HamiltonProduct(pitch, roll) == Quaternion(cp * sr, sp * cr, -(sp * sr), cp * cr);
    ProductTerms(Quaternion(0.0, 0.0, sy, cy), Quaternion(cp * sr, sp * cr, -(sp * sr), cp * cr));
  }

  lemma AngleQuaternionUnit(sr: real, cr: real, sp: real, cp: real, sy: real, cy: real)
    requires sr * sr + cr * cr == 1.0 && sp * sp + cp * cp == 1.0 && sy * sy + cy * cy == 1.0
    ensures IsUnit(AngleQuaternion(sr, cr, sp, cp, sy, cy))
  {
    var a, b, c, d := sr * cp, cr * sp, cr * cp, sr * sp;
    var q := AngleQuaternion(sr, cr, sp, cp, sy, cy);
    assert q.x == a * cy - b * sy && q.y == b * cy + a * sy && q.z == c * sy - d * cy && q.w == c * cy + d * sy;
    HalfTurn(a, b, sy, cy, q.x, q.y);
    HalfTurn(d, c, sy, cy, -q.z, q.w);
    SquareOfProducts(sr, cr, sp, cp);
  }

  lemma HalfTurn(a: real, b: real, s: real, c: real, x: real, y: real)
    requires s * s + c * c == 1.0
    requires x == a * c - b * s && y == b * c + a * s
    ensures x * x + y * y == a * a + b * b
  {
  }

  lemma SquareOfProducts(sr: real, cr: real, sp: real, cp: real)
    requires sr * sr + cr * cr == 1.0 && sp * sp + cp * cp == 1.0
    ensures (sr * cp) * (sr * cp) + (cr * sp) * (cr * sp) + (cr * cp) * (cr * cp) + (sr * sp) * (sr * sp) == 1.0
  {
  }

  // The same, in the buffers of the renderer: three rows of four.

  ghost predicate IsMatrix(m: array2<real>) {
    m.Length0 == 3 && m.Length1 == 4
  }

  function Column(m: array2<real>, j: nat): Vec
    requires m.Length0 == 3 && j < m.Length1
    reads m
  {
    Vec(m[0, j], m[1, j], m[2, j])
  }

  function MatrixIn(m: array2<real>): Affine
    requires m.Length0 == 3 && m.Length1 == 4
    reads m
  {
    Affine(Column(m, 0), Column(m, 1), Column(m, 2), Column(m, 3))
  }

  /** One entry: a row times a column. */
  function Entry(a: real, b: real, c: real, x: real, y: real, z: real): real {
    a * x + b * y + c * z
  }

  lemma LinearByEntries(m: Affine, v: Vec)
    ensures
      Linear(m, v) ==
      Vec(
        Entry(m.c0.x, m.c1.x, m.c2.x, v.x, v.y, v.z),
        Entry(m.c0.y, m.c1.y, m.c2.y, v.x, v.y, v.z),
        Entry(m.c0.z, m.c1.z, m.c2.z, v.x, v.y, v.z))
  {
  }

  method ConcatTransforms(in1: array2<real>, in2: array2<real>, out: array2<real>)
    requires IsMatrix(in1) && IsMatrix(in2) && IsMatrix(out) && out != in1 && out != in2
    modifies out
    ensures MatrixIn(out) == Concatenated(MatrixIn(in1), MatrixIn(in2))
  {
    hide Entry, Linear;
    ghost var a, b := MatrixIn(in1), MatrixIn(in2);
    LinearByEntries(a, b.c0);
    LinearByEntries(a, b.c1);
    LinearByEntries(a, b.c2);
    LinearByEntries(a, b.origin);
    out[0, 0] := Entry(in1[0, 0], in1[0, 1], in1[0, 2], in2[0, 0], in2[1, 0], in2[2, 0]);
    out[0, 1] := Entry(in1[0, 0], in1[0, 1], in1[0, 2], in2[0, 1], in2[1, 1], in2[2, 1]);
    out[0, 2] := Entry(in1[0, 0], in1[0, 1], in1[0, 2], in2[0, 2], in2[1, 2], in2[2, 2]);
    out[0, 3] := Entry(in1[0, 0], in1[0, 1], in1[0, 2], in2[0, 3], in2[1, 3], in2[2, 3]) + in1[0, 3];
    out[1, 0] := Entry(in1[1, 0], in1[1, 1], in1[1, 2], in2[0, 0], in2[1, 0], in2[2, 0]);
    out[1, 1] := Entry(in1[1, 0], in1[1, 1], in1[1, 2], in2[0, 1], in2[1, 1], in2[2, 1]);
    out[1, 2] := Entry(in1[1, 0], in1[1, 1], in1[1, 2], in2[0, 2], in2[1, 2], in2[2, 2]);
    out[1, 3] := Entry(in1[1, 0], in1[1, 1], in1[1, 2], in2[0, 3], in2[1, 3], in2[2, 3]) + in1[1, 3];
    out[2, 0] := Entry(in1[2, 0], in1[2, 1], in1[2, 2], in2[0, 0], in2[1, 0], in2[2, 0]);
    out[2, 1] := Entry(in1[2, 0], in1[2, 1], in1[2, 2], in2[0, 1], in2[1, 1], in2[2, 1]);
    out[2, 2] := Entry(in1[2, 0], in1[2, 1], in1[2, 2], in2[0, 2], in2[1, 2], in2[2, 2]);
    out[2, 3] := Entry(in1[2, 0], in1[2, 1], in1[2, 2], in2[0, 3], in2[1, 3], in2[2, 3]) + in1[2, 3];
  }

  /** Writes the rotation part; the last column stays. */
  method QuaternionMatrix(quaternion: Quaternion, matrix: array2<real>)
    requires IsMatrix(matrix)
    modifies matrix
    ensures MatrixIn(matrix) == RotationOf(quaternion, old(Column(matrix, 3)))
  {
    hide Diagonal, SumEntry, DifferenceEntry;
    var q := quaternion;
    matrix[0, 0] := Diagonal(q.y, q.z);
    matrix[1, 0] := SumEntry(q.x, q.y, q.w, q.z);
    matrix[2, 0] := DifferenceEntry(q.x, q.z, q.w, q.y);
    matrix[0, 1] := DifferenceEntry(q.x, q.y, q.w, q.z);
    matrix[1, 1] := Diagonal(q.x, q.z);
    matrix[2, 1] := SumEntry(q.y, q.z, q.w, q.x);
    matrix[0, 2] := SumEntry(q.x, q.z, q.w, q.y);
    matrix[1, 2] := DifferenceEntry(q.y, q.z, q.w, q.x);
    matrix[2, 2] := Diagonal(q.x, q.y);
  }

  method MatrixCopy(in1: array2<real>, out: array2<real>)
    requires IsMatrix(in1) && IsMatrix(out)
    modifies out
    ensures MatrixIn(out) == old(MatrixIn(in1))
  {
    forall i, j | 0 <= i < 3 && 0 <= j < 4 {
      out[i, j] := in1[i, j];
    }
  }

  // The hierarchy.

  /** The second row negated, for a weapon held in the right hand. */
  function Mirrored(m: Affine): Affine {
    Affine(
      m.c0.(y := -m.c0.y), m.c1.(y := -m.c1.y), m.c2.(y := -m.c2.y), m.origin.(y := -m.origin.y))
  }

  /** It takes every vertex to the other side of the plane of the first and third axes. */
  lemma MirroredNegates(m: Affine, v: Vec)
    ensures Apply(Mirrored(m), v) == Vec(Apply(m, v).x, -Apply(m, v).y, Apply(m, v).z)
  {
  }

  lemma MirroredRigid(m: Affine)
    requires IsRigid(m)
    ensures IsRigid(Mirrored(m))
  {
    MirroredDot(m.c0, m.c0);
    MirroredDot(m.c1, m.c1);
    MirroredDot(m.c2, m.c2);
    MirroredDot(m.c0, m.c1);
    MirroredDot(m.c0, m.c2);
    MirroredDot(m.c1, m.c2);
  }

  lemma MirroredDot(u: Vec, v: Vec)
    ensures Dot(u.(y := -u.y), v.(y := -v.y)) == Dot(u, v)
  {
  }

  /** The parent of each bone is none (-1) or comes before it. */
  ghost predicate IsHierarchy(parent: seq<int>) {
    forall i :: 0 <= i < |parent| ==> -1 <= parent[i] < i
  }

  /** A bone relative to its parent; only root bones are mirrored. */
  function Local(q: Quaternion, pos: Vec, isRoot: bool, mirror: bool): Affine {
    var m := RotationOf(q, pos);
    if isRoot && mirror then Mirrored(m) else m
  }

  /** The product of the root matrix and the local matrices along the parent chain. */
  function Posed(root: Affine, parent: seq<int>, locals: seq<Affine>, i: nat): Affine
    requires IsHierarchy(parent) && |locals| == |parent| && i < |parent|
  {
    if parent[i] == -1 then Concatenated(root, locals[i])
    else Concatenated(Posed(root, parent, locals, parent[i]), locals[i])
  }

  lemma PosedStep(root: Affine, parent: seq<int>, locals: seq<Affine>, i: nat)
    requires IsHierarchy(parent) && |locals| == |parent| && i < |parent|
    ensures
      Posed(root, parent, locals, i) ==
      Concatenated(if parent[i] == -1 then root else Posed(root, parent, locals, parent[i]), locals[i])
  {
  }

  /** The reflection in the plane of the first and third axes. */
  const REFLECTION: Affine :=
    Affine(Vec(1.0, 0.0, 0.0), Vec(0.0, -1.0, 0.0), Vec(0.0, 0.0, 1.0), Vec(0.0, 0.0, 0.0))

  lemma MirroredIsReflected(m: Affine)
    ensures Mirrored(m) == Concatenated(REFLECTION, m)
  {
  }

  lemma LinearOfConcatenated(a: Affine, b: Affine, v: Vec)
    ensures Linear(Concatenated(a, b), v) == Linear(a, Linear(b, v))
  {
    hide Linear;
    var a0, b0 := a.(origin := ZERO), b.(origin := ZERO);
    ConcatComposes(a0, b0, v);
    SameLinear(a, a0, b.c0);
    SameLinear(a, a0, b.c1);
    SameLinear(a, a0, b.c2);
    SameLinear(b, b0, v);
    SameLinear(a, a0, Linear(b, v));
    SameLinear(Concatenated(a, b), Concatenated(a0, b0), v);
    LinearOfZero(a0);
  }

  lemma SameLinear(a: Affine, b: Affine, v: Vec)
    requires a.c0 == b.c0 && a.c1 == b.c1 && a.c2 == b.c2
    ensures Linear(a, v) == Linear(b, v)
  {
  }

  lemma LinearOfZero(a: Affine)
    ensures Linear(a, ZERO) == ZERO
  {
  }

  lemma ConcatAssociative(a: Affine, b: Affine, c: Affine)
    ensures Concatenated(Concatenated(a, b), c) == Concatenated(a, Concatenated(b, c))
  {
    hide Linear, Apply;
    LinearOfConcatenated(a, b, c.c0);
    LinearOfConcatenated(a, b, c.c1);
    LinearOfConcatenated(a, b, c.c2);
    ConcatComposes(a, b, c.origin);
  }

  /** Mirroring the root bones mirrors the whole model, every bone of it and once: the unmirrored pose is reflected. */
  lemma {:induction false} MirrorsWholeModel(
    root: Affine, parent: seq<int>, q: seq<Quaternion>, pos: seq<Vec>, i: nat
  )
    requires IsHierarchy(parent) && |q| == |pos| == |parent| && i < |parent|
    ensures
      Posed(root, parent, Locals(q, pos, parent, true), i)
      == Posed(Concatenated(root, REFLECTION), parent, Locals(q, pos, parent, false), i)
  {
    hide Concatenated, Mirrored, RotationOf, Posed;
    var mirrored, plain := Locals(q, pos, parent, true), Locals(q, pos, parent, false);
    PosedStep(root, parent, mirrored, i);
    PosedStep(Concatenated(root, REFLECTION), parent, plain, i);
    if parent[i] == -1 {
      MirroredIsReflected(plain[i]);
      ConcatAssociative(root, REFLECTION, plain[i]);
    } else {
      MirrorsWholeModel(root, parent, q, pos, parent[i]);
    }
  }

  /** A vertex of bone `i` carried up the chain, one local matrix at a time. */
  function ThroughParents(root: Affine, parent: seq<int>, locals: seq<Affine>, i: nat, v: Vec): Vec
    requires IsHierarchy(parent) && |locals| == |parent| && i < |parent|
  {
    if parent[i] == -1 then Apply(root, Apply(locals[i], v))
    else ThroughParents(root, parent, locals, parent[i], Apply(locals[i], v))
  }

  lemma {:induction false} PosedFollowsParents(root: Affine, parent: seq<int>, locals: seq<Affine>, i: nat, v: Vec)
    requires IsHierarchy(parent) && |locals| == |parent| && i < |parent|
    ensures Apply(Posed(root, parent, locals, i), v) == ThroughParents(root, parent, locals, i, v)
  {
    hide Apply, Concatenated;
    if parent[i] == -1 {
      ConcatComposes(root, locals[i], v);
    } else {
      ConcatComposes(Posed(root, parent, locals, parent[i]), locals[i], v);
      PosedFollowsParents(root, parent, locals, parent[i], Apply(locals[i], v));
    }
  }

  lemma {:induction false} PosedRigid(root: Affine, parent: seq<int>, locals: seq<Affine>, i: nat)
    requires IsHierarchy(parent) && |locals| == |parent| && i < |parent|
    requires IsRigid(root) && forall k :: 0 <= k < |locals| ==> IsRigid(locals[k])
    ensures IsRigid(Posed(root, parent, locals, i))
  {
    hide Concatenated, IsRigid;
    if parent[i] == -1 {
      ConcatRigid(root, locals[i]);
    } else {
      PosedRigid(root, parent, locals, parent[i]);
      ConcatRigid(Posed(root, parent, locals, parent[i]), locals[i]);
    }
  }

  ghost function Locals(q: seq<Quaternion>, pos: seq<Vec>, parent: seq<int>, mirror: bool): (ls: seq<Affine>)
    requires |q| == |pos| == |parent|
    ensures |ls| == |parent| && forall i :: 0 <= i < |ls| ==> ls[i] == Local(q[i], pos[i], parent[i] == -1, mirror)
  {
    seq(|parent|, i requires 0 <= i < |parent| => Local(q[i], pos[i], parent[i] == -1, mirror))
  }

  /** With unit quaternions every bone keeps the distances between its vertices, mirrored or not. */
  lemma VerticesStayRigid(
    root: Affine, parent: seq<int>, q: seq<Quaternion>, pos: seq<Vec>, mirror: bool, i: nat, u: Vec, v: Vec
  )
    requires IsHierarchy(parent) && |q| == |pos| == |parent| && i < |parent|
    requires IsRigid(root) && forall k :: 0 <= k < |q| ==> IsUnit(q[k])
    ensures
      var m := Posed(root, parent, Locals(q, pos, parent, mirror), i);
      DistanceSquared(Apply(m, u), Apply(m, v)) == DistanceSquared(u, v)
  {
    hide IsRigid, IsUnit, RotationOf, Mirrored, Apply, DistanceSquared, Posed;
    var locals := Locals(q, pos, parent, mirror);
    forall k | 0 <= k < |locals|
      ensures IsRigid(locals[k])
    {
      UnitQuaternionRigid(q[k], pos[k]);
      MirroredRigid(RotationOf(q[k], pos[k]));
    }
    PosedRigid(root, parent, locals, i);
    RigidKeepsDistance(Posed(root, parent, locals, i), u, v);
  }

  /** The local matrix of a bone, in a buffer of its own. */
  method LocalMatrix(q: Quaternion, pos: Vec, mirrored: bool, bonematrix: array2<real>)
    requires IsMatrix(bonematrix)
    modifies bonematrix
    ensures MatrixIn(bonematrix) == if mirrored then Mirrored(RotationOf(q, pos)) else RotationOf(q, pos)
  {
    hide RotationOf;
    RotationColumns(q, pos, Column(bonematrix, 3));
    QuaternionMatrix(q, bonematrix);
    bonematrix[0, 3] := pos.x;
    bonematrix[1, 3] := pos.y;
    bonematrix[2, 3] := pos.z;
    assert MatrixIn(bonematrix) == RotationOf(q, pos);
    if mirrored {
      bonematrix[1, 0] := -bonematrix[1, 0];
      bonematrix[1, 1] := -bonematrix[1, 1];
      bonematrix[1, 2] := -bonematrix[1, 2];
      bonematrix[1, 3] := -bonematrix[1, 3];
    }
  }

  lemma RotationColumns(q: Quaternion, pos: Vec, other: Vec)
    ensures RotationOf(q, pos) == RotationOf(q, other).(origin := pos)
  {
  }

  /** One bone: it hangs on its parent, or on the matrices the whole model hangs on. */
  method SetupBone(
    bonematrix: array2<real>, parentBone: array2?<real>, parentLight: array2?<real>,
    rotation: array2<real>, alias: array2<real>, hardware: bool, bone: array2<real>, light: array2<real>
  )
    requires IsMatrix(bonematrix) && IsMatrix(rotation) && IsMatrix(alias) && IsMatrix(bone) && IsMatrix(light)
    requires bone !in {bonematrix, rotation, alias, parentLight, parentBone}
    requires light !in {bone, bonematrix, rotation, alias, parentLight}
    requires parentBone != null && parentLight != null ==> IsMatrix(parentBone) && IsMatrix(parentLight)
    requires parentBone != null <==> parentLight != null
    modifies bone, light
    ensures
      MatrixIn(bone) == Concatenated(
        old(MatrixIn(if parentBone != null then parentBone else if hardware then rotation else alias)),
        old(MatrixIn(bonematrix)))
    ensures
      parentLight == null && hardware ==> MatrixIn(light) == MatrixIn(bone)
    ensures
      parentLight != null || !hardware ==>
        MatrixIn(light) == Concatenated(
          old(MatrixIn(if parentLight != null then parentLight else rotation)),
          old(MatrixIn(bonematrix)))
  {
    hide Concatenated, MatrixIn;
    if parentBone == null || parentLight == null {
      if hardware {
        ConcatTransforms(rotation, bonematrix, bone);
        MatrixCopy(bone, light);
      } else {
        ConcatTransforms(alias, bonematrix, bone);
        ConcatTransforms(rotation, bonematrix, light);
      }
    } else {
      ConcatTransforms(parentBone, bonematrix, bone);
      ConcatTransforms(parentLight, bonematrix, light);
    }
  }

  /** The matrices of the bones and of the lighting are in buffers of their own. */
  ghost predicate AreMatrices(bones: seq<array2<real>>, lights: seq<array2<real>>) {
    && |bones| == |lights|
    && (forall i :: 0 <= i < |bones| ==> IsMatrix(bones[i]) && IsMatrix(lights[i]))
    && (forall i, j :: 0 <= i < |bones| && 0 <= j < |bones| ==> bones[i] != lights[j])
    && (forall i, j :: 0 <= i < j < |bones| ==> bones[i] != bones[j] && lights[i] != lights[j])
  }

  ghost predicate Apart(ms: seq<array2<real>>, m: array2<real>) {
    forall i :: 0 <= i < |ms| ==> ms[i] != m
  }

  /**
   The loop over the bones. With hardware rendering root bones hang on the rotation matrix, mirrored
   where the weapon is; without it the bones hang on the alias transform and the lighting on the
   rotation matrix, and nothing is mirrored.
   */
  method SetupBones(
    q: seq<Quaternion>, pos: seq<Vec>, parent: seq<int>, rotation: array2<real>, alias: array2<real>,
    hardware: bool, righthand: bool, bones: seq<array2<real>>, lights: seq<array2<real>>
  )
    requires IsHierarchy(parent) && |q| == |pos| == |parent| <= |bones|
    requires AreMatrices(bones, lights) && IsMatrix(rotation) && IsMatrix(alias)
    requires Apart(bones, rotation) && Apart(bones, alias) && Apart(lights, rotation) && Apart(lights, alias)
    modifies bones, lights
    ensures
      var locals := Locals(q, pos, parent, hardware && righthand);
      forall i :: 0 <= i < |parent| ==>
        && MatrixIn(bones[i]) == Posed(old(MatrixIn(if hardware then rotation else alias)), parent, locals, i)
        && MatrixIn(lights[i]) == Posed(old(MatrixIn(rotation)), parent, locals, i)
  {
    hide Concatenated, RotationOf, Mirrored, MatrixIn, Posed;
    ghost var locals := Locals(q, pos, parent, hardware && righthand);
    ghost var root, light := MatrixIn(if hardware then rotation else alias), MatrixIn(rotation);
    var bonematrix := new real[3, 4]((i, j) => 0.0);
    for i := 0 to |parent|
      invariant MatrixIn(rotation) == light && MatrixIn(if hardware then rotation else alias) == root
      invariant forall k :: 0 <= k < i ==> MatrixIn(bones[k]) == Posed(root, parent, locals, k)
      invariant forall k :: 0 <= k < i ==> MatrixIn(lights[k]) == Posed(light, parent, locals, k)
    {
      LocalMatrix(q[i], pos[i], parent[i] == -1 && hardware && righthand, bonematrix);
      assert MatrixIn(bonematrix) == locals[i];
      SetupBone(
        bonematrix,
        if parent[i] == -1 then null else bones[parent[i]], if parent[i] == -1 then null else lights[parent[i]],
        rotation, alias, hardware, bones[i], lights[i]);
      PosedStep(root, parent, locals, i);
      PosedStep(light, parent, locals, i);
    }
  }
}
