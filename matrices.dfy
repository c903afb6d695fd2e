/**
 * The 3x3 homogeneous matrix `GameEngine.Math2D.Matrix2`, stored column-major in nine floats:
 * entries 0-2 are `Right` (column 0), 3-5 are `Up` (column 1), 6-8 are `Translation` (column 2).
 * The indexer `this[x, y]` reads `Data[x + 3y]`, so `x` selects the row and `y` the column.
 */
module Matrices {
  import opened FloatUtils
  import opened Vectors
  import opened Outcomes

  datatype Matrix2 = Matrix2(Data: seq<real>)

  /** Every `Matrix2` the engine builds holds exactly nine entries. */
  type Matrix = m: Matrix2 | |m.Data| == 9 witness Matrix2([1.0, 0.0, 0.0, 0.0, 1.0, 0.0, 0.0, 0.0, 1.0])

  /** The matrix-vector product `m * v`, which callers supply. */
  type PointMap = (Matrix, Vector2) -> Vector2

  function IndexOf(x: int, y: int): int { x + 3 * y }

  /** `IndexOf` is a bijection from pairs of `0 <= row, col < 3` onto `0 <= k < 9`. */
  lemma IndexOfBijection(x: int, y: int, i: int)
    ensures 0 <= x < 3 && 0 <= y < 3 ==> 0 <= IndexOf(x, y) < 9
    ensures 0 <= i < 9 ==> 0 <= i % 3 < 3 && 0 <= i / 3 < 3 && IndexOf(i % 3, i / 3) == i
    ensures 0 <= x < 3 && 0 <= y < 3 && 0 <= i < 9 && IndexOf(x, y) == i ==> x == i % 3 && y == i / 3
  {
  }

  /** The entry at row `x`, column `y`, for indices the nine-element array holds. */
  function Get(m: Matrix, x: int, y: int): real
    requires 0 <= IndexOf(x, y) < 9
  {
    m.Data[IndexOf(x, y)]
  }

  /** The indexer `this[x, y]`: the array access throws when `IndexOf(x, y)` falls outside it. */
  function At(m: Matrix, x: int, y: int): (r: Result<real>)
    ensures r.Ok? <==> 0 <= x + 3 * y < 9
    ensures r.Ok? ==> r.value == m.Data[x + 3 * y]
    ensures r.Throws? ==> r.error == IndexOutOfRange
  {
    if 0 <= IndexOf(x, y) < 9 then Ok(m.Data[IndexOf(x, y)]) else Throws(IndexOutOfRange)
  }

  function Right(m: Matrix): Vector2 { Vec(m.Data[0], m.Data[1]) }
  function Up(m: Matrix): Vector2 { Vec(m.Data[3], m.Data[4]) }

  /** `Translation` is always returned as a point: its z is 1, whatever `Data[8]` holds. */
  function Translation(m: Matrix): (r: Vector2)
    ensures r.Z == 1.0
  {
    Vector2(m.Data[6], m.Data[7], 1.0)
  }

  function Determinant(m: Matrix): real { m.Data[0] * m.Data[4] - m.Data[1] * m.Data[3] }

  function Scale2Squared(m: Matrix): Vector2 { Vec(Right(m).LengthSquared(), Up(m).LengthSquared()) }

  /** `Scale2`: the lengths of `Right` and `Up`, with the square root supplied by the caller. */
  function Scale2(m: Matrix, sqrt: real -> real): (r: Vector2)
    ensures r.X == sqrt(Scale2Squared(m).X) && r.Y == sqrt(Scale2Squared(m).Y) && r.Z == 0.0
  {
    Vec(sqrt(Right(m).LengthSquared()), sqrt(Up(m).LengthSquared()))
  }

  // ---- constructors ----

  /** `new Matrix2()`: sets entries 0, 3 and 6, which is not the identity. */
  function Default(): (r: Matrix)
    ensures Right(r) == Vec(1.0, 0.0) && Up(r) == Vec(1.0, 0.0) && Translation(r) == Vector2(1.0, 0.0, 1.0)
    ensures Determinant(r) == 0.0
  {
    Matrix2([1.0, 0.0, 0.0, 1.0, 0.0, 0.0, 1.0, 0.0, 0.0])
  }

  /** `new Matrix2(float[])`: adopts a nine-entry array, and throws `RankException` otherwise. */
  function FromArray(data: seq<real>): (r: Result<Matrix>)
    ensures r.Ok? <==> |data| == 9
    ensures r.Ok? ==> r.value.Data == data
    ensures r.Throws? ==> r.error == Rank
  {
    if |data| == 9 then Ok(Matrix2(data)) else Throws(Rank)
  }

  /** `new Matrix2(position)`: pure translation. */
  function FromPosition(position: Vector2): (r: Matrix)
    ensures Right(r) == Vec(1.0, 0.0) && Up(r) == Vec(0.0, 1.0)
    ensures Translation(r) == Vector2(position.X, position.Y, 1.0) && r.Data[8] == 1.0
    ensures Determinant(r) == 1.0
  {
    Matrix2([1.0, 0.0, 0.0, 0.0, 1.0, 0.0, position.X, position.Y, 1.0])
  }

  /** `new Matrix2(position, right, up)`: the z entries of the columns become 0, 0 and 1. */
  function FromBasis(position: Vector2, right: Vector2, up: Vector2): (r: Matrix)
    ensures Right(r) == Vec(right.X, right.Y) && Up(r) == Vec(up.X, up.Y)
    ensures Translation(r) == Vector2(position.X, position.Y, 1.0)
    ensures r.Data[2] == 0.0 && r.Data[5] == 0.0 && r.Data[8] == 1.0
  {
    Matrix2([right.X, right.Y, 0.0, up.X, up.Y, 0.0, position.X, position.Y, 1.0])
  }

  /** `new Matrix2(position, scale)`: axis-aligned scale then translation. */
  function FromScale(position: Vector2, scale: Vector2): (r: Matrix)
    ensures Right(r) == Vec(scale.X, 0.0) && Up(r) == Vec(0.0, scale.Y)
    ensures Translation(r) == Vector2(position.X, position.Y, 1.0) && r.Data[8] == 1.0
    ensures Determinant(r) == scale.X * scale.Y
  {
    Matrix2([scale.X, 0.0, 0.0, 0.0, scale.Y, 0.0, position.X, position.Y, 1.0])
  }

  /** The layouts the two positional constructors produce, entry by entry. */
  lemma ConstructorLayouts(p: Vector2, s: Vector2)
    ensures FromPosition(p).Data == [1.0, 0.0, 0.0, 0.0, 1.0, 0.0, p.X, p.Y, 1.0]
    ensures FromScale(p, s).Data == [s.X, 0.0, 0.0, 0.0, s.Y, 0.0, p.X, p.Y, 1.0]
    ensures FromScale(p, Vec(1.0, 1.0)) == FromPosition(p)
  {
  }

  // ---- pure transformations ----

  /** `Translate(x, y)`: rebuilds the matrix with the translation moved by (x, y). */
  function Translate(m: Matrix, x: real, y: real): (r: Matrix)
    ensures Right(r) == Right(m) && Up(r) == Up(m)
    ensures Translation(r) == Add(Translation(m), Vec(x, y))
    ensures Determinant(r) == Determinant(m)
  {
    FromBasis(Add(Translation(m), Vec(x, y)), Right(m), Up(m))
  }

  function TranslateBy(m: Matrix, offset: Vector2): (r: Matrix)
    ensures r == Translate(m, offset.X, offset.Y)
  {
    Translate(m, offset.X, offset.Y)
  }

  /** `Scale(x, y)`: scales `Right` by x and `Up` by y and keeps the translation. */
  function Scale(m: Matrix, x: real, y: real): (r: Matrix)
    ensures Translation(r) == Translation(m)
    ensures Right(r) == Mul(x, Right(m)) && Up(r) == Mul(y, Up(m))
    ensures Determinant(r) == x * y * Determinant(m)
  {
    FromBasis(Translation(m), Mul(x, Right(m)), Mul(y, Up(m)))
  }

  function ScaleUniform(m: Matrix, s: real): (r: Matrix)
    ensures r == Scale(m, s, s)
  {
    Scale(m, s, s)
  }

  function ScaleBy(m: Matrix, s: Vector2): (r: Matrix)
    ensures r == Scale(m, s.X, s.Y)
  {
    Scale(m, s.X, s.Y)
  }

  /** Translating twice adds the offsets; translating leaves the scale alone. */
  lemma TranslateComposes(m: Matrix, x1: real, y1: real, x2: real, y2: real)
    ensures Translate(Translate(m, x1, y1), x2, y2) == Translate(m, x1 + x2, y1 + y2)
    ensures Scale2Squared(Translate(m, x1, y1)) == Scale2Squared(m)
  {
  }

  // ---- element-wise and product specifications ----

  /** Two matrices are equal when they agree at every row and column. */
  lemma {:induction false} Extensionality(m: Matrix, n: Matrix)
    requires forall x, y :: 0 <= x < 3 && 0 <= y < 3 ==> Get(m, x, y) == Get(n, x, y)
    ensures m == n
  {
    forall i | 0 <= i < 9 ensures m.Data[i] == n.Data[i] {
      IndexOfBijection(i % 3, i / 3, i);
      assert Get(m, i % 3, i / 3) == Get(n, i % 3, i / 3);
    }
  }

  /** The transpose, entry by entry as `Transpose` fills it. */
  function Transposed(m: Matrix): Matrix
  {
    Matrix2([m.Data[0], m.Data[3], m.Data[6], m.Data[1], m.Data[4], m.Data[7], m.Data[2], m.Data[5], m.Data[8]])
  }

  /** Row `x`, column `y` of the transpose is row `y`, column `x` of the matrix. */
  lemma {:induction false} TransposedAt(m: Matrix, x: int, y: int)
    requires 0 <= x < 3 && 0 <= y < 3
    ensures Get(Transposed(m), x, y) == Get(m, y, x)
  {
    // one case per entry; Dafny then reads it off the literal
    if x == 0 {
      if y == 0 {} else if y == 1 {} else {}
    } else if x == 1 {
      if y == 0 {} else if y == 1 {} else {}
    } else {
      if y == 0 {} else if y == 1 {} else {}
    }
  }

  lemma TransposeInvolution(m: Matrix)
    ensures Transposed(Transposed(m)) == m
  {
  }

  /** The element-wise sum that `operator+` computes. */
  function Sum(a: Matrix, b: Matrix): (r: Matrix)
    ensures forall i :: 0 <= i < 9 ==> r.Data[i] == a.Data[i] + b.Data[i]
  {
    Matrix2(seq(9, i requires 0 <= i < 9 => a.Data[i] + b.Data[i]))
  }

  /** Element-wise negation, which the unary `operator+` computes. */
  function Negated(m: Matrix): (r: Matrix)
    ensures forall i :: 0 <= i < 9 ==> r.Data[i] == -m.Data[i]
  {
    Matrix2(seq(9, i requires 0 <= i < 9 => -m.Data[i]))
  }

  /** The first `n` terms of `result[x, y] = sum over j of left[j, y] * right[x, j]`. */
  function PartialEntry(left: Matrix, right: Matrix, x: int, y: int, n: int): real
    requires 0 <= x < 3 && 0 <= y < 3 && 0 <= n <= 3
  {
    if n == 0 then 0.0 else PartialEntry(left, right, x, y, n - 1) + Get(left, n - 1, y) * Get(right, x, n - 1)
  }

  /** Entry `[x, y]` of the product: column `y` of `left` against row `x` of `right`. */
  function Entry(left: Matrix, right: Matrix, x: int, y: int): real
    requires 0 <= x < 3 && 0 <= y < 3
  {
    Get(left, 0, y) * Get(right, x, 0) + Get(left, 1, y) * Get(right, x, 1) + Get(left, 2, y) * Get(right, x, 2)
  }

  /** The accumulation over all three terms is the entry. */
  lemma {:induction false} PartialEntryComplete(left: Matrix, right: Matrix, x: int, y: int)
    requires 0 <= x < 3 && 0 <= y < 3
    ensures PartialEntry(left, right, x, y, 3) == Entry(left, right, x, y)
  {
    assert PartialEntry(left, right, x, y, 1) == Get(left, 0, y) * Get(right, x, 0);
    assert PartialEntry(left, right, x, y, 2) == PartialEntry(left, right, x, y, 1) + Get(left, 1, y) * Get(right, x, 1);
  }

  /** The product `operator*` fills, entry `i` holding `Entry(left, right, i % 3, i / 3)`. */
  function Product(left: Matrix, right: Matrix): Matrix
  {
    Matrix2(seq(9, i requires 0 <= i < 9 => Entry(left, right, i % 3, i / 3)))
  }

  lemma {:induction false} ProductAt(left: Matrix, right: Matrix, x: int, y: int)
    requires 0 <= x < 3 && 0 <= y < 3
    ensures Get(Product(left, right), x, y) == Entry(left, right, x, y)
  {
    IndexOfBijection(x, y, IndexOf(x, y));
  }

  /** The true identity. */
  const Identity: Matrix := Matrix2([1.0, 0.0, 0.0, 0.0, 1.0, 0.0, 0.0, 0.0, 1.0])

  /** `new Matrix2(position)` at the origin builds the identity. */
  lemma IdentityAtOrigin()
    ensures FromPosition(Zero) == Identity
  {
  }

  /** Row `x` of `m` against a column of the identity, and a row of the identity against column `y` of `m`. */
  lemma {:induction false} IdentityEntry(m: Matrix, x: int, y: int)
    requires 0 <= x < 3 && 0 <= y < 3
    ensures Entry(Identity, m, x, y) == Get(m, x, y) && Entry(m, Identity, x, y) == Get(m, x, y)
  {
    if x == 0 {
      if y == 0 {} else if y == 1 {} else {}
    } else if x == 1 {
      if y == 0 {} else if y == 1 {} else {}
    } else {
      if y == 0 {} else if y == 1 {} else {}
    }
  }

  lemma ProductIdentity(m: Matrix)
    ensures Product(Identity, m) == m && Product(m, Identity) == m
  {
    forall x, y | 0 <= x < 3 && 0 <= y < 3
      ensures Get(Product(Identity, m), x, y) == Get(m, x, y) && Get(Product(m, Identity), x, y) == Get(m, x, y)
    {
      ProductAt(Identity, m, x, y);
      ProductAt(m, Identity, x, y);
      IdentityEntry(m, x, y);
    }
    Extensionality(Product(Identity, m), m);
    Extensionality(Product(m, Identity), m);
  }

  /** The algebra behind associativity: a double sum of products taken in either order. */
  lemma SwapSums(a0: real, a1: real, a2: real,
                 b00: real, b01: real, b02: real, b10: real, b11: real, b12: real,
                 b20: real, b21: real, b22: real,
                 c0: real, c1: real, c2: real)
    ensures (a0 * b00 + a1 * b01 + a2 * b02) * c0 + (a0 * b10 + a1 * b11 + a2 * b12) * c1
          + (a0 * b20 + a1 * b21 + a2 * b22) * c2
         == a0 * (b00 * c0 + b10 * c1 + b20 * c2) + a1 * (b01 * c0 + b11 * c1 + b21 * c2)
          + a2 * (b02 * c0 + b12 * c1 + b22 * c2)
  {
  }

  /** Associativity at one entry, for any `p` holding the entries of `a * b` and `q` those of `b * c`. */
  lemma {:induction false} ProductAssociativeAt(a: Matrix, b: Matrix, c: Matrix, p: Matrix, q: Matrix, x: int, y: int)
    requires 0 <= x < 3 && 0 <= y < 3
    requires Get(p, 0, y) == Entry(a, b, 0, y) && Get(p, 1, y) == Entry(a, b, 1, y) && Get(p, 2, y) == Entry(a, b, 2, y)
    requires Get(q, x, 0) == Entry(b, c, x, 0) && Get(q, x, 1) == Entry(b, c, x, 1) && Get(q, x, 2) == Entry(b, c, x, 2)
    ensures Entry(p, c, x, y) == Entry(a, q, x, y)
  {
    SwapSums(Get(a, 0, y), Get(a, 1, y), Get(a, 2, y),
             Get(b, 0, 0), Get(b, 0, 1), Get(b, 0, 2), Get(b, 1, 0), Get(b, 1, 1), Get(b, 1, 2),
             Get(b, 2, 0), Get(b, 2, 1), Get(b, 2, 2),
             Get(c, x, 0), Get(c, x, 1), Get(c, x, 2));
  }

  /** Matrix multiplication is associative. */
  lemma ProductAssociative(a: Matrix, b: Matrix, c: Matrix)
    ensures Product(Product(a, b), c) == Product(a, Product(b, c))
  {
    var l, r := Product(Product(a, b), c), Product(a, Product(b, c));
    forall x, y | 0 <= x < 3 && 0 <= y < 3 ensures Get(l, x, y) == Get(r, x, y) {
      ProductAt(Product(a, b), c, x, y);
      ProductAt(a, Product(b, c), x, y);
      ProductAt(a, b, 0, y);
      ProductAt(a, b, 1, y);
      ProductAt(a, b, 2, y);
      ProductAt(b, c, x, 0);
      ProductAt(b, c, x, 1);
      ProductAt(b, c, x, 2);
      ProductAssociativeAt(a, b, c, Product(a, b), Product(b, c), x, y);
    }
    Extensionality(l, r);
  }

  /** Entry `[y, x]` of `a * b` is entry `[x, y]` of the product of any `ta` and `tb` holding the transposes. */
  lemma {:induction false} TransposeEntry(a: Matrix, b: Matrix, ta: Matrix, tb: Matrix, x: int, y: int)
    requires 0 <= x < 3 && 0 <= y < 3
    requires Get(ta, x, 0) == Get(a, 0, x) && Get(ta, x, 1) == Get(a, 1, x) && Get(ta, x, 2) == Get(a, 2, x)
    requires Get(tb, 0, y) == Get(b, y, 0) && Get(tb, 1, y) == Get(b, y, 1) && Get(tb, 2, y) == Get(b, y, 2)
    ensures Entry(a, b, y, x) == Entry(tb, ta, x, y)
  {
  }

  /** Transposing a product reverses the order of its factors. */
  lemma TransposeProduct(a: Matrix, b: Matrix)
    ensures Transposed(Product(a, b)) == Product(Transposed(b), Transposed(a))
  {
    var l, r := Transposed(Product(a, b)), Product(Transposed(b), Transposed(a));
    forall x, y | 0 <= x < 3 && 0 <= y < 3 ensures Get(l, x, y) == Get(r, x, y) {
      TransposedAt(Product(a, b), x, y);
      ProductAt(a, b, y, x);
      ProductAt(Transposed(b), Transposed(a), x, y);
      TransposedAt(a, x, 0);
      TransposedAt(a, x, 1);
      TransposedAt(a, x, 2);
      TransposedAt(b, 0, y);
      TransposedAt(b, 1, y);
      TransposedAt(b, 2, y);
      TransposeEntry(a, b, Transposed(a), Transposed(b), x, y);
    }
    Extensionality(l, r);
  }

  // ---- the array-filling operations ----

  /** `Transpose()`: fills a fresh array with `data[i] = Data[IndexOf(i / 3, i % 3)]`. */
  method Transpose(m: Matrix) returns (r: Matrix)
    ensures r == Transposed(m)
    ensures forall x, y :: 0 <= x < 3 && 0 <= y < 3 ==> Get(r, x, y) == Get(m, y, x)
  {
    var data := new real[9](_ => 0.0);
    for i := 0 to 9
      invariant forall k :: 0 <= k < i ==> data[k] == m.Data[IndexOf(k / 3, k % 3)]
    {
      var x := i % 3;
      var y := i / 3;
      data[i] := m.Data[IndexOf(y, x)];
    }
    r := Matrix2(data[..]);
    assert r.Data == Transposed(m).Data;
    forall x, y | 0 <= x < 3 && 0 <= y < 3 ensures Get(r, x, y) == Get(m, y, x) {
      TransposedAt(m, x, y);
    }
  }

  /** `operator+(Matrix2, Matrix2)`. */
  method Plus(left: Matrix, right: Matrix) returns (r: Matrix)
    ensures r == Sum(left, right)
  {
    var data := new real[9](_ => 0.0);
    for i := 0 to 9
      invariant forall k :: 0 <= k < i ==> data[k] == left.Data[k] + right.Data[k]
    {
      data[i] := left.Data[i] + right.Data[i];
    }
    r := Matrix2(data[..]);
  }

  /** `operator-(Matrix2, Matrix2)` as written: its loop adds the entries, so it equals `operator+`. */
  method Minus(left: Matrix, right: Matrix) returns (r: Matrix)
    ensures r == Sum(left, right)
  {
    var data := new real[9](_ => 0.0);
    for i := 0 to 9
      invariant forall k :: 0 <= k < i ==> data[k] == left.Data[k] + right.Data[k]
    {
      data[i] := left.Data[i] + right.Data[i];
    }
    r := Matrix2(data[..]);
  }

  /** The element-wise difference `operator-` is evidently meant to compute. */
  function Difference(left: Matrix, right: Matrix): (r: Matrix)
    ensures forall i :: 0 <= i < 9 ==> r.Data[i] == left.Data[i] - right.Data[i]
  {
    Matrix2(seq(9, i requires 0 <= i < 9 => left.Data[i] - right.Data[i]))
  }

  /** The difference undoes the sum, which the as-written `Minus` does not whenever `right` is non-zero. */
  lemma DifferenceUndoesSum(a: Matrix, b: Matrix)
    ensures Difference(Sum(a, b), b) == a
    ensures b != Matrix2(seq(9, _ => 0.0)) ==> Sum(Sum(a, b), b) != a
  {
    if b != Matrix2(seq(9, _ => 0.0)) {
      var i :| 0 <= i < 9 && b.Data[i] != 0.0;
      assert Sum(Sum(a, b), b).Data[i] != a.Data[i];
    }
  }

  /** Unary `operator+` as written: it negates every entry. `Matrix2` declares no unary `operator-`,
      so this may be negation declared under the wrong symbol; with no way to tell which was meant,
      the behaviour is kept as written, and `Negated` names it. */
  method UnaryPlus(m: Matrix) returns (r: Matrix)
    ensures r == Negated(m)
  {
    var data := new real[9](_ => 0.0);
    for i := 0 to 9
      invariant forall k :: 0 <= k < i ==> data[k] == -m.Data[k]
    {
      data[i] := -m.Data[i];
    }
    r := Matrix2(data[..]);
  }

  /** `operator*(Matrix2, Matrix2)`: a zero-initialised array accumulated over `j` for each entry. */
  method Multiply(left: Matrix, right: Matrix) returns (r: Matrix)
    ensures r == Product(left, right)
  {
    var data := new real[9](_ => 0.0);
    for i := 0 to 9
      invariant forall k :: 0 <= k < i ==> data[k] == Entry(left, right, k % 3, k / 3)
      invariant forall k :: i <= k < 9 ==> data[k] == 0.0
    {
      var x := i % 3;
      var y := i / 3;
      for j := 0 to 3
        invariant data[i] == PartialEntry(left, right, x, y, j)
        invariant forall k :: 0 <= k < i ==> data[k] == Entry(left, right, k % 3, k / 3)
        invariant forall k :: i < k < 9 ==> data[k] == 0.0
      {
        data[i] := data[i] + Get(left, j, y) * Get(right, x, j);
      }
      PartialEntryComplete(left, right, x, y);
    }
    r := Matrix2(data[..]);
  }

  /** `Equals(Matrix2)`: every entry within the precise tolerance, stopping at the first that is not. */
  method Equals(m: Matrix, other: Matrix) returns (r: bool)
    ensures r <==> forall i :: 0 <= i < 9 ==> IsFloatClose(m.Data[i], other.Data[i], PreciseEpsilonF)
  {
    for i := 0 to 9
      invariant forall k :: 0 <= k < i ==> IsFloatClose(m.Data[k], other.Data[k], PreciseEpsilonF)
    {
      if !IsFloatClose(m.Data[i], other.Data[i], PreciseEpsilonF) {
        return false;
      }
    }
    return true;
  }

  /** `Equals(Matrix2, float)`: every entry within `epsilon`. */
  method EqualsWithin(m: Matrix, other: Matrix, epsilon: real) returns (r: bool)
    ensures r <==> forall i :: 0 <= i < 9 ==> Abs(m.Data[i] - other.Data[i]) < epsilon
  {
    for i := 0 to 9
      invariant forall k :: 0 <= k < i ==> IsFloatClose(m.Data[k], other.Data[k], epsilon)
    {
      if !IsFloatClose(m.Data[i], other.Data[i], epsilon) {
        return false;
      }
    }
    return true;
  }

  // ---- inverse ----

  /**
   * The body of `GetInverse()` once the reciprocal `di` of the determinant is known. The second
   * basis vector is built from the already-replaced first one.
   */
  function InvertColumns(di: real, right: Vector2, up: Vector2, translation: Vector2): Matrix
  {
    var right0 := Mul(di, right);
    var up0 := Mul(di, up);
    var translation0 := Mul(di, translation);
    var right1 := Vec(-up0.Y, right0.Y);
    var up1 := Vec(up0.X, -right1.X);
    var translation1 := Vec(translation0.X * right1.X + translation0.Y * up1.X,
                            translation0.X * right1.Y + translation0.Y * up1.Y);
    FromBasis(Neg(translation1), right1, up1)
  }

  /**
   * `GetInverse()` as written. The divisor is the determinant, so the result is non-finite when it
   * is zero, modelled as `None`.
   */
  function GetInverse(m: Matrix): (r: Option<Matrix>)
    ensures r.None? <==> Determinant(m) == 0.0
    ensures r.Some? ==> r.value == InvertColumns(1.0 / Determinant(m), Right(m), Up(m), Translation(m))
  {
    var det := Determinant(m);
    if det == 0.0 then None else Some(InvertColumns(1.0 / det, Right(m), Up(m), Translation(m)))
  }

  /** For every invertible scale matrix diag(sx, sy), at any position, the as-written inverse composes
      with it to something other than the identity: entry [0, 0] of the product is -1. */
  lemma GetInverseIsNotInverse(position: Vector2, sx: real, sy: real)
    requires sx * sy != 0.0
    ensures GetInverse(FromScale(position, Vec(sx, sy))).Some?
    ensures Product(GetInverse(FromScale(position, Vec(sx, sy))).value, FromScale(position, Vec(sx, sy))) != Identity
  {
    var m := FromScale(position, Vec(sx, sy));
    var di := 1.0 / (sx * sy);
    var translation := Vector2(position.X, position.Y, 1.0);
    var inv := InvertColumns(di, Vec(sx, 0.0), Vec(0.0, sy), translation);
    assert Determinant(m) == sx * sy && Right(m) == Vec(sx, 0.0) && Up(m) == Vec(0.0, sy);
    assert Translation(m) == translation;
    assert GetInverse(m) == Some(inv);
    InvertColumnsFirstColumn(di, Vec(sx, 0.0), Vec(0.0, sy), translation);
    assert (di * sy) * sx == di * (sx * sy) == 1.0;
    NotIdentityAfterScale(inv, m, sx, di * sy);
  }

  /** The first column of `InvertColumns`: the replaced first basis vector, built from the second's
      y and the first's y, with z 0. */
  lemma InvertColumnsFirstColumn(di: real, right: Vector2, up: Vector2, translation: Vector2)
    ensures var inv := InvertColumns(di, right, up, translation);
      inv.Data[0] == -(di * up.Y) && inv.Data[1] == di * right.Y && inv.Data[2] == 0.0
  {
  }

  /** A matrix whose first column is (-k, 0, 0) does not undo one whose [0, 0] entry is the
      reciprocal of k. */
  lemma {:induction false} NotIdentityAfterScale(inv: Matrix, m: Matrix, sx: real, k: real)
    requires m.Data[0] == sx && k * sx == 1.0
    requires inv.Data[0] == -k && inv.Data[1] == 0.0 && inv.Data[2] == 0.0
    ensures Product(inv, m) != Identity
  {
    ProductAt(inv, m, 0, 0);
    assert Entry(inv, m, 0, 0) == -k * sx == -1.0;
    assert Get(Identity, 0, 0) == 1.0;
  }

  /** An affine matrix: the z entries of its columns are 0, 0 and 1. */
  predicate IsAffine(m: Matrix) { m.Data[2] == 0.0 && m.Data[5] == 0.0 && m.Data[8] == 1.0 }

  /** The inverse of an affine matrix with non-zero determinant, by the adjugate of its linear block. */
  function Inverse(m: Matrix): (r: Matrix)
    requires Determinant(m) != 0.0
    ensures IsAffine(r)
  {
    var u := 1.0 / Determinant(m);
    var a, b, c, d := m.Data[0], m.Data[1], m.Data[3], m.Data[4];
    var tx, ty := m.Data[6], m.Data[7];
    FromBasis(Vec((c * ty - d * tx) * u, (b * tx - a * ty) * u), Vec(d * u, -b * u), Vec(-c * u, a * u))
  }

  /** The algebra of the adjugate inverse, entry by entry, given `u` is the reciprocal of the determinant. */
  lemma InverseArith(a: real, b: real, c: real, d: real, tx: real, ty: real, u: real, e: real, f: real)
    requires (a * d - b * c) * u == 1.0 && e == (c * ty - d * tx) * u && f == (b * tx - a * ty) * u
    ensures a * (d * u) + b * (-c * u) + 0.0 * e == 1.0 && a * (-b * u) + b * (a * u) + 0.0 * f == 0.0
    ensures c * (d * u) + d * (-c * u) + 0.0 * e == 0.0 && c * (-b * u) + d * (a * u) + 0.0 * f == 1.0
    ensures tx * (d * u) + ty * (-c * u) + 1.0 * e == 0.0 && tx * (-b * u) + ty * (a * u) + 1.0 * f == 0.0
    ensures (d * u) * a + (-b * u) * c + 0.0 * tx == 1.0 && (d * u) * b + (-b * u) * d + 0.0 * ty == 0.0
    ensures (-c * u) * a + (a * u) * c + 0.0 * tx == 0.0 && (-c * u) * b + (a * u) * d + 0.0 * ty == 1.0
    ensures e * a + f * c + 1.0 * tx == 0.0 && e * b + f * d + 1.0 * ty == 0.0
  {
    assert e * a + f * c == -((a * d - b * c) * u) * tx;
    assert e * b + f * d == -((a * d - b * c) * u) * ty;
  }

  /** Entry `[x, y]` of `Product(m, inv)` for an affine `m` and its adjugate-based inverse `inv`. */
  lemma {:induction false} InverseEntryAfter(m: Matrix, inv: Matrix, a: real, b: real, c: real, d: real, tx: real, ty: real, u: real, x: int, y: int)
    requires 0 <= x < 3 && 0 <= y < 3
    requires (a * d - b * c) * u == 1.0
    requires m.Data[0] == a && m.Data[1] == b && m.Data[2] == 0.0 && m.Data[3] == c && m.Data[4] == d
    requires m.Data[5] == 0.0 && m.Data[6] == tx && m.Data[7] == ty && m.Data[8] == 1.0
    requires inv.Data[0] == d * u && inv.Data[1] == -b * u && inv.Data[2] == 0.0
    requires inv.Data[3] == -c * u && inv.Data[4] == a * u && inv.Data[5] == 0.0
    requires inv.Data[6] == (c * ty - d * tx) * u && inv.Data[7] == (b * tx - a * ty) * u && inv.Data[8] == 1.0
    ensures Entry(m, inv, x, y) == Get(Identity, x, y)
  {
    InverseArith(a, b, c, d, tx, ty, u, (c * ty - d * tx) * u, (b * tx - a * ty) * u);
    if x == 0 {
      if y == 0 {} else if y == 1 {} else {}
    } else if x == 1 {
      if y == 0 {} else if y == 1 {} else {}
    } else {
      if y == 0 {} else if y == 1 {} else {}
    }
  }

  /** Entry `[x, y]` of `Product(inv, m)` for an affine `m` and its adjugate-based inverse `inv`. */
  lemma {:induction false} InverseEntryBefore(m: Matrix, inv: Matrix, a: real, b: real, c: real, d: real, tx: real, ty: real, u: real, x: int, y: int)
    requires 0 <= x < 3 && 0 <= y < 3
    requires (a * d - b * c) * u == 1.0
    requires m.Data[0] == a && m.Data[1] == b && m.Data[2] == 0.0 && m.Data[3] == c && m.Data[4] == d
    requires m.Data[5] == 0.0 && m.Data[6] == tx && m.Data[7] == ty && m.Data[8] == 1.0
    requires inv.Data[0] == d * u && inv.Data[1] == -b * u && inv.Data[2] == 0.0
    requires inv.Data[3] == -c * u && inv.Data[4] == a * u && inv.Data[5] == 0.0
    requires inv.Data[6] == (c * ty - d * tx) * u && inv.Data[7] == (b * tx - a * ty) * u && inv.Data[8] == 1.0
    ensures Entry(inv, m, x, y) == Get(Identity, x, y)
  {
    InverseArith(a, b, c, d, tx, ty, u, (c * ty - d * tx) * u, (b * tx - a * ty) * u);
    if x == 0 {
      if y == 0 {} else if y == 1 {} else {}
    } else if x == 1 {
      if y == 0 {} else if y == 1 {} else {}
    } else {
      if y == 0 {} else if y == 1 {} else {}
    }
  }

  /** The layout of the corrected inverse, with `u` the reciprocal of the determinant. */
  lemma InverseLayout(m: Matrix, u: real)
    requires Determinant(m) != 0.0 && u == 1.0 / Determinant(m)
    ensures (m.Data[0] * m.Data[4] - m.Data[1] * m.Data[3]) * u == 1.0
    ensures Inverse(m).Data[0] == m.Data[4] * u && Inverse(m).Data[1] == -m.Data[1] * u && Inverse(m).Data[2] == 0.0
    ensures Inverse(m).Data[3] == -m.Data[3] * u && Inverse(m).Data[4] == m.Data[0] * u && Inverse(m).Data[5] == 0.0
    ensures Inverse(m).Data[6] == (m.Data[3] * m.Data[7] - m.Data[4] * m.Data[6]) * u
    ensures Inverse(m).Data[7] == (m.Data[1] * m.Data[6] - m.Data[0] * m.Data[7]) * u
    ensures Inverse(m).Data[8] == 1.0
  {
  }

  /** Any `inv` laid out as the adjugate inverse of an affine `m` composes with it to the identity. */
  lemma {:induction false} AdjugateIsInverse(m: Matrix, inv: Matrix, a: real, b: real, c: real, d: real, tx: real, ty: real, u: real)
    requires (a * d - b * c) * u == 1.0
    requires m.Data[0] == a && m.Data[1] == b && m.Data[2] == 0.0 && m.Data[3] == c && m.Data[4] == d
    requires m.Data[5] == 0.0 && m.Data[6] == tx && m.Data[7] == ty && m.Data[8] == 1.0
    requires inv.Data[0] == d * u && inv.Data[1] == -b * u && inv.Data[2] == 0.0
    requires inv.Data[3] == -c * u && inv.Data[4] == a * u && inv.Data[5] == 0.0
    requires inv.Data[6] == (c * ty - d * tx) * u && inv.Data[7] == (b * tx - a * ty) * u && inv.Data[8] == 1.0
    ensures Product(m, inv) == Identity && Product(inv, m) == Identity
  {
    forall x, y | 0 <= x < 3 && 0 <= y < 3
      ensures Get(Product(m, inv), x, y) == Get(Identity, x, y)
    {
      ProductAt(m, inv, x, y);
      InverseEntryAfter(m, inv, a, b, c, d, tx, ty, u, x, y);
    }
    forall x, y | 0 <= x < 3 && 0 <= y < 3
      ensures Get(Product(inv, m), x, y) == Get(Identity, x, y)
    {
      ProductAt(inv, m, x, y);
      InverseEntryBefore(m, inv, a, b, c, d, tx, ty, u, x, y);
    }
    Extensionality(Product(m, inv), Identity);
    Extensionality(Product(inv, m), Identity);
  }

  /** The corrected inverse composes with an affine matrix to the identity, on both sides. */
  lemma InverseIsInverse(m: Matrix)
    requires IsAffine(m) && Determinant(m) != 0.0
    ensures Product(m, Inverse(m)) == Identity
    ensures Product(Inverse(m), m) == Identity
  {
    var u := 1.0 / Determinant(m);
    InverseLayout(m, u);
    AdjugateIsInverse(m, Inverse(m), m.Data[0], m.Data[1], m.Data[3], m.Data[4], m.Data[6], m.Data[7], u);
  }
}
