/** The coordinate transforms of inc/transform.hpp. The linear transform
    leaves a 2-dimensional space untouched; the symmetric transform folds a
    square `n x n` matrix into `ceil(n / 2)` rows of `n` cells, storing the
    lower triangle in the first rows and the part that does not fit, mirrored,
    in the same rows from the other end. */
module Transform {
  import opened Utils

  /** A 2-dimensional point or shape (`point2`). Coordinates are signed here so
      that an out-of-range point of the source shows up as an out-of-range
      offset rather than as an unsigned wrap-around. */
  datatype Point2 = Point2(x: int, y: int)

  /** The transformer a space is instantiated with. */
  datatype Kind = Linear | Symmetric

  /** `shape(target)`: the shape of the storage that holds a space of shape
      `target`. The symmetric one is `((n >> 1) + (n & 1), n)`. */
  function Shape(kind: Kind, target: Point2): (r: Point2)
    requires target.y >= 0
  {
    match kind
    case Linear => target
    case Symmetric => Point2(target.y / 2 + target.y % 2, target.y)
  }

  /** `transform(space, target)`: the storage cell of a point of the space. */
  function TransformPoint(kind: Kind, space: Point2, target: Point2): (r: Point2)
  {
    match kind
    case Linear => target
    case Symmetric =>
      var i := Max(target.x, target.y);
      var j := Min(target.x, target.y);
      if i < space.x then Point2(i, j) else Point2(space.y - i - 1, space.y - j - 1)
  }

  /** `projection(shape)`: the shape of the space a storage shape stands for. */
  function Projection(kind: Kind, shape: Point2): (r: Point2)
  {
    match kind
    case Linear => shape
    case Symmetric => Point2(shape.y, shape.y)
  }

  /** The linear transform changes neither shapes nor points. */
  lemma LinearIsIdentity(space: Point2, target: Point2)
    requires target.y >= 0
    ensures Shape(Linear, target) == target
    ensures TransformPoint(Linear, space, target) == target
    ensures Projection(Linear, target) == target
  {
  }

  /** The symmetric storage has `ceil(n / 2)` rows of `n` cells. */
  lemma SymmetricShapeRows(n: nat)
    ensures var s := Shape(Symmetric, Point2(n, n));
            2 * s.x >= n && 2 * s.x <= n + 1 && s.y == n
  {
  }

  /** Projecting the shape of a space gives back the space: `dimension()` of
      a matrix is the square it was made with. */
  lemma ProjectionOfShape(kind: Kind, n: nat)
    ensures Projection(kind, Shape(kind, Point2(n, n))) == Point2(n, n)
  {
  }

  /** The symmetric transform does not depend on the order of the two coordinates. */
  lemma SymmetricTransformCommutes(space: Point2, a: int, b: int)
    ensures TransformPoint(Symmetric, space, Point2(a, b)) == TransformPoint(Symmetric, space, Point2(b, a))
  {
  }

  /** Every point of an `n x n` space lands inside the symmetric storage shape. */
  lemma SymmetricTransformInside(n: nat, a: int, b: int)
    requires 0 <= a < n && 0 <= b < n
    ensures var s := Shape(Symmetric, Point2(n, n));
            var r := TransformPoint(Symmetric, s, Point2(a, b));
            0 <= r.x < s.x && 0 <= r.y < s.y
  {
  }

  /** The first storage rows hold the cells on or below the diagonal, the
      mirrored rows the cells on or above it. */
  lemma SymmetricTransformSide(n: nat, a: int, b: int)
    requires 0 <= a < n && 0 <= b < n
    ensures var s := Shape(Symmetric, Point2(n, n));
            var r := TransformPoint(Symmetric, s, Point2(a, b));
            (Max(a, b) < s.x ==> r.y <= r.x) && (Max(a, b) >= s.x ==> r.x <= r.y) &&
            (a != b ==> r.x != r.y)
  {
  }

  /** Two points of an `n x n` space off the diagonal share a storage cell
      only when they are the same unordered pair. */
  lemma SymmetricTransformInjective(n: nat, a: int, b: int, c: int, d: int)
    requires 0 <= a < n && 0 <= b < n && 0 <= c < n && 0 <= d < n
    requires a != b && c != d
    requires var s := Shape(Symmetric, Point2(n, n));
             TransformPoint(Symmetric, s, Point2(a, b)) == TransformPoint(Symmetric, s, Point2(c, d))
    ensures (a == c && b == d) || (a == d && b == c)
  {
    SymmetricTransformSide(n, a, b);
    SymmetricTransformSide(n, c, d);
  }

  /** Diagonal cells are shared: `(i, i)` and `(n - 1 - i, n - 1 - i)` land in
      the same storage cell, so a write to one diagonal cell is read back
      through the other. With `n = 4`, `(0, 0)` and `(3, 3)` collide. */
  lemma SymmetricDiagonalShared()
    ensures var s := Shape(Symmetric, Point2(4, 4));
            TransformPoint(Symmetric, s, Point2(0, 0)) == TransformPoint(Symmetric, s, Point2(3, 3))
  {
  }
}
