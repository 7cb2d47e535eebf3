/** The 2-dimensional space of src/space.hpp: a shape, stored already
    transformed, that maps points to linear offsets in row-major order. */
module Space {
  import opened Transform

  /** `space<2, size_t, M>`: the transformer and the stored (transformed) shape `dim`. */
  datatype Space = Space(kind: Kind, dim: Point2)

  /** The constructor `space(value...)`: stores the transformed shape of the given dimensions. */
  function MakeSpace(kind: Kind, rows: nat, cols: nat): (s: Space)
    ensures s.kind == kind && s.dim == Shape(kind, Point2(rows, cols))
    ensures s.dim.x >= 0 && s.dim.y >= 0
  {
    Space(kind, Shape(kind, Point2(rows, cols)))
  }

  /** `direct(target)`: the row-major offset of a stored point. */
  function Direct(s: Space, p: Point2): int
  {
    p.x * s.dim.y + p.y
  }

  /** `volume()`: the number of stored cells. */
  function Volume(s: Space): int
  {
    s.dim.x * s.dim.y
  }

  /** `collapse(target)`: the offset of a point of the space, through the transform. */
  function Collapse(s: Space, p: Point2): int
  {
    Direct(s, TransformPoint(s.kind, s.dim, p))
  }

  /** `dimension()`: the projected shape, the one the space was made with. */
  function Dimension(s: Space): Point2
  {
    Projection(s.kind, s.dim)
  }

  /** A point inside the stored shape. */
  predicate InShape(s: Space, p: Point2)
  {
    0 <= p.x < s.dim.x && 0 <= p.y < s.dim.y
  }

  /** A stored point lies in the row-major range `[0, volume)`. */
  lemma DirectInVolume(s: Space, p: Point2)
    requires InShape(s, p)
    ensures 0 <= Direct(s, p) < Volume(s)
  {
    assert p.x * s.dim.y <= (s.dim.x - 1) * s.dim.y;
  }

  /** Multiplying by a positive width keeps rows apart by at least that width. */
  lemma RowsApart(a: int, b: int, w: int)
    requires a < b && w > 0
    ensures a * w + w <= b * w
  {
    var d := b - a;
    assert b * w == a * w + d * w;
    assert d * w == w + (d - 1) * w;
    assert (d - 1) * w >= 0;
  }

  /** Distinct stored points have distinct offsets. */
  lemma DirectInjective(s: Space, p: Point2, q: Point2)
    requires InShape(s, p) && InShape(s, q)
    requires Direct(s, p) == Direct(s, q)
    ensures p == q
  {
    if p.x < q.x {
      RowsApart(p.x, q.x, s.dim.y);
    } else if q.x < p.x {
      RowsApart(q.x, p.x, s.dim.y);
    }
  }

  /** A space made with the given dimensions projects back to them. */
  lemma DimensionOfMakeSpace(kind: Kind, n: nat)
    ensures Dimension(MakeSpace(kind, n, n)) == Point2(n, n)
  {
    ProjectionOfShape(kind, n);
  }

  /** Every point of an `n x n` space, linear or symmetric, collapses into the
      storage range `[0, volume)`. */
  lemma CollapseInVolume(kind: Kind, n: nat, a: int, b: int)
    requires 0 <= a < n && 0 <= b < n
    ensures 0 <= Collapse(MakeSpace(kind, n, n), Point2(a, b)) < Volume(MakeSpace(kind, n, n))
  {
    var s := MakeSpace(kind, n, n);
    if kind == Symmetric {
      SymmetricTransformInside(n, a, b);
    }
    DirectInVolume(s, TransformPoint(kind, s.dim, Point2(a, b)));
  }

  /** In a symmetric space `(a, b)` and `(b, a)` collapse to the same offset. */
  lemma SymmetricCollapseCommutes(s: Space, a: int, b: int)
    requires s.kind == Symmetric
    ensures Collapse(s, Point2(a, b)) == Collapse(s, Point2(b, a))
  {
    SymmetricTransformCommutes(s.dim, a, b);
  }

  /** In an `n x n` symmetric space, off-diagonal points collapse to the same
      offset only when they are the same unordered pair. */
  lemma SymmetricCollapseInjective(n: nat, a: int, b: int, c: int, d: int)
    requires 0 <= a < n && 0 <= b < n && 0 <= c < n && 0 <= d < n
    requires a != b && c != d
    requires Collapse(MakeSpace(Symmetric, n, n), Point2(a, b)) == Collapse(MakeSpace(Symmetric, n, n), Point2(c, d))
    ensures (a == c && b == d) || (a == d && b == c)
  {
    var s := MakeSpace(Symmetric, n, n);
    SymmetricTransformInside(n, a, b);
    SymmetricTransformInside(n, c, d);
    DirectInjective(s, TransformPoint(Symmetric, s.dim, Point2(a, b)), TransformPoint(Symmetric, s.dim, Point2(c, d)));
    SymmetricTransformInjective(n, a, b, c, d);
  }
}
