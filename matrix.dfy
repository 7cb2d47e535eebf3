/** The 2-dimensional matrix of src/matrix.hpp: a bounds-checked buffer
    addressed through a space. `symmatrix` is the same class over the
    symmetric transform. */
module Matrix {
  import opened Wrappers
  import opened Transform
  import opened Space
  import Buffer

  class Matrix<E(0)> {
    const buf: Buffer.Buffer<E>
    const space: Space

    /** The backing buffer holds exactly one element per stored cell. */
    ghost predicate Valid()
      reads this, buf
    {
      buf.Valid() && buf.size == Volume(space)
    }

    /** `matrix(buf, space)`: a matrix over an existing buffer whose size is the space's volume. */
    constructor FromBuffer(b: Buffer.Buffer<E>, s: Space)
      requires b.Valid() && b.size == Volume(s)
      ensures Valid() && buf == b && space == s
    {
      buf := b;
      space := s;
    }

    /** `make(space)`: a fresh matrix whose buffer has the space's volume. */
    constructor Make(s: Space)
      requires Volume(s) >= 0
      ensures Valid() && fresh(buf) && fresh(buf.storage) && space == s
    {
      buf := new Buffer.Buffer.Make(Volume(s));
      space := s;
    }

    /** `operator[](offset)`, reading: the buffer element at `collapse(offset)`,
        which raises when that offset is outside the buffer. */
    method Get(p: Point2) returns (r: Result<E>)
      requires Valid()
      ensures r.Success? <==> 0 <= Collapse(space, p) < Volume(space)
      ensures r.Success? ==> r.value == buf.Contents()[Collapse(space, p)]
    {
      r := buf.Get(Collapse(space, p));
    }

    /** `operator[](offset)`, writing through the returned reference: only the
        cell at `collapse(offset)` changes, and an offset outside the buffer raises. */
    method Set(p: Point2, value: E) returns (r: Result<()>)
      requires Valid()
      modifies buf.storage
      ensures r.Success? <==> 0 <= Collapse(space, p) < Volume(space)
      ensures buf.storage[..] == if r.Success? then old(buf.storage[..])[buf.start + Collapse(space, p) := value]
                                 else old(buf.storage[..])
    {
      r := buf.Set(Collapse(space, p), value);
    }

    /** `linear(offset)`: the buffer element at `direct(offset)`, bypassing the transform. */
    method Linear(p: Point2) returns (r: Result<E>)
      requires Valid()
      ensures r.Success? <==> 0 <= Direct(space, p) < Volume(space)
      ensures r.Success? ==> r.value == buf.Contents()[Direct(space, p)]
    {
      r := buf.Get(Direct(space, p));
    }

    /** `dimension()`: the projected shape of the matrix. */
    function MatrixDimension(): (d: Point2)
      reads this
      ensures d == Dimension(space)
    {
      Projection(space.kind, space.dim)
    }

    /** `copy(mat)`: a fresh matrix over a copy of the buffer, with the same space. */
    method Copy() returns (m: Matrix<E>)
      requires Valid()
      ensures fresh(m) && fresh(m.buf) && m.Valid()
      ensures m.space == space && m.buf.Contents() == buf.Contents()
    {
      var b := buf.Copy();
      m := new Matrix.FromBuffer(b, space);
    }
  }

  /** In a `symmatrix` made for `n x n`, every in-range access succeeds, and
      `[a, b]` and `[b, a]` read the same cell. */
  method SymmetricReadBoth<E(0)>(m: Matrix<E>, n: nat, a: nat, b: nat) returns (ab: Result<E>, ba: Result<E>)
    requires m.Valid() && m.space == MakeSpace(Symmetric, n, n)
    requires a < n && b < n
    ensures ab.Success? && ba.Success? && ab.value == ba.value
  {
    CollapseInVolume(Symmetric, n, a, b);
    SymmetricCollapseCommutes(m.space, a, b);
    ab := m.Get(Point2(a, b));
    ba := m.Get(Point2(b, a));
  }

  /** In a `symmatrix`, a write to `[a, b]` is read back through `[b, a]`. */
  method SymmetricWriteThrough<E(0)>(m: Matrix<E>, n: nat, a: nat, b: nat, value: E) returns (r: Result<E>)
    requires m.Valid() && m.space == MakeSpace(Symmetric, n, n)
    requires a < n && b < n
    modifies m.buf.storage
    ensures r == Success(value)
  {
    CollapseInVolume(Symmetric, n, a, b);
    SymmetricCollapseCommutes(m.space, a, b);
    var w := m.Set(Point2(a, b), value);
    r := m.Get(Point2(b, a));
  }
}
