/** The bounds-checked buffer of src/buffer.hpp. A buffer is a view of `size`
    elements of a storage array starting at `start`; a `slice_buffer` is a
    view of the same storage, so writes through a slice are seen through its
    target and the other way round. */
module Buffer {
  import opened Wrappers

  /** The checks of the slice constructor as the source performs them: it first
      calls `offset(displ)`, which demands `0 <= displ < size` of the target,
      and then demands `displ + size <= target size`. */
  predicate SliceAcceptedAsWritten(targetSize: nat, displ: int, size: nat)
  {
    0 <= displ < targetSize && displ + size <= targetSize
  }

  /** The slice bound the constructor evidently means: the slice lies inside
      its target. An empty slice may start right at the target's end. */
  predicate SliceAccepted(targetSize: nat, displ: int, size: nat)
  {
    0 <= displ && displ + size <= targetSize
  }

  /** The as-written check refuses an empty slice at the end of its target,
      in particular every slice of an empty buffer, which the corrected check
      accepts; otherwise the two agree. */
  lemma SliceCheckDiscrepancy(targetSize: nat, displ: int, size: nat)
    ensures SliceAcceptedAsWritten(targetSize, displ, size)
        <==> SliceAccepted(targetSize, displ, size) && !(size == 0 && displ == targetSize)
    ensures !SliceAcceptedAsWritten(0, 0, 0) && SliceAccepted(0, 0, 0)
  {
  }

  class Buffer<T(0)> {
    const storage: array<T>
    const start: nat
    const size: nat
    /** `slice_buffer::m_displ`: the displacement relative to the target; 0 for a plain buffer. */
    const displ: int

    ghost predicate Valid()
    {
      start + size <= storage.Length
    }

    /** The elements visible through this buffer. */
    function Contents(): (s: seq<T>)
      reads this, storage
      requires Valid()
      ensures |s| == size
    {
      storage[start..start + size]
    }

    /** A view of `size` elements of `storage` starting at `start`. */
    constructor View(storage: array<T>, start: nat, size: nat, displ: int)
      requires start + size <= storage.Length
      ensures Valid()
      ensures this.storage == storage && this.start == start && this.size == size && this.displ == displ
    {
      this.storage := storage;
      this.start := start;
      this.size := size;
      this.displ := displ;
    }

    /** `buffer::make(size)`: a fresh buffer of `size` elements. */
    constructor Make(size: nat)
      ensures Valid() && fresh(storage) && storage.Length == size
      ensures this.size == size && start == 0 && displ == 0
    {
      storage := new T[size];
      start := 0;
      this.size := size;
      displ := 0;
    }

    /** `operator[](offset)`, reading: raises unless `0 <= offset < size`. */
    method Get(offset: int) returns (r: Result<T>)
      requires Valid()
      ensures r.Success? <==> 0 <= offset < size
      ensures r.Success? ==> r.value == Contents()[offset]
    {
      if 0 <= offset < size {
        r := Success(storage[start + offset]);
      } else {
        r := Failure("buffer offset out of range");
      }
    }

    /** `operator[](offset)`, writing through the returned reference: raises
        unless `0 <= offset < size`; otherwise only that element of the shared
        storage changes. */
    method Set(offset: int, value: T) returns (r: Result<()>)
      requires Valid()
      modifies storage
      ensures r.Success? <==> 0 <= offset < size
      ensures storage[..] == if r.Success? then old(storage[..])[start + offset := value] else old(storage[..])
    {
      if 0 <= offset < size {
        storage[start + offset] := value;
        r := Success(());
      } else {
        r := Failure("buffer offset out of range");
      }
    }

    /** `offset(k)`: the storage position of element `k`. Unless `0 <= k < size`
        its check fails; as `offset` is `noexcept`, that ends the process. */
    function Offset(k: int): (r: Result<nat>)
      reads this
      ensures r.Success? <==> 0 <= k < size
      ensures r.Success? ==> r.value == start + k
    {
      if 0 <= k < size then Success(start + k) else Failure("buffer offset out of range")
    }

    /** `copy(buf)`: a fresh buffer of the same size whose elements are copied
        one by one (`make(size).copy_from(raw())`). */
    method Copy() returns (b: Buffer<T>)
      requires Valid()
      ensures fresh(b) && fresh(b.storage) && b.Valid()
      ensures b.start == 0 && b.size == size && b.Contents() == Contents()
    {
      b := new Buffer.Make(size);
      var i := 0;
      while i < size
        invariant 0 <= i <= size
        invariant b.storage[..i] == storage[start..start + i]
      {
        b.storage[i] := storage[start + i];
        i := i + 1;
      }
    }

    /** `slice_buffer(tgt, displ, size)` with the bound its second check
        states (see `SliceAccepted`): the slice shares the target's storage, so
        element `k` of the slice is element `displ + k` of the target. */
    static method Slice(tgt: Buffer<T>, displ: int, size: nat) returns (r: Result<Buffer<T>>)
      requires tgt.Valid()
      ensures r.Success? <==> SliceAccepted(tgt.size, displ, size)
      ensures r.Success? ==> fresh(r.value) && r.value.Valid()
      ensures r.Success? ==> (r.value.storage == tgt.storage && r.value.start == tgt.start + displ &&
                              r.value.size == size && r.value.displ == displ)
      ensures r.Success? ==> r.value.Contents() == tgt.Contents()[displ..displ + size]
    {
      if SliceAccepted(tgt.size, displ, size) {
        var s := new Buffer.View(tgt.storage, tgt.start + displ, size, displ);
        r := Success(s);
      } else {
        r := Failure("slice out of buffer's range");
      }
    }

    /** `slice_buffer(tgt, displ, size)` exactly as written: `offset(displ)`
        is checked first (a failure there ends the process, `offset` being
        `noexcept`), then the slice bound is enforced. */
    static method SliceAsWritten(tgt: Buffer<T>, displ: int, size: nat) returns (r: Result<Buffer<T>>)
      requires tgt.Valid()
      ensures r.Success? <==> SliceAcceptedAsWritten(tgt.size, displ, size)
      ensures r.Success? ==> fresh(r.value) && r.value.Valid()
      ensures r.Success? ==> (r.value.storage == tgt.storage && r.value.start == tgt.start + displ &&
                              r.value.size == size && r.value.displ == displ)
    {
      var at := tgt.Offset(displ);
      if at.Failure? {
        return Failure(at.error);
      }
      if displ + size > tgt.size {
        return Failure("slice out of buffer's range");
      }
      var s := new Buffer.View(tgt.storage, at.value, size, displ);
      r := Success(s);
    }

    /** `slice_buffer(tgt, base)` as written: like `SliceAsWritten`, it calls
        `offset(base.displ())` on the target before the bound is enforced. */
    static method SliceLikeAsWritten(tgt: Buffer<T>, base: Buffer<T>) returns (r: Result<Buffer<T>>)
      requires tgt.Valid()
      ensures r.Success? <==> SliceAcceptedAsWritten(tgt.size, base.displ, base.size)
      ensures r.Success? ==> fresh(r.value) && r.value.Valid()
      ensures r.Success? ==> (r.value.storage == tgt.storage && r.value.start == tgt.start + base.displ &&
                              r.value.size == base.size && r.value.displ == base.displ)
    {
      r := SliceAsWritten(tgt, base.displ, base.size);
    }

    /** `slice_buffer(tgt, base)`, corrected: a slice of `tgt` at the same
        displacement and size as the slice `base`. */
    static method SliceLike(tgt: Buffer<T>, base: Buffer<T>) returns (r: Result<Buffer<T>>)
      requires tgt.Valid()
      ensures r.Success? <==> SliceAccepted(tgt.size, base.displ, base.size)
      ensures r.Success? ==> fresh(r.value) && r.value.Valid()
      ensures r.Success? ==> (r.value.storage == tgt.storage && r.value.start == tgt.start + base.displ &&
                              r.value.size == base.size && r.value.displ == base.displ)
    {
      r := Slice(tgt, base.displ, base.size);
    }
  }

  /** A write through a slice is seen through its target at the displaced position. */
  lemma SliceAliasesTarget<T(0)>(tgt: Buffer<T>, slice: Buffer<T>, k: nat)
    requires tgt.Valid() && slice.Valid()
    requires slice.storage == tgt.storage && slice.start == tgt.start + slice.displ
    requires 0 <= slice.displ && k < slice.size && slice.displ + slice.size <= tgt.size
    ensures slice.Contents()[k] == tgt.Contents()[slice.displ + k]
  {
  }
}
