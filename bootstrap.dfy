/** The database transfer of src/bootstrap.cpp: the master flattens its
    database into a list of sequence sizes and one list of blocks, and every
    other node rebuilds a database from the two. Descriptions are not sent. */
module Bootstrap {
  import opened Encoder
  import opened Database

  /** The block count of every entry, in database order. */
  function Sizes(es: seq<Entry>): (r: seq<nat>)
    ensures |r| == |es|
  {
    if es == [] then [] else Sizes(es[..|es| - 1]) + [|es[|es| - 1].contents|]
  }

  /** The entries' blocks, one entry after another. */
  function Flatten(es: seq<Entry>): seq<Block>
  {
    if es == [] then [] else Flatten(es[..|es| - 1]) + es[|es| - 1].contents
  }

  /** The entries' contents, in order. */
  function Contents(es: seq<Entry>): (r: seq<seq<Block>>)
    ensures |r| == |es|
  {
    if es == [] then [] else Contents(es[..|es| - 1]) + [es[|es| - 1].contents]
  }

  /** The sum of the sizes. */
  function Total(sizes: seq<nat>): nat
  {
    if sizes == [] then 0 else Total(sizes[..|sizes| - 1]) + sizes[|sizes| - 1]
  }

  /** The sequences the sizes cut out of the blocks, each starting where the
      one before it ended. */
  function Chunks(sizes: seq<nat>, blocks: seq<Block>): (r: seq<seq<Block>>)
    requires Total(sizes) <= |blocks|
    ensures |r| == |sizes|
    ensures forall i :: 0 <= i < |sizes| ==> |r[i]| == sizes[i]
  {
    if sizes == [] then []
    else
      var init := sizes[..|sizes| - 1];
      Chunks(init, blocks) + [blocks[Total(init)..Total(sizes)]]
  }

  /** The sizes of the entries add up to the number of flattened blocks. */
  lemma {:induction false} TotalSizes(es: seq<Entry>)
    ensures Total(Sizes(es)) == |Flatten(es)|
  {
    if es != [] {
      var s := Sizes(es);
      assert s[..|s| - 1] == Sizes(es[..|es| - 1]);
      TotalSizes(es[..|es| - 1]);
    }
  }

  /** A prefix of the sizes adds up to no more than all of them. */
  lemma {:induction false} TotalPrefix(sizes: seq<nat>, i: nat)
    requires i < |sizes|
    ensures Total(sizes[..i + 1]) == Total(sizes[..i]) + sizes[i]
    ensures Total(sizes[..i + 1]) <= Total(sizes)
    decreases |sizes| - i
  {
    assert sizes[..i + 1][..i] == sizes[..i];
    if i + 1 < |sizes| {
      TotalPrefix(sizes, i + 1);
    } else {
      assert sizes[..i + 1] == sizes;
    }
  }

  /** Blocks after the ones the sizes cover do not change the chunks. */
  lemma {:induction false} ChunksPrefix(sizes: seq<nat>, blocks: seq<Block>, more: seq<Block>)
    requires Total(sizes) <= |blocks|
    ensures Chunks(sizes, blocks + more) == Chunks(sizes, blocks)
  {
    if sizes != [] {
      var init := sizes[..|sizes| - 1];
      ChunksPrefix(init, blocks, more);
      assert (blocks + more)[Total(init)..Total(sizes)] == blocks[Total(init)..Total(sizes)];
    }
  }

  /** Cutting the flattened blocks by the entries' sizes gives back every
      entry's contents: the round trip preserves the count and the contents
      at every index. */
  lemma {:induction false} ChunksOfFlatten(es: seq<Entry>)
    ensures Total(Sizes(es)) <= |Flatten(es)|
    ensures Chunks(Sizes(es), Flatten(es)) == Contents(es)
  {
    TotalSizes(es);
    if es != [] {
      var init := es[..|es| - 1];
      var last := es[|es| - 1];
      var s := Sizes(es);
      assert s[..|s| - 1] == Sizes(init);
      TotalSizes(init);
      ChunksOfFlatten(init);
      ChunksPrefix(Sizes(init), Flatten(init), last.contents);
      assert Flatten(es)[Total(Sizes(init))..Total(s)] == last.contents;
    }
  }

  /** `serialize(db)`: the entries' sizes and their blocks, in database order. */
  method Serialize(db: Database) returns (sizes: seq<nat>, blocks: seq<Block>)
    ensures sizes == Sizes(db.entries) && blocks == Flatten(db.entries)
    ensures |sizes| == |db.entries| && Total(sizes) == |blocks|
    ensures forall i :: 0 <= i < |sizes| ==> sizes[i] == |db.entries[i].contents|
  {
    sizes, blocks := [], [];
    var i := 0;
    while i < |db.entries|
      invariant 0 <= i <= |db.entries|
      invariant sizes == Sizes(db.entries[..i]) && blocks == Flatten(db.entries[..i])
    {
      var entry := db.entries[i];
      assert db.entries[..i + 1][..i] == db.entries[..i];
      sizes := sizes + [|entry.contents|];
      blocks := blocks + entry.contents;
      i := i + 1;
    }
    assert db.entries[..i] == db.entries;
    TotalSizes(db.entries);
    SizesAt(db.entries);
  }

  /** Entry `i`'s size is its block count. */
  lemma {:induction false} SizesAt(es: seq<Entry>)
    ensures forall i :: 0 <= i < |es| ==> Sizes(es)[i] == |es[i].contents|
  {
    if es != [] {
      SizesAt(es[..|es| - 1]);
    }
  }

  /** `unserialize(sizes, blocks)`: a new database with one anonymous entry per
      size, cut from the blocks at a running offset. The source reads the
      blocks unchecked, so the sizes must not add up to more than there are. */
  method Unserialize(counter: AnonymousCounter, sizes: seq<nat>, blocks: seq<Block>) returns (db: Database)
    requires Total(sizes) <= |blocks|
    modifies counter
    ensures fresh(db) && db.Valid()
    ensures counter.last == old(counter.last) + |sizes|
    ensures db.entries == Anonymous(old(counter.last), Chunks(sizes, blocks))
  {
    db := new Database();
    var i, j := 0, 0;
    while i < |sizes|
      invariant 0 <= i <= |sizes| && fresh(db) && db.Valid()
      invariant j == Total(sizes[..i]) <= Total(sizes)
      invariant counter.last == old(counter.last) + i
      invariant db.entries == Anonymous(old(counter.last), Chunks(sizes[..i], blocks))
    {
      TotalPrefix(sizes, i);
      var chunk := blocks[j..j + sizes[i]];
      assert sizes[..i + 1][..i] == sizes[..i];
      db.AddAnonymous(counter, chunk);
      j := j + sizes[i];
      i := i + 1;
    }
    assert sizes[..i] == sizes;
  }

  /** Anonymous entries hold the given sequences, in order. */
  lemma {:induction false} AnonymousContents(last: nat, elems: seq<seq<Block>>)
    ensures Contents(Anonymous(last, elems)) == elems
  {
    if elems != [] {
      var a := Anonymous(last, elems);
      assert a[..|a| - 1] == Anonymous(last, elems[..|elems| - 1]);
      AnonymousContents(last, elems[..|elems| - 1]);
    }
  }

  /** Unserializing what `serialize` produced rebuilds a database with the
      same number of entries and the same contents at every index; only the
      descriptions are new. */
  lemma RoundTrip(es: seq<Entry>, last: nat)
    ensures Total(Sizes(es)) <= |Flatten(es)|
    ensures Contents(Anonymous(last, Chunks(Sizes(es), Flatten(es)))) == Contents(es)
  {
    ChunksOfFlatten(es);
    AnonymousContents(last, Contents(es));
  }
}
