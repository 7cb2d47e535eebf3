/** The sequence database of src/database.hpp and src/database.cpp: a list of
    described sequences and an index from each description to the position
    of its latest entry. Descriptions are not unique; a later entry with the
    same description takes over the key. */
module Database {
  import opened Wrappers
  import opened Encoder

  /** `entry_type`: a description and the encoded sequence. */
  datatype Entry = Entry(description: string, contents: seq<Block>)

  /** The index after writing, for every position `lo <= k < hi` in order, the
      description of entry `k` to `k` over the map `m`. */
  function Override(m: map<string, nat>, es: seq<Entry>, lo: nat, hi: nat): map<string, nat>
    requires hi <= |es|
  {
    if hi <= lo then m else Override(m, es, lo, hi - 1)[es[hi - 1].description := hi - 1]
  }

  /** Some entry at a position in `[lo, hi)` carries the description `d`. */
  predicate DescribedIn(es: seq<Entry>, d: string, lo: nat, hi: nat)
    requires hi <= |es|
  {
    exists k :: lo <= k < hi && es[k].description == d
  }

  /** What the overridden index holds: a description written in `[lo, hi)`
      maps to the last position carrying it; any other key keeps its old
      value, and no key is added or lost otherwise. */
  lemma {:induction false} OverrideLookup(m: map<string, nat>, es: seq<Entry>, lo: nat, hi: nat, d: string)
    requires hi <= |es|
    ensures d in Override(m, es, lo, hi) <==> d in m || DescribedIn(es, d, lo, hi)
    ensures DescribedIn(es, d, lo, hi) ==>
              var k := Override(m, es, lo, hi)[d];
              lo <= k < hi && es[k].description == d && forall j :: k < j < hi ==> es[j].description != d
    ensures !DescribedIn(es, d, lo, hi) && d in m ==> Override(m, es, lo, hi)[d] == m[d]
  {
    if hi > lo {
      OverrideLookup(m, es, lo, hi - 1, d);
      if es[hi - 1].description != d && DescribedIn(es, d, lo, hi) {
        var k :| lo <= k < hi && es[k].description == d;
        assert DescribedIn(es, d, lo, hi - 1);
      }
    }
  }

  /** Overriding `[0, k)` and then `[k, n)` is overriding `[0, n)`. */
  lemma {:induction false} OverrideSplit(m: map<string, nat>, es: seq<Entry>, k: nat, n: nat)
    requires k <= n <= |es|
    ensures Override(Override(m, es, 0, k), es, k, n) == Override(m, es, 0, n)
  {
    if n > k {
      OverrideSplit(m, es, k, n - 1);
    }
  }

  /** Entries appended after `hi` do not change the index built up to `hi`. */
  lemma {:induction false} OverridePrefix(m: map<string, nat>, es: seq<Entry>, more: seq<Entry>, lo: nat, hi: nat)
    requires hi <= |es|
    ensures Override(m, es + more, lo, hi) == Override(m, es, lo, hi)
  {
    if hi > lo {
      OverridePrefix(m, es, more, lo, hi - 1);
      assert (es + more)[hi - 1] == es[hi - 1];
    }
  }

  /** The index a consistent database holds for its entries. */
  function KeyIndex(es: seq<Entry>): map<string, nat>
  {
    Override(map[], es, 0, |es|)
  }

  /** The decimal text of a number, as `%d` prints it. */
  function Decimal(k: nat): (s: string)
    ensures |s| >= 1
  {
    if k < 10 then [Digit(k)] else Decimal(k / 10) + [Digit(k % 10)]
  }

  function Digit(d: nat): char
    requires d < 10
  {
    ('0' as int + d) as char
  }

  /** Reads back decimal digits. */
  function ParseDecimal(s: string): nat
  {
    if s == [] then 0
    else
      var c := s[|s| - 1] as int - '0' as int;
      ParseDecimal(s[..|s| - 1]) * 10 + (if 0 <= c < 10 then c else 0)
  }

  /** The decimal text reads back as the number it was made from. */
  lemma {:induction false} DecimalRoundTrip(k: nat)
    ensures ParseDecimal(Decimal(k)) == k
  {
    var s := Decimal(k);
    if k < 10 {
      assert s[..0] == [];
    } else {
      assert s[..|s| - 1] == Decimal(k / 10);
      DecimalRoundTrip(k / 10);
    }
  }

  /** `fmt::format("anonymous#%d", k)`: the description of the `k`-th anonymous sequence. */
  function AnonymousName(k: nat): string
  {
    "anonymous#" + Decimal(k)
  }

  /** Different anonymous sequences get different descriptions. */
  lemma AnonymousNamesDistinct(j: nat, k: nat)
    requires j != k
    ensures AnonymousName(j) != AnonymousName(k)
  {
    var prefix := "anonymous#";
    if AnonymousName(j) == AnonymousName(k) {
      assert Decimal(j) == AnonymousName(j)[|prefix|..];
      assert Decimal(k) == AnonymousName(k)[|prefix|..];
      DecimalRoundTrip(j);
      DecimalRoundTrip(k);
    }
  }

  /** `database::anonymous`, the global count of anonymous sequences. */
  class AnonymousCounter {
    var last: nat

    constructor ()
      ensures last == 0
    {
      last := 0;
    }
  }

  class Database {
    /** `m_entries` */
    var entries: seq<Entry>
    /** `m_indeces` */
    var indices: map<string, nat>

    /** Every key points at an entry. */
    ghost predicate Indexed()
      reads this
    {
      forall d :: d in indices ==> indices[d] < |entries|
    }

    /** The index maps every description to the position of its latest entry,
        and holds no other key. */
    ghost predicate Valid()
      reads this
    {
      indices == KeyIndex(entries)
    }

    /** A consistent index points at entries. */
    lemma ValidIsIndexed()
      requires Valid()
      ensures Indexed()
    {
      forall d | d in indices ensures indices[d] < |entries| {
        OverrideLookup(map[], entries, 0, |entries|, d);
      }
    }

    /** An empty database. */
    constructor ()
      ensures Valid() && entries == []
    {
      entries := [];
      indices := map[];
    }

    /** `count()`: the number of entries. */
    function Count(): (n: nat)
      reads this
      ensures n == |entries|
    {
      |entries|
    }

    /** `operator[](offset)`: the entry at an offset; raises when the offset is
        negative or not below `count()`. */
    method At(offset: int) returns (r: Result<Entry>)
      ensures r.Success? <==> 0 <= offset < |entries|
      ensures r.Success? ==> r.value == entries[offset]
    {
      if !(offset >= 0 && offset < Count()) {
        return Failure("database offset out of range");
      }
      r := Success(entries[offset]);
    }

    /** `operator[](key)`: the entry a key points at; raises for an unknown key.
        In a consistent database that is the latest entry with that description. */
    method Find(key: string) returns (r: Result<Entry>)
      requires Indexed()
      ensures r.Success? <==> key in indices
      ensures r.Success? ==> r.value == entries[indices[key]]
      ensures Valid() ==> (r.Success? <==> DescribedIn(entries, key, 0, |entries|))
      ensures Valid() && r.Success? ==>
                r.value.description == key &&
                exists k :: 0 <= k < |entries| && entries[k] == r.value &&
                  forall j :: k < j < |entries| ==> entries[j].description != key
    {
      if Valid() {
        OverrideLookup(map[], entries, 0, |entries|, key);
      }
      if key !in indices {
        return Failure("cannot find key in database");
      }
      r := Success(entries[indices[key]]);
    }

    /** `add(description, elem)`: appends an entry and points its description
        at it, even when that description was already known. */
    method Add(description: string, contents: seq<Block>)
      modifies this
      ensures entries == old(entries) + [Entry(description, contents)]
      ensures indices == old(indices)[description := |old(entries)|]
      ensures old(Valid()) ==> Valid()
      ensures old(Indexed()) ==> Indexed()
    {
      ghost var es := entries + [Entry(description, contents)];
      if Valid() {
        OverridePrefix(map[], entries, [Entry(description, contents)], 0, |entries|);
      }
      indices := indices[description := |entries|];
      entries := entries + [Entry(description, contents)];
    }

    /** `add(elem)`: appends an entry named after the next anonymous number. */
    method AddAnonymous(counter: AnonymousCounter, contents: seq<Block>)
      modifies this, counter
      ensures counter.last == old(counter.last) + 1
      ensures entries == old(entries) + [Entry(AnonymousName(counter.last), contents)]
      ensures indices == old(indices)[AnonymousName(counter.last) := |old(entries)|]
      ensures old(Valid()) ==> Valid()
      ensures old(Indexed()) ==> Indexed()
    {
      counter.last := counter.last + 1;
      Add(AnonymousName(counter.last), contents);
    }

    /** `add(elems)`: appends the elements in order, each as an anonymous entry
        with the next number. */
    method AddAll(counter: AnonymousCounter, elems: seq<seq<Block>>)
      modifies this, counter
      ensures counter.last == old(counter.last) + |elems|
      ensures entries == old(entries) + Anonymous(old(counter.last), elems)
      ensures old(Valid()) ==> Valid()
    {
      var i := 0;
      while i < |elems|
        invariant 0 <= i <= |elems|
        invariant counter.last == old(counter.last) + i
        invariant entries == old(entries) + Anonymous(old(counter.last), elems[..i])
        invariant old(Valid()) ==> Valid()
      {
        AddAnonymous(counter, elems[i]);
        assert elems[..i + 1] == elems[..i] + [elems[i]];
        i := i + 1;
      }
      assert elems[..i] == elems;
    }

    /** `update_keys(index)`: points the description of every entry from
        `index` on at that entry, in order. */
    method UpdateKeys(index: nat)
      modifies this
      ensures entries == old(entries)
      ensures indices == if index < |entries| then Override(old(indices), entries, index, |entries|) else old(indices)
    {
      var i := index;
      while i < |entries|
        invariant entries == old(entries) && index <= i
        invariant index < |entries| ==> i <= |entries| && indices == Override(old(indices), entries, index, i)
        invariant index >= |entries| ==> indices == old(indices)
      {
        indices := indices[entries[i].description := i];
        i := i + 1;
      }
    }

    /** `merge(db)`: appends the other database's entries in order and indexes
        them; the other database is left as it was. */
    method Merge(other: Database)
      requires other != this
      modifies this
      ensures entries == old(entries) + other.entries
      ensures indices == Override(old(indices), entries, |old(entries)|, |entries|)
      ensures old(Valid()) ==> Valid()
    {
      var last := |entries|;
      entries := entries + other.entries;
      UpdateKeys(last);
      MergedIndex(old(entries), other.entries, old(indices));
    }

    /** `merge(std::move(db))`: as `merge`, and the other database's index is
        cleared. */
    method MergeMove(other: Database)
      requires other != this
      modifies this, other
      ensures entries == old(entries) + old(other.entries)
      ensures indices == Override(old(indices), entries, |old(entries)|, |entries|)
      ensures other.indices == map[] && other.Indexed()
      ensures old(Valid()) ==> Valid()
    {
      var last := |entries|;
      entries := entries + other.entries;
      other.indices := map[];
      UpdateKeys(last);
      MergedIndex(old(entries), old(other.entries), old(indices));
    }

    /** `only(keys)` with offsets: a new database holding the selected entries
        in the order of the key set; raises for an offset out of range. */
    method OnlyOffsets(keys: seq<int>) returns (r: Result<Database>)
      ensures r.Failure? <==> exists k :: 0 <= k < |keys| && !(0 <= keys[k] < |entries|)
      ensures r.Success? ==> fresh(r.value) && r.value.Valid() && |r.value.entries| == |keys|
      ensures r.Success? ==> forall k :: 0 <= k < |keys| ==> 0 <= keys[k] < |entries| && r.value.entries[k] == entries[keys[k]]
    {
      var db := new Database();
      var i := 0;
      while i < |keys|
        invariant 0 <= i <= |keys|
        invariant fresh(db) && db.Valid() && |db.entries| == i
        invariant forall k :: 0 <= k < i ==> 0 <= keys[k] < |entries| && db.entries[k] == entries[keys[k]]
      {
        var e := At(keys[i]);
        if e.Failure? {
          return Failure(e.error);
        }
        db.Add(e.value.description, e.value.contents);
        i := i + 1;
      }
      r := Success(db);
    }

    /** `only(keys)` with descriptions: a new database holding the entries the
        keys point at, in the order of the key set; raises for an unknown key. */
    method OnlyKeys(keys: seq<string>) returns (r: Result<Database>)
      requires Indexed()
      ensures r.Failure? <==> exists k :: 0 <= k < |keys| && keys[k] !in indices
      ensures r.Success? ==> fresh(r.value) && r.value.Valid() && |r.value.entries| == |keys|
      ensures r.Success? ==> forall k :: 0 <= k < |keys| ==> keys[k] in indices && r.value.entries[k] == entries[indices[keys[k]]]
    {
      var db := new Database();
      var i := 0;
      while i < |keys|
        invariant 0 <= i <= |keys|
        invariant fresh(db) && db.Valid() && |db.entries| == i
        invariant forall k :: 0 <= k < i ==> keys[k] in indices && db.entries[k] == entries[indices[keys[k]]]
      {
        var e := Find(keys[i]);
        if e.Failure? {
          return Failure(e.error);
        }
        db.Add(e.value.description, e.value.contents);
        i := i + 1;
      }
      r := Success(db);
    }
  }

  /** The entries `add(elems)` appends when the counter stood at `last`. */
  function Anonymous(last: nat, elems: seq<seq<Block>>): (r: seq<Entry>)
    ensures |r| == |elems|
    ensures forall k :: 0 <= k < |elems| ==> r[k] == Entry(AnonymousName(last + k + 1), elems[k])
  {
    if elems == [] then []
    else Anonymous(last, elems[..|elems| - 1]) + [Entry(AnonymousName(last + |elems|), elems[|elems| - 1])]
  }

  /** Indexing the appended entries of a consistent database gives the index
      of the merged entries. */
  lemma MergedIndex(a: seq<Entry>, b: seq<Entry>, m: map<string, nat>)
    ensures m == KeyIndex(a) ==> Override(m, a + b, |a|, |a + b|) == KeyIndex(a + b)
  {
    if m == KeyIndex(a) {
      OverridePrefix(map[], a, b, 0, |a|);
      OverrideSplit(map[], a + b, |a|, |a + b|);
    }
  }

  /** After a merge of consistent databases, a key points at the latest
      entry carrying it: one of the appended entries if any carries it, and
      the entry it pointed at before otherwise. */
  lemma MergedLookup(a: seq<Entry>, b: seq<Entry>, d: string)
    ensures d in KeyIndex(a + b) <==> d in KeyIndex(a) || DescribedIn(a + b, d, |a|, |a + b|)
    ensures DescribedIn(a + b, d, |a|, |a + b|) ==> |a| <= KeyIndex(a + b)[d]
    ensures !DescribedIn(a + b, d, |a|, |a + b|) && d in KeyIndex(a) ==> KeyIndex(a + b)[d] == KeyIndex(a)[d]
  {
    MergedIndex(a, b, KeyIndex(a));
    OverrideLookup(KeyIndex(a), a + b, |a|, |a + b|, d);
  }
}
