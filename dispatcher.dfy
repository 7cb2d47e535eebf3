/** The key dispatcher of src/dispatcher.hpp: a table from names to elements
    (a `std::map`, so its keys are kept in lexicographic order) and the list
    of its keys, taken in that order when the dispatcher is built. */
module Dispatcher {
  import opened Wrappers

  /** `std::string`'s `operator<`: lexicographic, character by character, a
      proper prefix coming first. */
  predicate Less(a: string, b: string)
    decreases |a|
  {
    b != [] && (a == [] || a[0] < b[0] || (a[0] == b[0] && Less(a[1..], b[1..])))
  }

  lemma {:induction false} LessIrreflexive(a: string)
    ensures !Less(a, a)
    decreases |a|
  {
    if a != [] {
      LessIrreflexive(a[1..]);
    }
  }

  lemma {:induction false} LessTransitive(a: string, b: string, c: string)
    requires Less(a, b) && Less(b, c)
    ensures Less(a, c)
    decreases |a|
  {
    if a != [] && a[0] == b[0] && b[0] == c[0] {
      LessTransitive(a[1..], b[1..], c[1..]);
    }
  }

  /** Two different strings are ordered one way or the other. */
  lemma {:induction false} LessTotal(a: string, b: string)
    requires a != b
    ensures Less(a, b) || Less(b, a)
    decreases |a|
  {
    if a != [] && b != [] && a[0] == b[0] {
      assert a == [a[0]] + a[1..] && b == [b[0]] + b[1..];
      LessTotal(a[1..], b[1..]);
    }
  }

  /** Every element of `ks` after the one before it. */
  predicate Ascending(ks: seq<string>)
  {
    forall i, j :: 0 <= i < j < |ks| ==> Less(ks[i], ks[j])
  }

  /** An ascending list names each key once. */
  lemma AscendingDistinct(ks: seq<string>)
    requires Ascending(ks)
    ensures forall i, j :: 0 <= i < |ks| && 0 <= j < |ks| && i != j ==> ks[i] != ks[j]
  {
    forall i, j | 0 <= i < |ks| && 0 <= j < |ks| && i != j ensures ks[i] != ks[j] {
      if i < j {
        LessIrreflexive(ks[i]);
      } else {
        LessIrreflexive(ks[j]);
      }
    }
  }

  /** A non-empty finite set of strings has a least element. */
  lemma {:induction false} HasLeast(s: set<string>) returns (m: string)
    requires s != {}
    ensures m in s && forall x :: x in s && x != m ==> Less(m, x)
    decreases |s|
  {
    var x :| x in s;
    if s == {x} {
      m := x;
    } else {
      var m' := HasLeast(s - {x});
      if Less(m', x) {
        m := m';
      } else {
        LessTotal(m', x);
        m := x;
        forall y | y in s && y != m ensures Less(m, y) {
          if y != m' {
            LessTransitive(x, m', y);
          }
        }
      }
    }
  }

  /** The table an initializer list builds: a key given twice keeps its
      first element. */
  function PairsMap<T>(pairs: seq<(string, T)>): map<string, T>
  {
    if pairs == [] then map[]
    else
      var rest := PairsMap(pairs[1..]);
      rest[pairs[0].0 := pairs[0].1]
  }

  /** A key is in the table built from a list exactly when some pair gives it,
      and it holds the element of the first such pair. */
  lemma {:induction false} PairsMapLookup<T>(pairs: seq<(string, T)>, key: string)
    ensures key in PairsMap(pairs) <==> exists i :: 0 <= i < |pairs| && pairs[i].0 == key
    ensures key in PairsMap(pairs) ==>
              exists i :: (0 <= i < |pairs| && pairs[i].0 == key && PairsMap(pairs)[key] == pairs[i].1 &&
                           forall j :: 0 <= j < i ==> pairs[j].0 != key)
  {
    if pairs != [] {
      PairsMapLookup(pairs[1..], key);
      if key != pairs[0].0 && key in PairsMap(pairs) {
        var i :| 0 <= i < |pairs[1..]| && pairs[1..][i].0 == key &&
                 PairsMap(pairs[1..])[key] == pairs[1..][i].1 && forall j :: 0 <= j < i ==> pairs[1..][j].0 != key;
        assert pairs[i + 1].0 == key;
      }
      if exists i :: 0 <= i < |pairs| && pairs[i].0 == key {
        var i :| 0 <= i < |pairs| && pairs[i].0 == key;
        if key != pairs[0].0 {
          assert pairs[1..][i - 1].0 == key;
        }
      }
    }
  }

  /** The keys of `entries` in ascending order: the order a `std::map` is
      walked in. Each turn takes the least key not yet listed. */
  method SortedKeys<T>(entries: map<string, T>) returns (keys: seq<string>)
    ensures Ascending(keys)
    ensures forall k :: k in keys <==> k in entries
    ensures |keys| == |entries.Keys|
  {
    keys := [];
    var rest := entries.Keys;
    while rest != {}
      invariant Ascending(keys)
      invariant forall k :: k in entries <==> k in keys || k in rest
      invariant forall k :: k in keys ==> k !in rest
      invariant forall i, x :: 0 <= i < |keys| && x in rest ==> Less(keys[i], x)
      invariant |keys| + |rest| == |entries.Keys|
      decreases |rest|
    {
      ghost var least := HasLeast(rest);
      var k :| k in rest && forall x :: x in rest && x != k ==> Less(k, x);
      keys := keys + [k];
      rest := rest - {k};
    }
  }

  /** A dispatcher: its table and the list of its keys. */
  class Dispatcher<T> {
    var table: map<string, T>
    var keylist: seq<string>

    /** The list holds the table's keys, each once, in ascending order. */
    ghost predicate Valid()
      reads this
    {
      Ascending(keylist) && forall k :: k in keylist <==> k in table
    }

    /** `dispatcher(const underlying_type&)`: the given table, and its keys
        listed in the table's order. */
    constructor (entries: map<string, T>)
      ensures table == entries && Valid()
      ensures |keylist| == |entries.Keys|
    {
      var keys := SortedKeys(entries);
      table, keylist := entries, keys;
    }

    /** `dispatcher(std::initializer_list<pair_type>)`: the table built from
        the pairs (the first pair with a key wins), keys listed in order. */
    constructor FromPairs(pairs: seq<(string, T)>)
      ensures table == PairsMap(pairs) && Valid()
    {
      var keys := SortedKeys(PairsMap(pairs));
      table, keylist := PairsMap(pairs), keys;
    }

    /** `operator[](key)`: the element with that key; raises when there is none. */
    function Get(key: string): (r: Result<T>)
      reads this
      ensures r.Success? <==> key in table
      ensures r.Success? ==> r.value == table[key]
    {
      if key in table then Success(table[key]) else Failure("dispatcher could not find key")
    }

    /** `has(key)`: whether the key is known. */
    function Has(key: string): (r: bool)
      reads this
      ensures r <==> Get(key).Success?
    {
      key in table
    }

    /** `list()`: the known keys, each once, in ascending order. */
    function List(): (r: seq<string>)
      reads this
      requires Valid()
      ensures Ascending(r)
      ensures forall k :: k in r <==> Has(k)
      ensures forall i, j :: 0 <= i < |r| && 0 <= j < |r| && i != j ==> r[i] != r[j]
    {
      AscendingDistinct(keylist);
      keylist
    }
  }
}
